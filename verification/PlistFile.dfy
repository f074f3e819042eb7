/** The layout of a file: header, objects, offset table and trailer, and what the reader's checks make of it. */
module PlistFile {
  import opened Bytes
  import opened PlistReader

  const HEADER: seq<byte> := [0x62, 0x70, 0x6C, 0x69, 0x73, 0x74, 0x30, 0x30] // bplist00

  function Concat(parts: seq<seq<byte>>): seq<byte> {
    if parts == [] then [] else Concat(parts[..|parts| - 1]) + parts[|parts| - 1]
  }

  /** Where object `i` starts. */
  function Start(parts: seq<seq<byte>>, i: nat): nat
    requires i <= |parts|
  {
    8 + |Concat(parts[..i])|
  }

  function End(parts: seq<seq<byte>>): nat {
    8 + |Concat(parts)|
  }

  /** The smallest of 1, 2, 4 and 8 bytes that holds `count`. */
  function ByteCount(count: nat): (size: nat)
    requires count < TWO64
    ensures size in {1, 2, 4, 8} && count < Pow256(size)
    ensures forall s | s in {1, 2, 4, 8} && s < size :: Pow256(s) <= count
  {
    Pow256Values();
    if count < 0x100 then 1 else if count < 0x1_0000 then 2 else if count < 0x1_0000_0000 then 4 else 8
  }

  /** The first `n` entries of the offset table, `w` bytes each. */
  function OffsetTable(parts: seq<seq<byte>>, n: nat, w: nat): (s: seq<byte>)
    requires n <= |parts|
    ensures |s| == Rows(n, w)
  {
    if n == 0 then [] else OffsetTable(parts, n - 1, w) + BigEndian(Start(parts, n - 1), w)
  }

  function TrailerBytes(t: Trailer): (s: seq<byte>)
    ensures |s| == 32
  {
    [0, 0, 0, 0, 0, 0, t.offsetIntSize, t.objectRefSize]
      + BigEndian(t.numObjects, 8) + BigEndian(t.topObject, 8) + BigEndian(t.tableOffset, 8)
  }

  /** No empty objects, and room for 32-bit references and 63-bit offsets. */
  predicate Fits(parts: seq<seq<byte>>) {
    && 0 < |parts| < 0x1_0000_0000
    && End(parts) + 8 * |parts| + 32 <= LONG_MAX
    && (forall i | 0 <= i < |parts| :: parts[i] != [])
  }

  function TrailerFor(parts: seq<seq<byte>>): Trailer
    requires Fits(parts)
  {
    Trailer(ByteCount(End(parts)), ByteCount(|parts|), |parts|, 0, End(parts))
  }

  function FileOf(parts: seq<seq<byte>>): seq<byte>
    requires Fits(parts)
  {
    var t := TrailerFor(parts);
    HEADER + Concat(parts) + OffsetTable(parts, |parts|, t.offsetIntSize) + TrailerBytes(t)
  }

  // ----- Finding the pieces again -----

  lemma LastPart(a: seq<byte>, b: seq<byte>, all: seq<byte>)
    requires a + b <= all
    ensures all[|a|..|a| + |b|] == b
  {
    assert all[..|a + b|] == a + b;
    assert (a + b)[|a|..] == b;
  }

  lemma InPrefix(a: seq<byte>, all: seq<byte>, lo: nat, hi: nat)
    requires a <= all && lo <= hi <= |a|
    ensures all[lo..hi] == a[lo..hi]
  {
    assert all[..|a|] == a;
  }

  lemma FourParts(a: seq<byte>, b: seq<byte>, c: seq<byte>, d: seq<byte>)
    ensures var s := a + b + c + d;
            && s[..|a|] == a
            && s[|a|..|a| + |b|] == b
            && s[|a| + |b|..|a| + |b| + |c|] == c
  {
  }

  lemma {:induction false} ConcatPrefix(parts: seq<seq<byte>>, i: nat)
    requires i <= |parts|
    ensures Concat(parts[..i]) <= Concat(parts)
  {
    if i < |parts| {
      var init := parts[..|parts| - 1];
      ConcatPrefix(init, i);
      assert init[..i] == parts[..i];
    } else {
      assert parts[..i] == parts;
    }
  }

  lemma ConcatNext(parts: seq<seq<byte>>, i: nat)
    requires i < |parts|
    ensures Concat(parts[..i + 1]) == Concat(parts[..i]) + parts[i]
  {
    assert parts[..i + 1][..i] == parts[..i];
  }

  /** Object `i` lies between its own offset and the end of the objects. */
  lemma PartInConcat(parts: seq<seq<byte>>, i: nat)
    requires i < |parts|
    ensures Start(parts, i) + |parts[i]| <= End(parts)
    ensures Concat(parts)[Start(parts, i) - 8..Start(parts, i) - 8 + |parts[i]|] == parts[i]
  {
    ConcatNext(parts, i);
    ConcatPrefix(parts, i + 1);
    LastPart(Concat(parts[..i]), parts[i], Concat(parts));
  }

  lemma {:induction false} EntryInTable(parts: seq<seq<byte>>, n: nat, w: nat, i: nat)
    requires i < n <= |parts|
    ensures 0 <= Rows(i, w) <= Rows(i, w) + w <= Rows(n, w)
    ensures OffsetTable(parts, n, w)[Rows(i, w)..Rows(i, w) + w] == BigEndian(Start(parts, i), w)
    decreases n
  {
    var before, entry := OffsetTable(parts, n - 1, w), BigEndian(Start(parts, n - 1), w);
    RowFits(i, n, w);
    if i < n - 1 {
      EntryInTable(parts, n - 1, w, i);
      InPrefix(before, before + entry, Rows(i, w), Rows(i, w) + w);
    } else {
      LastPart(before, entry, before + entry);
    }
  }

  lemma TrailerInverts(pre: seq<byte>, t: Trailer)
    requires t.numObjects < TWO64 && t.topObject < TWO64 && t.tableOffset < TWO64
    ensures TrailerOf(pre + TrailerBytes(t)) == t
  {
    var s := TrailerBytes(t);
    var all := pre + s;
    assert all[|all| - 32..] == s;
    assert s[8..16] == BigEndian(t.numObjects, 8);
    assert s[16..24] == BigEndian(t.topObject, 8);
    assert s[24..32] == BigEndian(t.tableOffset, 8);
    Pow256Values();
    SizedRoundTrip(t.numObjects, 8);
    SizedRoundTrip(t.topObject, 8);
    SizedRoundTrip(t.tableOffset, 8);
  }

  function DocOf(parts: seq<seq<byte>>): Doc
    requires Fits(parts)
  {
    Doc(FileOf(parts), TrailerFor(parts))
  }

  /** Where the pieces lie. */
  ghost predicate LaidOut(b: seq<byte>, parts: seq<seq<byte>>, w: nat) {
    && |b| == End(parts) + Rows(|parts|, w) + 32
    && b[..8] == HEADER
    && b[8..End(parts)] == Concat(parts)
    && b[End(parts)..End(parts) + Rows(|parts|, w)] == OffsetTable(parts, |parts|, w)
  }

  lemma FileLayout(parts: seq<seq<byte>>)
    requires Fits(parts)
    ensures LaidOut(FileOf(parts), parts, TrailerFor(parts).offsetIntSize)
    ensures TrailerOf(FileOf(parts)) == TrailerFor(parts)
  {
    var t := TrailerFor(parts);
    var objects, table := Concat(parts), OffsetTable(parts, |parts|, t.offsetIntSize);
    TrailerInverts(HEADER + objects + table, t);
    FourParts(HEADER, objects, table, TrailerBytes(t));
  }

  lemma SliceOfSlice(s: seq<byte>, lo: nat, hi: nat, t: seq<byte>, a: nat, b: nat, e: seq<byte>)
    requires lo <= hi <= |s| && s[lo..hi] == t && a <= b <= |t| && t[a..b] == e
    ensures lo + b <= |s| && s[lo + a..lo + b] == e
  {
    assert forall k | 0 <= k < b - a :: s[lo..hi][a..b][k] == s[lo + a..lo + b][k];
  }

  /** Entry `i` of the offset table. */
  lemma EntryAt(b: seq<byte>, parts: seq<seq<byte>>, w: nat, i: nat)
    requires LaidOut(b, parts, w) && i < |parts|
    ensures End(parts) + Rows(i, w) + w <= |b|
    ensures b[End(parts) + Rows(i, w)..End(parts) + Rows(i, w) + w] == BigEndian(Start(parts, i), w)
  {
    EntryInTable(parts, |parts|, w, i);
    SliceOfSlice(b, End(parts), End(parts) + Rows(|parts|, w), OffsetTable(parts, |parts|, w),
                 Rows(i, w), Rows(i, w) + w, BigEndian(Start(parts, i), w));
  }

  /** Object `i` lies where the table says. */
  lemma PartAt(b: seq<byte>, parts: seq<seq<byte>>, w: nat, i: nat)
    requires LaidOut(b, parts, w) && i < |parts|
    ensures Start(parts, i) + |parts[i]| <= End(parts) <= |b|
    ensures b[Start(parts, i)..Start(parts, i) + |parts[i]|] == parts[i]
  {
    PartInConcat(parts, i);
    var at := Start(parts, i) - 8;
    SliceOfSlice(b, 8, End(parts), Concat(parts), at, at + |parts[i]|, parts[i]);
  }

  lemma FileWellSized(parts: seq<seq<byte>>)
    requires Fits(parts)
    ensures WellSized(DocOf(parts))
  {
    FileLayout(parts);
    RowsWider(|parts|, TrailerFor(parts).offsetIntSize, 8);
    RowsIsProduct(|parts|, 8);
    PartInConcat(parts, 0);
    assert parts[0] != [];
  }

  lemma StartFits(parts: seq<seq<byte>>, i: nat)
    requires Fits(parts) && i < |parts|
    ensures var w := TrailerFor(parts).offsetIntSize; SizedInt(BigEndian(Start(parts, i), w)) == Start(parts, i)
  {
    PartInConcat(parts, i);
    SizedRoundTrip(Start(parts, i), TrailerFor(parts).offsetIntSize);
  }

  lemma OffsetAtLaidOut(doc: Doc, parts: seq<seq<byte>>, i: nat)
    requires WellSized(doc) && LaidOut(doc.bytes, parts, doc.t.offsetIntSize)
    requires doc.t.tableOffset == End(parts) && doc.t.numObjects == |parts| && i < |parts|
    ensures OffsetAt(doc, i) == SizedInt(BigEndian(Start(parts, i), doc.t.offsetIntSize))
  {
    EntryAt(doc.bytes, parts, doc.t.offsetIntSize, i);
  }

  /** The reader finds in the table where each object starts. */
  lemma OffsetAtInverts(parts: seq<seq<byte>>, i: nat)
    requires Fits(parts) && WellSized(DocOf(parts)) && i < |parts|
    ensures OffsetAt(DocOf(parts), i) == Start(parts, i)
  {
    FileLayout(parts);
    OffsetAtLaidOut(DocOf(parts), parts, i);
    StartFits(parts, i);
  }

  lemma FileValid(parts: seq<seq<byte>>)
    requires Fits(parts)
    ensures ValidDoc(DocOf(parts))
  {
    FileWellSized(parts);
    var doc := DocOf(parts);
    forall i | 0 <= i < doc.t.numObjects ensures OffsetAt(doc, i) < doc.t.tableOffset {
      OffsetAtInverts(parts, i);
      PartInConcat(parts, i);
    }
  }

  /** Every written file passes the reader's checks, and its top object is object 0. */
  lemma FileAccepted(parts: seq<seq<byte>>)
    requires Fits(parts)
    ensures TopLevelOk(FileOf(parts))
    ensures Doc(FileOf(parts), TrailerOf(FileOf(parts))) == DocOf(parts)
    ensures ValidDoc(DocOf(parts)) && OffsetAt(DocOf(parts), 0) == 8
  {
    FileLayout(parts);
    FileValid(parts);
    OffsetAtInverts(parts, 0);
    assert parts[..0] == [];
    var b := FileOf(parts);
    assert b[..7] == b[..8][..7] == MAGIC;
    RowFits(0, |parts|, TrailerFor(parts).offsetIntSize);
  }
}
