/**
 The writer and the reader against the format: containers and files as they are written, and every
 object as it is read.
 */
module PlistConforms {
  import opened Bytes
  import opened Plist
  import opened PlistFormat
  import opened PlistFile
  import opened PlistReader
  import opened PlistWriter
  import opened PlistFlatten
  import opened PlistObjects
  import opened PlistRoundTrip

  // ----- Containers as they are written -----

  ghost function Numbers(ids: seq<Id>, table: map<Id, nat>): (refs: seq<nat>)
    requires forall c | c in ids :: c in table
    ensures |refs| == |ids|
  {
    seq(|ids|, i requires 0 <= i < |ids| => table[ids[i]])
  }

  lemma NextMultiple(i: nat, w: nat)
    ensures (i + 1) * w == i * w + w
  {
  }

  lemma RefLater(first: seq<byte>, rest: seq<byte>, i: nat, ref: nat, w: nat)
    requires |first| == w && IsRef(rest, i, ref, w)
    ensures IsRef(first + rest, i + 1, ref, w)
  {
    NextMultiple(i, w);
    NextMultiple(i + 1, w);
    assert (first + rest)[(i + 1) * w..(i + 2) * w] == rest[i * w..(i + 1) * w];
  }

  lemma RefFirst(first: seq<byte>, rest: seq<byte>, ref: nat, w: nat)
    requires |first| == w && ToNat(first) == ref
    ensures IsRef(first + rest, 0, ref, w)
  {
    assert 0 * w == 0 && 1 * w == w;
    assert (first + rest)[0..w] == first;
  }

  lemma AnyRef(first: seq<byte>, rest: seq<byte>, ref: nat, refs: seq<nat>, w: nat, i: nat)
    requires |first| == w && ToNat(first) == ref && HoldsRefs(rest, refs, w) && i <= |refs|
    ensures IsRef(first + rest, i, ([ref] + refs)[i], w)
  {
    if i == 0 {
      RefFirst(first, rest, ref, w);
    } else {
      assert IsRef(rest, i - 1, refs[i - 1], w);
      RefLater(first, rest, i - 1, refs[i - 1], w);
    }
  }

  lemma MoreRefs(first: seq<byte>, rest: seq<byte>, ref: nat, refs: seq<nat>, w: nat)
    requires |first| == w && ToNat(first) == ref && HoldsRefs(rest, refs, w)
    ensures HoldsRefs(first + rest, [ref] + refs, w)
  {
    assert (|refs| + 1) * w == |refs| * w + w;
    forall i | 0 <= i < |refs| + 1 ensures IsRef(first + rest, i, ([ref] + refs)[i], w) {
      AnyRef(first, rest, ref, refs, w, i);
    }
  }

  lemma {:induction false} RefsFormat(ids: seq<Id>, table: map<Id, nat>, w: nat)
    requires forall c | c in ids :: c in table && table[c] < Pow256(w)
    ensures HoldsRefs(RefBytes(ids, table, w), Numbers(ids, table), w)
  {
    if ids == [] {
      assert 0 * w == 0;
    } else {
      RefsFormat(ids[1..], table, w);
      BigEndianRoundTrip(table[ids[0]], w);
      MoreRefs(BigEndian(table[ids[0]], w), RefBytes(ids[1..], table, w), table[ids[0]], Numbers(ids[1..], table), w);
      assert Numbers(ids, table) == [table[ids[0]]] + Numbers(ids[1..], table);
    }
  }

  /** Every object is written in the format: a primitive concisely, a container with the numbers of its children. */
  lemma ObjectFormat(n: Node, table: map<Id, nat>, w: nat)
    requires Writable(n) && forall c | c in n.Children() :: c in table && table[c] < Pow256(w)
    ensures var b := ObjectBytes(n, table, w);
            match n
            case Leaf(v) => Encodes(b, v) && Concise(b, v)
            case ArrayNode(es) => IsContainer(b, 0xA, |es|, Numbers(es, table), w)
            case DictNode(ks, vs) => IsContainer(b, 0xD, |ks|, Numbers(ks, table) + Numbers(vs, table), w)
  {
    match n
    case Leaf(v) => LeafFormat(v);
    case ArrayNode(es) =>
      RefsFormat(es, table, w);
      HeadFormat(0xA0, |es|, RefBytes(es, table, w));
    case DictNode(ks, vs) =>
      RefsFormat(ks + vs, table, w);
      HeadFormat(0xD0, |ks|, RefBytes(ks + vs, table, w));
      assert Numbers(ks + vs, table) == Numbers(ks, table) + Numbers(vs, table);
  }

  // ----- Files as they are written -----

  lemma PartFormat(b: seq<byte>, parts: seq<seq<byte>>, w: nat, i: nat)
    requires LaidOut(b, parts, w) && i < |parts|
    ensures IsPart(b, parts[i], Start(parts, i), EndOf(Starts(parts), i, End(parts)))
  {
    PartAt(b, parts, w, i);
    ConcatNext(parts, i);
    assert i + 1 == |parts| ==> parts[..i + 1] == parts;
  }

  lemma BodyFormat(b: seq<byte>, parts: seq<seq<byte>>, w: nat)
    requires LaidOut(b, parts, w) && parts != []
    ensures IsBody(b, parts, Starts(parts), End(parts))
  {
    var starts := Starts(parts);
    assert parts[..0] == [] && Concat(parts[..0]) == [];
    forall i | 0 <= i < |parts| ensures IsPart(b, parts[i], starts[i], EndOf(starts, i, End(parts))) {
      PartFormat(b, parts, w, i);
    }
  }

  lemma TailSlice(b: seq<byte>, at: nat, i: nat, j: nat)
    requires at <= |b| && i <= j <= |b| - at
    ensures b[at..][i..j] == b[at + i..at + j]
  {
  }

  lemma TableEntry(b: seq<byte>, parts: seq<seq<byte>>, w: nat, i: nat)
    requires LaidOut(b, parts, w) && i < |parts| && End(parts) < Pow256(w)
    ensures IsRef(b[End(parts)..], i, Start(parts, i), w)
  {
    EntryAt(b, parts, w, i);
    RowsIsProduct(i, w);
    NextMultiple(i, w);
    PartInConcat(parts, i);
    BigEndianRoundTrip(Start(parts, i), w);
    TailSlice(b, End(parts), i * w, (i + 1) * w);
  }

  lemma TrailerFormat(t: Trailer)
    requires t.numObjects < TWO64 && t.topObject == 0 && t.tableOffset < TWO64
    ensures IsTrailer(TrailerBytes(t), t.offsetIntSize, t.objectRefSize, t.numObjects, t.tableOffset)
  {
    var s := TrailerBytes(t);
    assert s[8..16] == BigEndian(t.numObjects, 8);
    assert s[16..24] == BigEndian(t.topObject, 8);
    assert s[24..32] == BigEndian(t.tableOffset, 8);
    Pow256Values();
    BigEndianRoundTrip(t.numObjects, 8);
    BigEndianRoundTrip(t.topObject, 8);
    BigEndianRoundTrip(t.tableOffset, 8);
  }

  lemma TableFormat(b: seq<byte>, parts: seq<seq<byte>>, w: nat)
    requires LaidOut(b, parts, w) && End(parts) < Pow256(w)
    ensures IsTable(b, Starts(parts), End(parts), w) && |b| == End(parts) + |parts| * w + 32
  {
    RowsIsProduct(|parts|, w);
    forall i | 0 <= i < |parts| ensures IsRef(b[End(parts)..], i, Starts(parts)[i], w) {
      TableEntry(b, parts, w, i);
    }
  }

  lemma ByteCountLeast(count: nat)
    requires count < TWO64
    ensures LeastWidth(ByteCount(count), count)
  {
  }

  lemma EndFormat(parts: seq<seq<byte>>)
    requires Fits(parts)
    ensures var b, t := FileOf(parts), TrailerFor(parts);
            |b| >= 32 && IsTrailer(b[|b| - 32..], t.offsetIntSize, t.objectRefSize, |parts|, End(parts))
            && LeastWidth(t.offsetIntSize, End(parts)) && LeastWidth(t.objectRefSize, |parts|)
  {
    var b, t := FileOf(parts), TrailerFor(parts);
    TrailerFormat(t);
    ByteCountLeast(End(parts));
    ByteCountLeast(|parts|);
    assert b[|b| - 32..] == TrailerBytes(t);
  }

  /**
   The file is of the format: signature, objects, offset table and trailer, each number where it
   belongs and in least width.
   */
  lemma FileFormat(parts: seq<seq<byte>>)
    requires Fits(parts)
    ensures var t := TrailerFor(parts);
            IsFile(FileOf(parts), parts, Starts(parts), End(parts), t.offsetIntSize, t.objectRefSize)
  {
    var b, t := FileOf(parts), TrailerFor(parts);
    FileLayout(parts);
    BodyFormat(b, parts, t.offsetIntSize);
    TableFormat(b, parts, t.offsetIntSize);
    EndFormat(parts);
  }

  // ----- Objects as they are read -----

  lemma AtPart(doc: Doc, off: nat, b: seq<byte>, i: nat, j: nat)
    requires ValidDoc(doc) && At(doc, off, b) && i <= j <= |b|
    ensures off + j <= doc.t.tableOffset && doc.bytes[off + i..off + j] == b[i..j]
  {
    forall k | i <= k < j ensures doc.bytes[off + k] == b[k] {
    }
  }

  lemma AtTail(doc: Doc, off: nat, b: seq<byte>, i: nat)
    requires ValidDoc(doc) && At(doc, off, b) && i < |b|
    ensures doc.bytes[off] == b[0] && off + |b| <= doc.t.tableOffset && doc.bytes[off + i..off + |b|] == b[i..]
  {
    assert doc.bytes[off + 0] == b[0];
    AtPart(doc, off, b, i, |b|);
    assert b[i..|b|] == b[i..];
  }

  /** Any int object, of least width or not, gives its number as a count. */
  lemma IntCounts(doc: Doc, ptr: nat, b: seq<byte>, n: nat)
    requires ValidDoc(doc) && At(doc, ptr, b) && IsInt(b, n)
    ensures ReadInt(doc, ptr) == Some((n, ptr + |b|))
  {
    Pow2Values();
    AtTail(doc, ptr, b, 1);
    SizedIntOfFew(b[1..]);
  }

  /** Any head gives its count and where the contents begin. */
  lemma HeadCounts(doc: Doc, off: nat, b: seq<byte>, high: nat, n: nat)
    requires ValidDoc(doc) && At(doc, off, b) && HasHead(b, high, n) && n <= LONG_MAX
    ensures doc.bytes[off] / 16 == high && ReadCount(doc, off) == Some((n, off + HeadLength(b)))
  {
    assert doc.bytes[off + 0] == b[0];
    if b[0] % 16 == 15 {
      var c := b[1..HeadLength(b)];
      assert At(doc, off + 1, c) by {
        forall i | 0 <= i < |c| ensures doc.bytes[off + 1 + i] == c[i] {
          assert doc.bytes[off + (1 + i)] == b[1 + i];
        }
      }
      IntCounts(doc, off + 1, c, n);
    }
  }

  /**
   What a primitive of the format is read as: the high half of a 128-bit integer is lost, and a UID
   lies where it was read.
   */
  ghost function ReadBack(v: Value, off: nat): Value {
    match v
    case WideInt(_, l) => WideInt(0, l)
    case Uid(u, _) => Uid(u, Object(off))
    case _ => v
  }

  lemma IntReads(doc: Doc, off: nat, b: seq<byte>, n: int)
    requires ValidDoc(doc) && 8 <= off && At(doc, off, b) && Encodes(b, Int(n))
    ensures ShapeAt(doc, off) == Some(Primitive(Int(n)))
  {
    Pow2Values();
    AtTail(doc, off, b, 1);
    SizedIntOfFew(b[1..]);
  }

  lemma WideReads(doc: Doc, off: nat, b: seq<byte>, h: int, l: nat)
    requires ValidDoc(doc) && 8 <= off && At(doc, off, b) && Encodes(b, WideInt(h, l))
    ensures ShapeAt(doc, off) == Some(Primitive(WideInt(0, l)))
  {
    Pow2Values();
    assert doc.bytes[off + 0] == b[0];
    AtPart(doc, off, b, 1, 17);
    var hi, lo := b[1..9], b[9..17];
    assert b[1..17] == hi + lo;
    ToNatConcat8(hi, lo);
    ToNatBound(lo);
    Pow256Values();
    LowBits(ToNat(lo), ToNat(hi));
  }

  lemma LowBits(l: nat, h: nat)
    requires l < TWO64
    ensures (l + h * TWO64) % TWO64 == l
  {
  }

  lemma TakeTail(doc: Doc, off: nat, b: seq<byte>, i: nat)
    requires ValidDoc(doc) && At(doc, off, b) && 0 < i <= |b|
    ensures Take(doc, off + i, |b| - i) == Some(b[i..])
  {
    AtPart(doc, off, b, i, |b|);
    assert b[i..|b|] == b[i..];
  }

  lemma FitsWord(b: seq<byte>, u: nat)
    requires ToNat(b) == u < TWO64
    ensures SizedInt(b) == u
  {
  }

  lemma UidReads(doc: Doc, off: nat, b: seq<byte>, u: nat)
    requires ValidDoc(doc) && 8 <= off && At(doc, off, b) && IsUid(b, u) && u <= 0xFFFF_FFFF
    ensures ShapeAt(doc, off) == Some(Primitive(Uid(u, Object(off))))
  {
    AtTail(doc, off, b, 1);
    TakeTail(doc, off, b, 1);
    FitsWord(b[1..], u);
  }

  lemma SimpleReads(doc: Doc, off: nat, b: seq<byte>, v: Value)
    requires ValidDoc(doc) && 8 <= off && At(doc, off, b) && Encodes(b, v) && (v.Null? || v.Bool?)
    ensures ShapeAt(doc, off) == Some(Primitive(v))
  {
    assert doc.bytes[off + 0] == b[0];
  }

  lemma RawReads(doc: Doc, off: nat, b: seq<byte>, v: Value)
    requires ValidDoc(doc) && 8 <= off && At(doc, off, b) && Encodes(b, v) && (v.Real? || v.Date?)
    ensures ShapeAt(doc, off) == Some(Primitive(v))
  {
    AtTail(doc, off, b, 1);
    TakeTail(doc, off, b, 1);
    assert b[1..] == v.raw;
  }

  lemma ContentsTaken(doc: Doc, off: nat, b: seq<byte>, high: nat, n: nat)
    requires ValidDoc(doc) && 8 <= off && At(doc, off, b) && HasHead(b, high, n) && n <= LONG_MAX && high in {4, 5, 6}
    requires |b| == HeadLength(b) + if high == 6 then 2 * n else n
    ensures doc.bytes[off] / 16 == high && CountedShape(doc, off) == Counted(high, b[HeadLength(b)..])
  {
    HeadCounts(doc, off, b, high, n);
    TakeTail(doc, off, b, HeadLength(b));
  }

  lemma DataReads(doc: Doc, off: nat, b: seq<byte>, raw: seq<byte>)
    requires ValidDoc(doc) && 8 <= off && At(doc, off, b) && |raw| <= LONG_MAX && Encodes(b, Data(raw))
    ensures ShapeAt(doc, off) == Some(Primitive(Data(raw)))
  {
    ContentsTaken(doc, off, b, 4, |raw|);
  }

  lemma AsciiReads(doc: Doc, off: nat, b: seq<byte>, chars: seq<unichar>)
    requires ValidDoc(doc) && 8 <= off && At(doc, off, b) && |chars| <= LONG_MAX
    requires HasHead(b, 0x5, |chars|) && IsAscii(b[HeadLength(b)..], chars)
    ensures ShapeAt(doc, off) == Some(Primitive(Str(chars)))
  {
    ContentsTaken(doc, off, b, 5, |chars|);
    assert Chars(b[HeadLength(b)..]) == chars;
  }

  lemma Utf16Is(b: seq<byte>, chars: seq<unichar>)
    requires IsUtf16(b, chars)
    ensures Utf16(b) == chars
  {
  }

  lemma Utf16Reads(doc: Doc, off: nat, b: seq<byte>, chars: seq<unichar>)
    requires ValidDoc(doc) && 8 <= off && At(doc, off, b) && |chars| <= LONG_MAX
    requires HasHead(b, 0x6, |chars|) && IsUtf16(b[HeadLength(b)..], chars)
    ensures ShapeAt(doc, off) == Some(Primitive(Str(chars)))
  {
    ContentsTaken(doc, off, b, 6, |chars|);
    Utf16Is(b[HeadLength(b)..], chars);
  }

  /** The reader takes every encoding of a primitive that the format has, not only those that the writer chooses. */
  lemma PrimitiveReads(doc: Doc, off: nat, b: seq<byte>, v: Value)
    requires ValidDoc(doc) && 8 <= off && At(doc, off, b) && LeafOk(v) && Encodes(b, v)
    ensures v.Primitive() && ReadBack(v, off).Primitive() && ShapeAt(doc, off) == Some(Primitive(ReadBack(v, off)))
  {
    match v
    case Int(n) => IntReads(doc, off, b, n);
    case WideInt(h, l) => WideReads(doc, off, b, h, l);
    case Uid(u, _) => UidReads(doc, off, b, u);
    case Data(raw) => DataReads(doc, off, b, raw);
    case Str(chars) =>
      if b[0] / 16 == 5 {
        AsciiReads(doc, off, b, chars);
      } else {
        Utf16Reads(doc, off, b, chars);
      }
    case Null => SimpleReads(doc, off, b, v);
    case Bool(_) => SimpleReads(doc, off, b, v);
    case _ => RawReads(doc, off, b, v);
  }

  /** The kinds of containers by the high half of their markers. */
  ghost function KindOf(high: nat): Kind
    requires high in {0xA, 0xC, 0xD}
  {
    if high == 0xA then ArrayKind else if high == 0xC then SetKind else DictKind
  }

  /** Arrays, sets and dictionaries: how many references, and where they lie. */
  lemma ContainerReads(doc: Doc, off: nat, b: seq<byte>, high: nat, n: nat)
    requires ValidDoc(doc) && 8 <= off && At(doc, off, b) && high in {0xA, 0xC, 0xD} && HasHead(b, high, n) &&
             n <= LONG_MAX
    requires var count := if high == 0xD then 2 * n else n;
             count * 8 < TWO64 && |b| == HeadLength(b) + count * doc.t.objectRefSize
    ensures ShapeAt(doc, off)
            == Some(Container(KindOf(high), off + HeadLength(b), if high == 0xD then 2 * n else n))
  {
    HeadCounts(doc, off, b, high, n);
    RowsIsProduct(if high == 0xD then 2 * n else n, doc.t.objectRefSize);
  }

  /** A reference leads to the entry of the table that it numbers, and nowhere if there is none. */
  lemma RefLeads(doc: Doc, ptr: nat, b: seq<byte>)
    requires ValidDoc(doc) && 8 <= ptr && At(doc, ptr, b) && |b| == doc.t.objectRefSize
    ensures var ref := ToNat(b) % 0x1_0000_0000_0000_0000;
            OffsetOfRef(doc, ptr) == if ref < doc.t.numObjects then OffsetAt(doc, ref) else 0xFFFF_FFFF_FFFF_FFFF
  {
    AtSlice(doc, ptr, b);
  }

  lemma {:induction false} WideMarker(e: nat)
    requires e >= 5
    ensures Pow2(e) >= 32
  {
    if e > 5 {
      WideMarker(e - 1);
    } else {
      Pow2Values();
      assert Pow2(5) == 2 * Pow2(4);
    }
  }

  /** Markers that no object of the format has. */
  predicate BadMarker(m: byte) {
    match m / 16
    case 0x0 => m != 0x00 && m != 0x08 && m != 0x09
    case 0x1 => m > 0x14
    case 0x2 => m != 0x22 && m != 0x23
    case 0x3 => m != 0x33
    case 0x7 => true
    case 0x9 => true
    case 0xB => true
    case 0xE => true
    case 0xF => true
    case _ => false
  }

  /** The reader fails on them, and on every offset outside the objects. */
  lemma BadMarkerFails(doc: Doc, off: nat)
    requires ValidDoc(doc) && (off < 8 || doc.t.tableOffset <= off || BadMarker(doc.bytes[off]))
    ensures ShapeAt(doc, off).None?
  {
    if 8 <= off < doc.t.tableOffset && doc.bytes[off] / 16 == 1 {
      WideMarker(doc.bytes[off] % 16);
    }
  }
}
