/** What the reader reads is there: every object that it finds lies in front of the table and is of the format. */
module PlistSound {
  import opened Bytes
  import opened Plist
  import opened PlistFormat
  import opened PlistReader
  import opened PlistObjects
  import opened PlistConforms

  /** Behind a marker, and behind an int object if the marker has one for the count, `n` things begin at `k`. */
  ghost predicate HeadIs(b: seq<byte>, k: nat, n: nat) {
    && 0 < k <= |b|
    && if b[0] % 16 != 15 then k == 1 && n == b[0] % 16
       else
         && 1 < k && b[1] / 16 == 1 && k == 2 + Pow2(b[1] % 16)
         && (b[1] % 16 <= 3 ==> n == ToNat(b[2..k]))
  }

  /** The bytes that a primitive was read from. */
  ghost predicate ReadFrom(b: seq<byte>, off: nat, v: Value, k: nat) {
    match v
    case Null => b == [0x00]
    case Bool(x) => b == [if x then 0x09 else 0x08]
    case Int(_) => Encodes(b, v)
    case WideInt(h, l) => |b| == 17 && b[0] == 0x14 && h == 0 && l == ToNat(b[9..17])
    case Real(_) => Encodes(b, v)
    case Date(_) => Encodes(b, v)
    case Data(raw) => b != [] && b[0] / 16 == 4 && HeadIs(b, k, |raw|) && b[k..] == raw
    case Str(chars) =>
      && b != [] && HeadIs(b, k, |chars|)
      && ((b[0] / 16 == 5 && IsAscii(b[k..], chars)) || (b[0] / 16 == 6 && IsUtf16(b[k..], chars)))
    case Uid(u, at) =>
      && b != [] && b[0] / 16 == 8 && |b| == b[0] % 16 + 2
      && u == ToNat(b[1..]) % 0x1_0000_0000_0000_0000 <= 0xFFFF_FFFF && at == Object(off)
    case _ => false
  }

  ghost predicate InFile(doc: Doc, off: nat, b: seq<byte>) {
    b != [] && off + |b| <= doc.t.tableOffset <= |doc.bytes| && b == doc.bytes[off..off + |b|]
  }

  lemma SimpleFrom(doc: Doc, off: nat) returns (b: seq<byte>)
    requires ValidDoc(doc) && off < doc.t.tableOffset && SimpleShape(doc, off).Some? && doc.bytes[off] / 16 == 0
    ensures InFile(doc, off, b) && ReadFrom(b, off, SimpleShape(doc, off).value, 0)
  {
    b := doc.bytes[off..off + 1];
    assert b == [doc.bytes[off]];
  }

  lemma LowHalf(s: seq<byte>)
    requires |s| == 16
    ensures SizedInt(s) == ToNat(s[8..16])
  {
    assert s == s[..8] + s[8..];
    ToNatConcat8(s[..8], s[8..]);
    Pow256Values();
    ToNatBound(s[8..]);
    LowBits(ToNat(s[8..]), ToNat(s[..8]));
    assert s[8..16] == s[8..];
  }

  lemma IntFrom(doc: Doc, off: nat) returns (b: seq<byte>)
    requires ValidDoc(doc) && off < doc.t.tableOffset && IntShape(doc, off).Some? && doc.bytes[off] / 16 == 1
    ensures InFile(doc, off, b) && ReadFrom(b, off, IntShape(doc, off).value, 0)
  {
    var e := doc.bytes[off] % 16;
    Pow2Values();
    if e >= 5 {
      WideMarker(e);
    }
    b := doc.bytes[off..off + 1 + Pow2(e)];
    var s := doc.bytes[off + 1..off + 1 + Pow2(e)];
    assert b[1..] == s && b[0] == doc.bytes[off];
    if e <= 3 {
      SizedIntOfFew(s);
    } else {
      assert b[9..17] == s[8..16];
      LowHalf(s);
    }
  }

  lemma RawFrom(doc: Doc, off: nat) returns (b: seq<byte>)
    requires ValidDoc(doc) && off < doc.t.tableOffset && doc.bytes[off] / 16 == 2 && RealShape(doc, off).Some?
    ensures InFile(doc, off, b) && ReadFrom(b, off, RealShape(doc, off).value, 0)
  {
    var n := if doc.bytes[off] % 16 == 2 then 4 else 8;
    b := doc.bytes[off..off + 1 + n];
    assert b == [doc.bytes[off]] + doc.bytes[off + 1..off + 1 + n];
  }

  lemma DateFrom(doc: Doc, off: nat) returns (b: seq<byte>)
    requires ValidDoc(doc) && off < doc.t.tableOffset && DateShape(doc, off).Some?
    ensures InFile(doc, off, b) && ReadFrom(b, off, DateShape(doc, off).value, 0)
  {
    b := doc.bytes[off..off + 9];
    assert b == [doc.bytes[off]] + doc.bytes[off + 1..off + 9];
  }

  lemma UidFrom(doc: Doc, off: nat) returns (b: seq<byte>)
    requires ValidDoc(doc) && off < doc.t.tableOffset && doc.bytes[off] / 16 == 8 && UidShape(doc, off).Some?
    ensures InFile(doc, off, b) && ReadFrom(b, off, UidShape(doc, off).value, 0)
  {
    var n := doc.bytes[off] % 16 + 1;
    b := doc.bytes[off..off + 1 + n];
    assert b[1..] == doc.bytes[off + 1..off + 1 + n];
  }

  /** The count and where what is counted begins. */
  lemma HeadFrom(doc: Doc, off: nat, n: nat, ptr: nat, len: nat)
    requires ValidDoc(doc) && off < doc.t.tableOffset && ReadCount(doc, off) == Some((n, ptr))
    requires ptr + len <= doc.t.tableOffset
    ensures off < ptr && HeadIs(doc.bytes[off..ptr + len], ptr - off, n)
    ensures doc.bytes[off..ptr + len][ptr - off..] == doc.bytes[ptr..ptr + len]
  {
    var b := doc.bytes[off..ptr + len];
    if b[0] % 16 == 15 {
      var e := b[1] % 16;
      Pow2Values();
      if e <= 3 {
        var s := doc.bytes[off + 2..ptr];
        SizedIntOfFew(s);
        assert b[2..ptr - off] == s;
      }
    }
  }

  lemma CountedIs(b: seq<byte>, off: nat, k: nat, n: nat, high: nat, v: Value)
    requires HeadIs(b, k, n) && b[0] / 16 == high && high in {4, 5, 6} && |b| == k + (if high == 6 then 2 * n else n)
    requires Counted(high, b[k..]) == Some(v)
    ensures ReadFrom(b, off, v, k)
  {
  }

  lemma CountedFrom(doc: Doc, off: nat) returns (b: seq<byte>, k: nat)
    requires ValidDoc(doc) && off < doc.t.tableOffset && doc.bytes[off] / 16 in {4, 5, 6} &&
             CountedShape(doc, off).Some?
    ensures InFile(doc, off, b) && ReadFrom(b, off, CountedShape(doc, off).value, k)
  {
    var (n, ptr) := ReadCount(doc, off).value;
    var len := if doc.bytes[off] / 16 == 6 then 2 * n else n;
    HeadFrom(doc, off, n, ptr, len);
    b, k := doc.bytes[off..ptr + len], ptr - off;
    CountedIs(b, off, k, n, doc.bytes[off] / 16, CountedShape(doc, off).value);
  }

  /** Whatever the reader takes for a primitive was read from bytes of its format in front of the table. */
  lemma PrimitiveFrom(doc: Doc, off: nat) returns (b: seq<byte>, k: nat)
    requires ValidDoc(doc) && ShapeAt(doc, off).Some? && ShapeAt(doc, off).value.Primitive?
    ensures 8 <= off && InFile(doc, off, b) && ReadFrom(b, off, ShapeAt(doc, off).value.value, k)
  {
    k := 0;
    match doc.bytes[off] / 16
    case 0 => b := SimpleFrom(doc, off);
    case 1 => b := IntFrom(doc, off);
    case 2 => b := RawFrom(doc, off);
    case 3 => b := DateFrom(doc, off);
    case 8 => b := UidFrom(doc, off);
    case _ => b, k := CountedFrom(doc, off);
  }

  /** Whatever the reader takes for a container has a head, and all its references lie in front of the table. */
  lemma ContainerFrom(doc: Doc, off: nat) returns (b: seq<byte>, k: nat, n: nat)
    requires ValidDoc(doc) && ShapeAt(doc, off).Some? && ShapeAt(doc, off).value.Container?
    ensures var c, high := ShapeAt(doc, off).value, doc.bytes[off] / 16;
            && 8 <= off && InFile(doc, off, b) && HeadIs(b, k, n) && high in {0xA, 0xC, 0xD} && c.kind == KindOf(high)
            && c.ptr == off + k && c.count == (if high == 0xD then 2 * n else n)
            && |b| == k + c.count * doc.t.objectRefSize && c.count < 0x2000_0000_0000_0000
  {
    var c := ShapeAt(doc, off).value;
    n := ReadCount(doc, off).value.0;
    RowsIsProduct(c.count, doc.t.objectRefSize);
    HeadFrom(doc, off, n, c.ptr, c.count * doc.t.objectRefSize);
    b, k := doc.bytes[off..c.ptr + c.count * doc.t.objectRefSize], c.ptr - off;
  }
}
