/** Reading one object of a binary property list: the trailer, the offset table and the object formats. */
module PlistReader {
  import opened Bytes
  import opened Plist
  import opened PlistFormat

  /** What is passed on in place of an offset when a reference is bad. */
  const MAX_OFFSET: nat := TWO64 - 1

  datatype Trailer = Trailer(offsetIntSize: byte, objectRefSize: byte, numObjects: nat, topObject: nat,
                             tableOffset: nat)

  /** A file and the trailer at its end. */
  datatype Doc = Doc(bytes: seq<byte>, t: Trailer)

  function TrailerOf(bytes: seq<byte>): Trailer
    requires |bytes| >= 32
  {
    var t := bytes[|bytes| - 32..];
    Trailer(t[6], t[7], SizedInt(t[8..16]), SizedInt(t[16..24]), SizedInt(t[24..32]))
  }

  /** The arithmetic of a trailer that was accepted: header, objects, table and trailer fill the file. */
  predicate WellSized(doc: Doc) {
    && |doc.bytes| < TWO64
    && 9 <= doc.t.tableOffset <= LONG_MAX
    && 1 <= doc.t.numObjects <= LONG_MAX
    && doc.t.topObject < doc.t.numObjects
    && 1 <= doc.t.offsetIntSize && 1 <= doc.t.objectRefSize
    && |doc.bytes| == doc.t.tableOffset + Rows(doc.t.numObjects, doc.t.offsetIntSize) + 32
  }

  lemma EntryInRange(doc: Doc, i: nat)
    requires WellSized(doc) && i < doc.t.numObjects
    ensures doc.t.tableOffset + Rows(i, doc.t.offsetIntSize) + doc.t.offsetIntSize + 32 <= |doc.bytes|
  {
    RowFits(i, doc.t.numObjects, doc.t.offsetIntSize);
  }

  /** Entry `i` of the offset table. */
  function OffsetAt(doc: Doc, i: nat): nat
    requires WellSized(doc) && i < doc.t.numObjects
  {
    EntryInRange(doc, i);
    var at := doc.t.tableOffset + Rows(i, doc.t.offsetIntSize);
    SizedInt(doc.bytes[at..at + doc.t.offsetIntSize])
  }

  ghost predicate ValidDoc(doc: Doc) {
    && WellSized(doc)
    && (forall i | 0 <= i < doc.t.numObjects :: OffsetAt(doc, i) < doc.t.tableOffset)
  }

  const MAGIC: seq<byte> := [0x62, 0x70, 0x6C, 0x69, 0x73, 0x74, 0x30] // bplist0

  /** A field of `size` bytes can hold `v`. */
  predicate WideEnough(size: byte, v: nat) {
    size < 8 ==> v < Pow256(size)
  }

  /** The header and trailer checks, in the order in which they are made. */
  predicate HeadOk(bytes: seq<byte>) {
    && 32 + 8 + 1 <= |bytes|
    && bytes[..7] == MAGIC
    && var t := TrailerOf(bytes);
    && t.numObjects <= LONG_MAX && t.tableOffset <= LONG_MAX
    && 1 <= t.numObjects && t.topObject < t.numObjects
    && 9 <= t.tableOffset < |bytes| - 32
    && 1 <= t.offsetIntSize && 1 <= t.objectRefSize
    && |bytes| == t.tableOffset + Rows(t.numObjects, t.offsetIntSize) + 32
    && WideEnough(t.objectRefSize, t.numObjects)
    && WideEnough(t.offsetIntSize, t.tableOffset)
  }

  /** Those checks, and that every offset lies before the table and the top one after the header. */
  ghost predicate TopLevelOk(bytes: seq<byte>) {
    && |bytes| < TWO64
    && HeadOk(bytes)
    && var doc := Doc(bytes, TrailerOf(bytes));
    && ValidDoc(doc)
    && 8 <= OffsetAt(doc, doc.t.topObject)
  }

  method CheckHead(bytes: seq<byte>) returns (ok: bool)
    requires |bytes| < TWO64
    ensures ok == HeadOk(bytes)
  {
    if |bytes| < 32 + 8 + 1 { return false; }
    if bytes[..7] != MAGIC { return false; }
    var t := TrailerOf(bytes);
    if LONG_MAX < t.numObjects { return false; }
    if LONG_MAX < t.tableOffset { return false; }
    if t.numObjects < 1 { return false; }
    if t.numObjects <= t.topObject { return false; }
    if t.tableOffset < 9 { return false; }
    if |bytes| - 32 <= t.tableOffset { return false; }
    if t.offsetIntSize < 1 { return false; }
    if t.objectRefSize < 1 { return false; }
    // sums and products that leave 64 bits are rejected
    var offsetTableSize := t.numObjects * t.offsetIntSize;
    RowsIsProduct(t.numObjects, t.offsetIntSize);
    if TWO64 <= offsetTableSize { return false; }
    var objectDataSize := t.tableOffset - 8;
    var sum := 8 + objectDataSize + offsetTableSize + 32;
    if TWO64 <= sum { return false; }
    if |bytes| != sum { return false; }
    if t.objectRefSize < 8 && Pow256(t.objectRefSize) <= t.numObjects { return false; }
    if t.offsetIntSize < 8 && Pow256(t.offsetIntSize) <= t.tableOffset { return false; }
    return true;
  }

  method CheckOffsets(doc: Doc) returns (ok: bool)
    requires WellSized(doc)
    ensures ok == forall i | 0 <= i < doc.t.numObjects :: OffsetAt(doc, i) < doc.t.tableOffset
  {
    var maxOffset := doc.t.tableOffset - 1;
    var idx := 0;
    var ptr := doc.t.tableOffset;
    while idx < doc.t.numObjects
      invariant 0 <= idx <= doc.t.numObjects && ptr == doc.t.tableOffset + Rows(idx, doc.t.offsetIntSize)
      invariant forall i | 0 <= i < idx :: OffsetAt(doc, i) < doc.t.tableOffset
    {
      EntryInRange(doc, idx);
      var off := GetSizedInt(doc.bytes, ptr, doc.t.offsetIntSize);
      assert off == OffsetAt(doc, idx);
      if maxOffset < off {
        return false;
      }
      ptr := ptr + doc.t.offsetIntSize;
      idx := idx + 1;
    }
    return true;
  }

  /** Trailer fields have eight bytes, so none of them is cut. */
  lemma TrailerFields(bytes: seq<byte>)
    requires |bytes| >= 32
    ensures var t, r := TrailerOf(bytes), bytes[|bytes| - 32..];
            && t.offsetIntSize == r[6] && t.objectRefSize == r[7]
            && t.numObjects == ToNat(r[8..16]) && t.topObject == ToNat(r[16..24]) && t.tableOffset == ToNat(r[24..32])
  {
    var r := bytes[|bytes| - 32..];
    SizedIntOfFew(r[8..16]);
    SizedIntOfFew(r[16..24]);
    SizedIntOfFew(r[24..32]);
  }

  lemma HeadMeans(bytes: seq<byte>)
    ensures HeadOk(bytes) <==>
            && 41 <= |bytes| && bytes[..7] == [0x62, 0x70, 0x6C, 0x69, 0x73, 0x74, 0x30]
            && var t := TrailerOf(bytes);
               SizesOk(|bytes|, t.offsetIntSize, t.objectRefSize, t.numObjects, t.topObject, t.tableOffset)
  {
    if 41 <= |bytes| {
      var t := TrailerOf(bytes);
      RowsIsProduct(t.numObjects, t.offsetIntSize);
      assert t.numObjects >= 1 && t.offsetIntSize >= 1 ==> t.numObjects * t.offsetIntSize >= 1;
    }
  }

  lemma EntryMeans(doc: Doc, i: nat, low: nat)
    requires WellSized(doc) && i < doc.t.numObjects
    ensures LeadsBetween(doc.bytes, i, doc.t.offsetIntSize, doc.t.tableOffset, low)
            <==> low <= OffsetAt(doc, i) < doc.t.tableOffset
  {
    var w := doc.t.offsetIntSize;
    EntryInRange(doc, i);
    RowsIsProduct(i, w);
    assert (i + 1) * w == i * w + w;
  }

  /** The reader accepts exactly the files that the format does. */
  lemma TopLevelMeans(bytes: seq<byte>)
    requires |bytes| < TWO64
    ensures TopLevelOk(bytes) <==> Acceptable(bytes)
  {
    HeadMeans(bytes);
    if HeadOk(bytes) {
      TrailerFields(bytes);
      var doc := Doc(bytes, TrailerOf(bytes));
      forall i | 0 <= i < doc.t.numObjects
        ensures LeadsBetween(bytes, i, doc.t.offsetIntSize, doc.t.tableOffset, 0)
                <==> OffsetAt(doc, i) < doc.t.tableOffset
      {
        EntryMeans(doc, i, 0);
      }
      EntryMeans(doc, doc.t.topObject, 8);
    } else if 41 <= |bytes| {
      TrailerFields(bytes);
    }
  }

  method FindTopLevel(bytes: seq<byte>) returns (r: Option<(Doc, nat)>)
    requires |bytes| < TWO64
    ensures r.Some? <==> TopLevelOk(bytes)
    ensures r.Some? ==> r.value.0 == Doc(bytes, TrailerOf(bytes))
    ensures r.Some? ==> r.value.1 == OffsetAt(r.value.0, r.value.0.t.topObject)
  {
    var ok := CheckHead(bytes);
    if !ok { return None; }
    var doc := Doc(bytes, TrailerOf(bytes));
    ok := CheckOffsets(doc);
    if !ok { return None; }
    var top := doc.t.topObject;
    EntryInRange(doc, top);
    RowsIsProduct(top, doc.t.offsetIntSize);
    var off := GetSizedInt(bytes, doc.t.tableOffset + top * doc.t.offsetIntSize, doc.t.offsetIntSize);
    if off < 8 || doc.t.tableOffset <= off { return None; }
    return Some((doc, off));
  }

  /** Checks a file and finds its top object. */
  method GetTopLevelInfo(bytes: seq<byte>) returns (r: Option<(Doc, nat)>)
    requires |bytes| < TWO64
    ensures r.Some? <==> TopLevelOk(bytes)
    ensures r.Some? <==> Acceptable(bytes)
    ensures r.Some? ==> r.value.0 == Doc(bytes, TrailerOf(bytes))
    ensures r.Some? ==> r.value.1 == OffsetAt(r.value.0, r.value.0.t.topObject)
  {
    r := FindTopLevel(bytes);
    TopLevelMeans(bytes);
  }

  // ----- Objects -----

  /** An int object after a marker: its value and where it ends. Sizes are kept in 8 bits. */
  function ReadInt(doc: Doc, ptr: nat): Option<(nat, nat)>
    requires ValidDoc(doc)
  {
    if doc.t.tableOffset - 1 < ptr then None
    else
      var marker := doc.bytes[ptr];
      if marker / 16 != 1 then None
      else
        var cnt := Pow2(marker % 16);
        if doc.t.tableOffset - 1 < ptr + cnt then None
        else Some((SizedInt(doc.bytes[ptr + 1..ptr + 1 + cnt % 256]), ptr + 1 + cnt))
  }

  /** The count of a data, string or container object and where its contents start. */
  function ReadCount(doc: Doc, off: nat): Option<(nat, nat)>
    requires ValidDoc(doc) && off < doc.t.tableOffset
  {
    var n := doc.bytes[off] % 16;
    if n != 15 then Some((n, off + 1))
    else
      match ReadInt(doc, off + 1)
      case None => None
      case Some(r) => if LONG_MAX < r.0 then None else Some(r)
  }

  /** The offset that the reference at `ptr` stands for. */
  function OffsetOfRef(doc: Doc, ptr: nat): nat
    requires ValidDoc(doc)
  {
    if ptr < 8 || doc.t.tableOffset - doc.t.objectRefSize < ptr then MAX_OFFSET
    else
      var ref := SizedInt(doc.bytes[ptr..ptr + doc.t.objectRefSize]);
      if doc.t.numObjects <= ref then MAX_OFFSET else OffsetAt(doc, ref)
  }

  function ReadRefs(doc: Doc, ptr: nat, count: nat): (offs: seq<nat>)
    requires ValidDoc(doc)
    ensures |offs| == count
    decreases count
  {
    if count == 0 then [] else [OffsetOfRef(doc, ptr)] + ReadRefs(doc, ptr + doc.t.objectRefSize, count - 1)
  }

  /** An object without its children: a finished primitive, or where the references of a container lie. */
  datatype Shape = Primitive(value: PrimitiveValue) | Container(kind: Kind, ptr: nat, count: nat)

  function Signed64(bits: nat): int
    requires bits < TWO64
  {
    if bits < 0x8000_0000_0000_0000 then bits else bits - TWO64
  }

  /** `cnt` bytes from `ptr`, when they end before the offset table. */
  function Take(doc: Doc, ptr: nat, cnt: nat): (r: Option<seq<byte>>)
    requires ValidDoc(doc)
    ensures r.Some? ==> |r.value| == cnt
  {
    if doc.t.tableOffset - 1 < ptr + cnt - 1 then None else Some(doc.bytes[ptr..ptr + cnt])
  }

  function Utf16(bytes: seq<byte>): (s: seq<unichar>)
    requires |bytes| % 2 == 0
    ensures |s| == |bytes| / 2
  {
    seq(|bytes| / 2, i requires 0 <= i < |bytes| / 2 => 256 * (bytes[2 * i] as int) + bytes[2 * i + 1])
  }

  /** ASCII decoding takes each byte for a character. */
  function Chars(bytes: seq<byte>): (s: seq<unichar>)
    ensures |s| == |bytes|
  {
    seq(|bytes|, i requires 0 <= i < |bytes| => bytes[i])
  }

  function IntShape(doc: Doc, off: nat): Option<PrimitiveValue>
    requires ValidDoc(doc) && off < doc.t.tableOffset
  {
    var cnt := Pow2(doc.bytes[off] % 16);
    match Take(doc, off + 1, cnt)
    case None => None
    case Some(s) =>
      if 16 < cnt then None
      // only the low 64 bits of a 16-byte integer are kept
      else if 8 < cnt then Some(WideInt(0, SizedInt(s)))
      else Some(Int(Signed64(SizedInt(s))))
  }

  function RealShape(doc: Doc, off: nat): Option<PrimitiveValue>
    requires ValidDoc(doc) && off < doc.t.tableOffset
  {
    var e := doc.bytes[off] % 16;
    if e != 2 && e != 3 then None
    else
      match Take(doc, off + 1, if e == 2 then 4 else 8)
      case None => None
      case Some(s) => Some(Real(s))
  }

  function DateShape(doc: Doc, off: nat): Option<PrimitiveValue>
    requires ValidDoc(doc) && off < doc.t.tableOffset
  {
    if doc.bytes[off] != 0x33 then None
    else
      match Take(doc, off + 1, 8)
      case None => None
      case Some(s) => Some(Date(s))
  }

  function UidShape(doc: Doc, off: nat): Option<PrimitiveValue>
    requires ValidDoc(doc) && off < doc.t.tableOffset
  {
    match Take(doc, off + 1, doc.bytes[off] % 16 + 1)
    case None => None
    case Some(s) => if 0xFFFF_FFFF < SizedInt(s) then None else Some(Uid(SizedInt(s), Object(off)))
  }

  function SimpleShape(doc: Doc, off: nat): Option<PrimitiveValue>
    requires ValidDoc(doc) && off < doc.t.tableOffset
  {
    match doc.bytes[off]
    case 0x00 => Some(Null)
    case 0x08 => Some(Bool(false))
    case 0x09 => Some(Bool(true))
    case _ => None
  }

  /** Data, or a string of one or of two bytes a character. */
  function Counted(high: nat, s: seq<byte>): Option<PrimitiveValue>
    requires high == 6 ==> |s| % 2 == 0
  {
    if high == 4 then Some(Data(s))
    else if high == 5 then Some(Str(Chars(s)))
    else if high == 6 then Some(Str(Utf16(s)))
    else None
  }

  function CountedShape(doc: Doc, off: nat): Option<PrimitiveValue>
    requires ValidDoc(doc) && off < doc.t.tableOffset
  {
    match ReadCount(doc, off)
    case None => None
    case Some((n, ptr)) =>
      match Take(doc, ptr, if doc.bytes[off] / 16 == 6 then 2 * n else n)
      case None => None
      case Some(s) => Counted(doc.bytes[off] / 16, s)
  }

  function ContainerShape(doc: Doc, off: nat): Option<Shape>
    requires ValidDoc(doc) && off < doc.t.tableOffset
  {
    var high := doc.bytes[off] / 16;
    match ReadCount(doc, off)
    case None => None
    case Some((n, ptr)) =>
      var count := if high == 13 then 2 * n else n;
      // the references end before the offset table, and pointers to the elements fit memory
      if doc.t.tableOffset - 1 < ptr + Rows(count, doc.t.objectRefSize) - 1 then None
      else if TWO64 <= count * 8 then None
      else Some(Container(if high == 10 then ArrayKind else if high == 12 then SetKind else DictKind, ptr, count))
  }

  function Leafy(v: Option<PrimitiveValue>): Option<Shape> {
    match v case None => None case Some(p) => Some(Primitive(p))
  }

  /** The object at `off`, by its marker. */
  function ShapeAt(doc: Doc, off: nat): Option<Shape>
    requires ValidDoc(doc)
  {
    if off < 8 || doc.t.tableOffset - 1 < off then None
    else
      match doc.bytes[off] / 16
      case 0 => Leafy(SimpleShape(doc, off))
      case 1 => Leafy(IntShape(doc, off))
      case 2 => Leafy(RealShape(doc, off))
      case 3 => Leafy(DateShape(doc, off))
      case 4 => Leafy(CountedShape(doc, off))
      case 5 => Leafy(CountedShape(doc, off))
      case 6 => Leafy(CountedShape(doc, off))
      case 8 => Leafy(UidShape(doc, off))
      case 10 => ContainerShape(doc, off)
      case 12 => ContainerShape(doc, off)
      case 13 => ContainerShape(doc, off)
      case _ => None
  }

  /** What is read lies in front of the offset table, and every key of a dictionary has a value. */
  lemma ShapeInside(doc: Doc, off: nat)
    requires ValidDoc(doc) && ShapeAt(doc, off).Some?
    ensures off < doc.t.tableOffset
    ensures ShapeAt(doc, off).value.Container? && ShapeAt(doc, off).value.kind == DictKind
            ==> ShapeAt(doc, off).value.count % 2 == 0
  {
  }
}
