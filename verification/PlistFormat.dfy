/** The binary property list format, byte by byte: what the bytes of each object and of a whole file are. */
module PlistFormat {
  import opened Bytes
  import opened Plist

  // ----- Numbers -----

  /** The widths that numbers are written in. */
  const WIDTHS: set<nat> := {1, 2, 4, 8}

  /** `n` bytes hold `v`, and no smaller width does. */
  ghost predicate LeastWidth(n: nat, v: nat) {
    n in WIDTHS && v < Pow256(n) && forall k | k in WIDTHS && k < n :: Pow256(k) <= v
  }

  /** An int object: a marker with the base-2 logarithm of the width, and a big-endian number. */
  ghost predicate IsInt(b: seq<byte>, v: nat) {
    |b| > 1 && 0x10 <= b[0] <= 0x13 && |b| == 1 + Pow2(b[0] - 0x10) && ToNat(b[1..]) == v
  }

  /** As the writer writes it. */
  ghost predicate IsLeastInt(b: seq<byte>, v: nat) {
    IsInt(b, v) && LeastWidth(|b| - 1, v)
  }

  /** A UID object: a marker with one less than the width, and a big-endian number. */
  ghost predicate IsUid(b: seq<byte>, v: nat) {
    1 < |b| <= 17 && b[0] == 0x80 + (|b| - 2) && ToNat(b[1..]) == v
  }

  /** The number that 64 bits stand for in two's complement. */
  ghost predicate IsTwosComplement(bits: nat, n: int) {
    if n >= 0 then bits == n < 0x8000_0000_0000_0000 else bits == n + 0x1_0000_0000_0000_0000 >= 0x8000_0000_0000_0000
  }

  // ----- Counted objects -----

  /** How long the marker is, with the int object for the count if there is one. */
  ghost function HeadLength(b: seq<byte>): nat
    requires b != []
  {
    if b[0] % 16 != 15 || |b| == 1 then 1 else 2 + Pow2(b[1] % 16)
  }

  /** A marker with a count: in its low half below 15, in an int object behind it otherwise. */
  ghost predicate HasHead(b: seq<byte>, high: nat, n: nat) {
    && b != [] && b[0] / 16 == high && HeadLength(b) <= |b|
    && if b[0] % 16 != 15 then b[0] % 16 == n else |b| > 1 && IsInt(b[1..HeadLength(b)], n)
  }

  /** As the writer writes it. */
  ghost predicate HasLeastHead(b: seq<byte>, high: nat, n: nat) {
    && HasHead(b, high, n)
    && (n < 15 <==> b[0] % 16 != 15) && (15 <= n ==> LeastWidth(HeadLength(b) - 2, n))
  }

  // ----- Primitives -----

  /** One byte a character. */
  ghost predicate IsAscii(b: seq<byte>, chars: seq<unichar>) {
    |b| == |chars| && forall i | 0 <= i < |chars| :: b[i] == chars[i]
  }

  /** Two bytes a character, the high one first. */
  ghost predicate IsUtf16(b: seq<byte>, chars: seq<unichar>) {
    |b| == 2 * |chars| && forall i | 0 <= i < |chars| :: 256 * (b[2 * i] as int) + b[2 * i + 1] == chars[i]
  }

  /** The bytes are an object of the format that stands for the primitive. */
  ghost predicate Encodes(b: seq<byte>, v: Value) {
    match v
    case Null => b == [0x00]
    case Bool(x) => b == [if x then 0x09 else 0x08]
    case Int(n) => |b| > 1 && IsInt(b, ToNat(b[1..])) && IsTwosComplement(ToNat(b[1..]), n)
    case WideInt(h, l) => |b| == 17 && b[0] == 0x14 && IsTwosComplement(ToNat(b[1..9]), h) && ToNat(b[9..17]) == l
    case Real(raw) => (|raw| == 4 && b == [0x22] + raw) || (|raw| == 8 && b == [0x23] + raw)
    case Date(raw) => |raw| == 8 && b == [0x33] + raw
    case Data(raw) => HasHead(b, 0x4, |raw|) && b[HeadLength(b)..] == raw
    case Str(chars) =>
      || (HasHead(b, 0x5, |chars|) && IsAscii(b[HeadLength(b)..], chars))
      || (HasHead(b, 0x6, |chars|) && IsUtf16(b[HeadLength(b)..], chars))
    case Uid(u, _) => IsUid(b, u)
    case _ => false
  }

  /** Of the encodings of a primitive, the one that the writer chooses: least widths, and ASCII if it can be. */
  ghost predicate Concise(b: seq<byte>, v: Value) {
    match v
    case Int(_) => |b| > 1 && LeastWidth(|b| - 1, ToNat(b[1..]))
    case Data(raw) => HasLeastHead(b, 0x4, |raw|)
    case Str(chars) =>
      if forall i | 0 <= i < |chars| :: chars[i] < 0x80 then HasLeastHead(b, 0x5, |chars|)
      else HasLeastHead(b, 0x6, |chars|)
    case Uid(u, _) => |b| > 1 && LeastWidth(|b| - 1, u)
    case _ => true
  }

  // ----- Containers -----

  /** Behind the head lie references of `w` bytes each, the numbers of the children. */
  ghost predicate HoldsRefs(b: seq<byte>, refs: seq<nat>, w: nat) {
    |b| == |refs| * w && forall i | 0 <= i < |refs| :: IsRef(b, i, refs[i], w)
  }

  ghost predicate IsRef(b: seq<byte>, i: nat, ref: nat, w: nat) {
    (i + 1) * w <= |b| && i * w <= (i + 1) * w && ToNat(b[i * w..(i + 1) * w]) == ref
  }

  /** An array of `n` references, or a dictionary of `n` keys and as many values. */
  ghost predicate IsContainer(b: seq<byte>, high: nat, n: nat, refs: seq<nat>, w: nat) {
    && HasLeastHead(b, high, n) && HoldsRefs(b[HeadLength(b)..], refs, w)
    && |refs| == if high == 0xD then 2 * n else n
  }

  // ----- Files -----

  /** bplist00 */
  const SIGNATURE: seq<byte> := [0x62, 0x70, 0x6C, 0x69, 0x73, 0x74, 0x30, 0x30]

  /** The objects lie one behind the other from byte 8 up to the table. */
  ghost predicate IsBody(b: seq<byte>, parts: seq<seq<byte>>, starts: seq<nat>, table: nat) {
    && 0 < |parts| == |starts| && starts[0] == 8 && table <= |b|
    && forall i | 0 <= i < |parts| :: IsPart(b, parts[i], starts[i], EndOf(starts, i, table))
  }

  /** An object ends where the next one or the table begins. */
  ghost function EndOf(starts: seq<nat>, i: nat, table: nat): nat {
    if i + 1 < |starts| then starts[i + 1] else table
  }

  ghost predicate IsPart(b: seq<byte>, part: seq<byte>, start: nat, end: nat) {
    start + |part| == end <= |b| && b[start..end] == part
  }

  /** The table has the start of each object in `w` bytes. */
  ghost predicate IsTable(b: seq<byte>, starts: seq<nat>, table: nat, w: nat) {
    table + |starts| * w <= |b| && forall i | 0 <= i < |starts| :: IsRef(b[table..], i, starts[i], w)
  }

  /** The last 32 bytes: six zeros, the two widths, how many objects, the top object and where the table lies. */
  ghost predicate IsTrailer(t: seq<byte>, offsetSize: nat, refSize: nat, count: nat, table: nat) {
    && |t| == 32 && (forall i | 0 <= i < 6 :: t[i] == 0) && t[6] == offsetSize && t[7] == refSize
    && ToNat(t[8..16]) == count && ToNat(t[16..24]) == 0 && ToNat(t[24..32]) == table
  }

  /** A whole file as the writer writes it. */
  ghost predicate IsFile(b: seq<byte>, parts: seq<seq<byte>>, starts: seq<nat>, table: nat, offsetSize: nat,
                         refSize: nat) {
    && 40 <= |b| && b[..8] == SIGNATURE
    && IsBody(b, parts, starts, table) && IsTable(b, starts, table, offsetSize)
    && |b| == table + |starts| * offsetSize + 32 && IsTrailer(b[|b| - 32..], offsetSize, refSize, |parts|, table)
    && LeastWidth(offsetSize, table) && LeastWidth(refSize, |parts|)
  }

  /** The sizes of a file whose trailer has these fields. */
  ghost predicate SizesOk(size: nat, offsetSize: nat, refSize: nat, count: nat, top: nat, table: nat) {
    && 1 <= count <= 0x7FFF_FFFF_FFFF_FFFF && top < count && 9 <= table <= 0x7FFF_FFFF_FFFF_FFFF
    && 1 <= offsetSize && 1 <= refSize && size == table + count * offsetSize + 32
    && (refSize < 8 ==> count < Pow256(refSize)) && (offsetSize < 8 ==> table < Pow256(offsetSize))
  }

  /** The entries of the table lead to places in front of it, and that of the top object behind the signature. */
  ghost predicate OffsetsOk(b: seq<byte>, offsetSize: nat, count: nat, top: nat, table: nat) {
    && (forall i | 0 <= i < count :: LeadsBetween(b, i, offsetSize, table, 0))
    && LeadsBetween(b, top, offsetSize, table, 8)
  }

  /** Entry `i`, of which the low 64 bits count, lies from `low` on and in front of the table. */
  ghost predicate LeadsBetween(b: seq<byte>, i: nat, w: nat, table: nat, low: nat) {
    && table + i * w <= table + (i + 1) * w <= |b|
    && low <= ToNat(b[table + i * w..table + (i + 1) * w]) % 0x1_0000_0000_0000_0000 < table
  }

  /** What the reader accepts: the signature up to its last byte, and a trailer and a table that fit the file. */
  ghost predicate Acceptable(b: seq<byte>) {
    && 41 <= |b| && b[..7] == [0x62, 0x70, 0x6C, 0x69, 0x73, 0x74, 0x30]
    && var t := b[|b| - 32..];
    && SizesOk(|b|, t[6], t[7], ToNat(t[8..16]), ToNat(t[16..24]), ToNat(t[24..32]))
    && OffsetsOk(b, t[6], ToNat(t[8..16]), ToNat(t[16..24]), ToNat(t[24..32]))
  }
}
