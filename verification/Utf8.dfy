/** UTF-8 and UTF-16 as defined by sections 3 and 4 of RFC 3629 and section 2 of RFC 2781. */
module Utf8 {
  import opened Bytes

  /** A code point that is not a surrogate. */
  type Scalar = v: int | 0 <= v <= 0x10FFFF && !(0xD800 <= v <= 0xDFFF)

  predicate IsHigh(c: unichar) { 0xD800 <= c <= 0xDBFF }
  predicate IsLow(c: unichar) { 0xDC00 <= c <= 0xDFFF }

  // ----- One code point in UTF-8 -----

  function Width(v: nat): nat
    requires v <= 0x10FFFF
  {
    if v < 0x80 then 1 else if v < 0x800 then 2 else if v < 0x10000 then 3 else 4
  }

  /** Section 3 of RFC 3629: the bits of the code point, six to a continuation byte. */
  function Encode8(v: nat): (b: seq<byte>)
    requires v <= 0x10FFFF
    ensures |b| == Width(v)
  {
    var p := v / 64;
    var q := p / 64;
    if v < 0x80 then [v]
    else if v < 0x800 then [0xC0 + p, 0x80 + v % 64]
    else if v < 0x10000 then [0xE0 + q, 0x80 + p % 64, 0x80 + v % 64]
    else [0xF0 + q / 64, 0x80 + q % 64, 0x80 + p % 64, 0x80 + v % 64]
  }

  predicate Tail(b: byte) { 0x80 <= b <= 0xBF }

  /** Section 4 of RFC 3629: UTF8-2, UTF8-3 and UTF8-4. */
  predicate Utf8Two(b: byte, c: byte) {
    0xC2 <= b <= 0xDF && Tail(c)
  }

  predicate Utf8Three(b: byte, c: byte, d: byte) {
    || (b == 0xE0 && 0xA0 <= c <= 0xBF && Tail(d))
    || (0xE1 <= b <= 0xEC && Tail(c) && Tail(d))
    || (b == 0xED && 0x80 <= c <= 0x9F && Tail(d))
    || (0xEE <= b <= 0xEF && Tail(c) && Tail(d))
  }

  predicate Utf8Four(b: byte, c: byte, d: byte, e: byte) {
    || (b == 0xF0 && 0x90 <= c <= 0xBF && Tail(d) && Tail(e))
    || (0xF1 <= b <= 0xF3 && Tail(c) && Tail(d) && Tail(e))
    || (b == 0xF4 && 0x80 <= c <= 0x8F && Tail(d) && Tail(e))
  }

  predicate Utf8Char(b: seq<byte>) {
    if |b| == 1 then b[0] <= 0x7F
    else if |b| == 2 then Utf8Two(b[0], b[1])
    else if |b| == 3 then Utf8Three(b[0], b[1], b[2])
    else |b| == 4 && Utf8Four(b[0], b[1], b[2], b[3])
  }

  /** The value of a continuation byte, or of the first byte after its mark. */
  function Bits(b: byte, mark: int): int {
    b as int - mark
  }

  function Decode8(b: seq<byte>): Scalar
    requires Utf8Char(b)
  {
    if |b| == 1 then b[0]
    else if |b| == 2 then Bits(b[0], 0xC0) * 64 + Bits(b[1], 0x80)
    else if |b| == 3 then (Bits(b[0], 0xE0) * 64 + Bits(b[1], 0x80)) * 64 + Bits(b[2], 0x80)
    else ((Bits(b[0], 0xF0) * 64 + Bits(b[1], 0x80)) * 64 + Bits(b[2], 0x80)) * 64 + Bits(b[3], 0x80)
  }

  /** The grammar holds exactly the encodings of code points that are not surrogates. */
  lemma Encode8Inverts(v: Scalar)
    ensures Utf8Char(Encode8(v)) && Decode8(Encode8(v)) == v
  {
  }

  lemma SixBits(a: nat, c: nat)
    requires c < 64
    ensures (a * 64 + c) / 64 == a && (a * 64 + c) % 64 == c
  {
  }

  lemma Decode8Inverts(b: seq<byte>)
    requires Utf8Char(b)
    ensures Encode8(Decode8(b)) == b
  {
    if |b| == 2 {
      SixBits(Bits(b[0], 0xC0), Bits(b[1], 0x80));
    } else if |b| == 3 {
      var p := Bits(b[0], 0xE0) * 64 + Bits(b[1], 0x80);
      SixBits(Bits(b[0], 0xE0), Bits(b[1], 0x80));
      SixBits(p, Bits(b[2], 0x80));
      assert Encode8(Decode8(b)) == [b[0], b[1], b[2]];
    } else if |b| == 4 {
      FourInverts(b);
    }
  }

  lemma FourInverts(b: seq<byte>)
    requires |b| == 4 && Utf8Char(b)
    ensures Encode8(Decode8(b)) == b
  {
    var q := Bits(b[0], 0xF0) * 64 + Bits(b[1], 0x80);
    var p := q * 64 + Bits(b[2], 0x80);
    SixBits(Bits(b[0], 0xF0), Bits(b[1], 0x80));
    SixBits(q, Bits(b[2], 0x80));
    SixBits(p, Bits(b[3], 0x80));
    assert Encode8(Decode8(b)) == [b[0], b[1], b[2], b[3]];
  }

  // ----- One code point in UTF-16 -----

  function Encode16(v: Scalar): seq<unichar> {
    if v < 0x10000 then [v] else [0xD800 + (v - 0x10000) / 0x400, 0xDC00 + (v - 0x10000) % 0x400]
  }

  function Combine(high: unichar, low: unichar): (v: Scalar)
    requires IsHigh(high) && IsLow(low)
    ensures 0x10000 <= v
  {
    (high - 0xD800) * 0x400 + (low - 0xDC00) + 0x10000
  }

  lemma CombineInverts(high: unichar, low: unichar)
    requires IsHigh(high) && IsLow(low)
    ensures Encode16(Combine(high, low)) == [high, low]
  {
  }

  // ----- Texts -----

  function AllUtf8(vs: seq<Scalar>): seq<byte> {
    if vs == [] then [] else Encode8(vs[0]) + AllUtf8(vs[1..])
  }

  function AllUtf16(vs: seq<Scalar>): seq<unichar> {
    if vs == [] then [] else Encode16(vs[0]) + AllUtf16(vs[1..])
  }

  /** UTF8-octets of section 4 of RFC 3629. */
  ghost predicate Utf8String(b: seq<byte>)
    decreases |b|
  {
    b == [] || exists n | 1 <= n <= 4 && n <= |b| :: Utf8Char(b[..n]) && Utf8String(b[n..])
  }

  /** Every string of the grammar encodes some text. */
  lemma {:induction false} Utf8Text(b: seq<byte>) returns (vs: seq<Scalar>)
    requires Utf8String(b)
    ensures b == AllUtf8(vs)
    decreases |b|
  {
    if b == [] {
      return [];
    }
    var head, tail := FirstChar(b);
    var rest := Utf8Text(tail);
    TextStep(head, tail, rest);
    return [Decode8(head)] + rest;
  }

  lemma FirstChar(b: seq<byte>) returns (head: seq<byte>, tail: seq<byte>)
    requires b != [] && Utf8String(b)
    ensures b == head + tail && |tail| < |b| && Utf8Char(head) && Utf8String(tail)
  {
    var n :| 1 <= n <= 4 && n <= |b| && Utf8Char(b[..n]) && Utf8String(b[n..]);
    return b[..n], b[n..];
  }

  lemma TextStep(head: seq<byte>, tail: seq<byte>, rest: seq<Scalar>)
    requires Utf8Char(head) && tail == AllUtf8(rest)
    ensures head + tail == AllUtf8([Decode8(head)] + rest)
  {
    Decode8Inverts(head);
    assert ([Decode8(head)] + rest)[1..] == rest;
  }

  lemma {:induction false} TextUtf8(vs: seq<Scalar>)
    ensures Utf8String(AllUtf8(vs))
  {
    if vs != [] {
      var head, rest := Encode8(vs[0]), AllUtf8(vs[1..]);
      var b := head + rest;
      TextUtf8(vs[1..]);
      Encode8Inverts(vs[0]);
      assert b[..|head|] == head && b[|head|..] == rest;
    }
  }
}
