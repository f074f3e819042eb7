/** What the conversions give, character by character and byte by byte. */
module Utf8Meaning {
  import opened Bytes
  import opened Utf8
  import opened Utf8Spec

  // ----- Order -----

  /** The sequences differ first at `k`, where the first one has less. */
  ghost predicate LessAt(a: seq<int>, b: seq<int>, k: nat) {
    k < |a| && k < |b| && a[..k] == b[..k] && a[k] < b[k]
  }

  lemma Digits64(v: nat, w: nat)
    requires v < w
    ensures v / 64 < w / 64 || (v / 64 == w / 64 && v % 64 < w % 64)
  {
  }

  /** The first byte tells how many there are. */
  lemma FirstByte(v: Scalar)
    ensures var b := Encode8(v);
            |b| == if b[0] < 0x80 then 1 else if b[0] < 0xE0 then 2 else if b[0] < 0xF0 then 3 else 4
    ensures |Encode8(v)| == if v < 0x80 then 1 else if v < 0x800 then 2 else if v < 0x10000 then 3 else 4
  {
  }

  /** Two digits in base 64, behind what is the same. */
  lemma LastDigit(a: seq<int>, b: seq<int>, n: nat)
    requires n < |a| && n < |b| && a[..n] == b[..n]
    ensures a[n] < b[n] ==> LessAt(a, b, n)
    ensures a[n] == b[n] ==> a[..n + 1] == b[..n + 1]
  {
  }

  lemma TwoOrdered(v: Scalar, w: Scalar) returns (k: nat)
    requires 0x80 <= v < w < 0x800
    ensures LessAt(Encode8(v), Encode8(w), k)
  {
    Digits64(v, w);
    k := if v / 64 < w / 64 then 0 else 1;
    LastDigit(Encode8(v), Encode8(w), 0);
    if k == 1 {
      LastDigit(Encode8(v), Encode8(w), 1);
    }
  }

  lemma ThreeOrdered(v: Scalar, w: Scalar, p: nat, q: nat) returns (k: nat)
    requires 0x800 <= v < w < 0x10000 && p == v / 64 && q == w / 64
    ensures LessAt(Encode8(v), Encode8(w), k)
  {
    var a, b := Encode8(v), Encode8(w);
    assert a == [0xE0 + p / 64, 0x80 + p % 64, 0x80 + v % 64] && b == [0xE0 + q / 64, 0x80 + q % 64, 0x80 + w % 64];
    Digits64(v, w);
    if p < q {
      Digits64(p, q);
    }
    k := if p / 64 < q / 64 then 0 else if p < q then 1 else 2;
    LastDigit(a, b, 0);
    if k >= 1 {
      LastDigit(a, b, 1);
    }
    if k == 2 {
      LastDigit(a, b, 2);
    }
  }

  /** Four bytes that differ first at one of them. */
  lemma FourthDigit(a: seq<int>, b: seq<int>, k: nat)
    requires |a| == |b| == 4 && k < 4 && a[k] < b[k] && forall i | 0 <= i < k :: a[i] == b[i]
    ensures LessAt(a, b, k)
  {
  }

  lemma FourBytes(v: Scalar, p: nat, m: nat)
    requires 0x10000 <= v && p == v / 64 && m == p / 64
    ensures Encode8(v) == [0xF0 + m / 64, 0x80 + m % 64, 0x80 + p % 64, 0x80 + v % 64]
  {
  }

  lemma FourOrdered(v: Scalar, w: Scalar, p: nat, q: nat, m: nat, n: nat) returns (k: nat)
    requires 0x10000 <= v < w && p == v / 64 && q == w / 64 && m == p / 64 && n == q / 64
    ensures LessAt(Encode8(v), Encode8(w), k)
  {
    FourBytes(v, p, m);
    FourBytes(w, q, n);
    Digits64(v, w);
    if p < q {
      Digits64(p, q);
      if m < n {
        Digits64(m, n);
      }
    }
    k := if m / 64 < n / 64 then 0 else if m < n then 1 else if p < q then 2 else 3;
    FourthDigit(Encode8(v), Encode8(w), k);
  }

  /** Section 1 of RFC 3629: sorting by bytes is sorting by code points. */
  lemma Utf8Ordered(v: Scalar, w: Scalar) returns (k: nat)
    requires v < w
    ensures LessAt(Encode8(v), Encode8(w), k)
  {
    FirstByte(v);
    FirstByte(w);
    if w < 0x80 || |Encode8(v)| < |Encode8(w)| {
      LastDigit(Encode8(v), Encode8(w), 0);
      return 0;
    } else if w < 0x800 {
      k := TwoOrdered(v, w);
    } else if w < 0x10000 {
      k := ThreeOrdered(v, w, v / 64, w / 64);
    } else {
      k := FourOrdered(v, w, v / 64, w / 64, v / 64 / 64, w / 64 / 64);
    }
  }

  /** Pairs sort as the characters that they stand for, and the other characters are themselves. */
  lemma Utf16Ordered(v: Scalar, w: Scalar) returns (k: nat)
    requires v < w
    ensures w < 0x10000 ==> Encode16(v) == [v] && Encode16(w) == [w]
    ensures v < 0x10000 <= w ==> |Encode16(v)| == 1 && |Encode16(w)| == 2
    ensures 0x10000 <= v ==>
              && |Encode16(v)| == 2 && 0xD800 <= Encode16(v)[0] < 0xDC00 <= Encode16(v)[1] < 0xE000
              && LessAt(Encode16(v), Encode16(w), k)
  {
    k := if v >= 0x10000 && Encode16(v)[0] == Encode16(w)[0] then 1 else 0;
    if k == 1 {
      assert Encode16(v)[..1] == Encode16(w)[..1];
    }
  }

  // ----- Encoding without a limit -----

  /** A surrogate without a partner stops a strict conversion; otherwise it becomes the three bytes of its number. */
  lemma SurrogateEncoded(s: seq<unichar>)
    requires s != [] && 0xD800 <= s[0] <= 0xDFFF && !(s[0] <= 0xDBFF && |s| > 1 && 0xDC00 <= s[1] <= 0xDFFF)
    ensures Encode(true, s, -1) == Coded(0, [])
    ensures var rest := Encode(false, s[1..], -1);
            Encode(false, s, -1) == Coded(1 + rest.consumed, [0xED, 0x80 + s[0] / 64 % 64, 0x80 + s[0] % 64] + rest.out)
  {
    EncodeUnlimited(false, s);
    assert s[0] / 64 / 64 == 13;
  }

  // ----- Decoding without a limit -----

  /** The first byte announces more bytes than there are. */
  ghost predicate CutShort(b: seq<byte>)
    requires b != []
  {
    || (0xC0 <= b[0] <= 0xDF && |b| < 2) || (0xE0 <= b[0] <= 0xEF && |b| < 3) || (0xF0 <= b[0] <= 0xF7 && |b| < 4)
    || (0xF8 <= b[0] <= 0xFB && |b| < 5) || (0xFC <= b[0] && |b| < 6)
  }

  /** No sequence of the grammar begins the bytes. */
  ghost predicate NoneBegins(b: seq<byte>) {
    forall n | 1 <= n <= |b| :: !Utf8Char(b[..n])
  }

  /** A character of the grammar gives its units, whatever follows. */
  lemma CharDecoded(lossy: bool, v: Scalar, more: seq<byte>)
    ensures var rest := Decode(lossy, more, -1);
            Decode(lossy, Encode8(v) + more, -1) == Coded(|Encode8(v)| + rest.consumed, Encode16(v) + rest.out)
  {
    NextOfEncoded(lossy, v, more);
  }

  /** A byte 0xA9 that begins no character gives U+FFFD, and so does any such byte if loss is allowed. */
  lemma LoneReplaced(lossy: bool, b: seq<byte>)
    requires b != [] && !CutShort(b) && NoneBegins(b) && (lossy || b[0] == 0xA9)
    ensures var rest := Decode(lossy, b[1..], -1);
            Decode(lossy, b, -1) == Coded(1 + rest.consumed, [0xFFFD] + rest.out)
  {
    assert NextSequence(lossy, b) == Lone;
  }

  /** Decoding stops at any other byte that begins no character, and where the bytes end too soon. */
  lemma NothingDecoded(lossy: bool, b: seq<byte>)
    requires b == [] || CutShort(b) || (NoneBegins(b) && !lossy && b[0] != 0xA9)
    ensures Decode(lossy, b, -1) == Coded(0, [])
  {
  }

  lemma Copyright()
    ensures Decode(false, [0xA9], -1) == Coded(1, [0xFFFD])
  {
    var b: seq<byte> := [0xA9];
    forall n | 1 <= n <= |b| ensures !Utf8Char(b[..n]) {
      assert b[..n] == b;
    }
    LoneReplaced(false, b);
    assert b[1..] == [];
  }

  // ----- Decoding with a limit -----

  lemma {:induction false} RunFills(next: Reader, b: seq<byte>, room: nat)
    requires room > 0
    ensures var all, d := Run(next, b, -1), Run(next, b, room);
            && |d.out| <= |all.out| && d.out == all.out[..|d.out|]
            && |d.out| == if |all.out| <= room then |all.out| else if Straddles(all.out, room) then room - 1 else room
    decreases |b|
  {
    if Reads(next, b) {
      var n, u := Size(next(b)), Units(next(b));
      var tail := Run(next, b[n..], -1).out;
      if |u| <= room {
        StraddlesBehind(u, tail, room);
        if |u| < room {
          RunFills(next, b[n..], room - |u|);
        }
      }
    }
  }

  /** A buffer is filled with the first units of all, and has one left only if a pair would not fit. */
  lemma DecodeFills(lossy: bool, b: seq<byte>, room: nat)
    requires room > 0
    ensures var all, d := Decode(lossy, b, -1), Decode(lossy, b, room);
            && |d.out| <= |all.out| && d.out == all.out[..|d.out|]
            && |d.out| == if |all.out| <= room then |all.out| else if CutsPair(lossy, b, room) then room - 1 else room
  {
    RunFills(Sequences(lossy), b, room);
    CutsPairIff(lossy, b, room);
  }
}
