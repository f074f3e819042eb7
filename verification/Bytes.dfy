/** Bytes and the big-endian integers that the binary property list format is made of. */
module Bytes {

  type byte = b: int | 0 <= b < 256

  /** A UTF-16 code unit. */
  type unichar = c: int | 0 <= c < 0x1_0000

  const TWO64: nat := 0x1_0000_0000_0000_0000
  const LONG_MAX: nat := 0x7FFF_FFFF_FFFF_FFFF

  function Pow2(n: nat): (r: nat)
    ensures r > 0
  {
    if n == 0 then 1 else 2 * Pow2(n - 1)
  }

  function Pow256(n: nat): (r: nat)
    ensures r > 0
  {
    if n == 0 then 1 else 256 * Pow256(n - 1)
  }

  /** The size of `n` rows of `w` bytes. */
  function Rows(n: nat, w: nat): nat {
    if n == 0 then 0 else Rows(n - 1, w) + w
  }

  lemma {:induction false} RowsIsProduct(n: nat, w: nat)
    ensures Rows(n, w) == n * w
  {
    if n > 0 {
      RowsIsProduct(n - 1, w);
      assert n * w == (n - 1) * w + w;
    }
  }

  lemma {:induction false} RowFits(i: nat, n: nat, w: nat)
    requires i < n
    ensures Rows(i, w) + w <= Rows(n, w)
  {
    if i < n - 1 {
      RowFits(i, n - 1, w);
    }
  }

  lemma {:induction false} RowsWider(n: nat, w: nat, w': nat)
    requires w <= w'
    ensures Rows(n, w) <= Rows(n, w')
  {
    if n > 0 {
      RowsWider(n - 1, w, w');
    }
  }

  /** The low `n` bytes of `v`, most significant first. */
  function BigEndian(v: nat, n: nat): (s: seq<byte>)
    ensures |s| == n
  {
    if n == 0 then [] else BigEndian(v / 256, n - 1) + [v % 256]
  }

  /** The unsigned value of a big-endian byte string of any length. */
  function ToNat(s: seq<byte>): nat
  {
    if s == [] then 0 else ToNat(s[..|s| - 1]) * 256 + s[|s| - 1]
  }

  /** What a reader that keeps 64 bits sees of a byte string. */
  function SizedInt(s: seq<byte>): nat
  {
    ToNat(s) % TWO64
  }

  lemma {:induction false} BigEndianRoundTrip(v: nat, n: nat)
    requires v < Pow256(n)
    ensures ToNat(BigEndian(v, n)) == v
  {
    if n > 0 {
      BigEndianRoundTrip(v / 256, n - 1);
      assert BigEndian(v, n)[..n - 1] == BigEndian(v / 256, n - 1);
    }
  }

  lemma {:induction false} Pow256Monotone(m: nat, n: nat)
    requires m <= n
    ensures Pow256(m) <= Pow256(n)
    decreases n - m
  {
    if m < n {
      Pow256Monotone(m, n - 1);
    }
  }

  lemma Pow256Values()
    ensures Pow256(1) == 0x100 && Pow256(2) == 0x1_0000
    ensures Pow256(4) == 0x1_0000_0000 && Pow256(8) == TWO64
  {
    assert Pow256(3) == 256 * Pow256(2);
    assert Pow256(5) == 256 * Pow256(4);
    assert Pow256(6) == 256 * Pow256(5);
    assert Pow256(7) == 256 * Pow256(6);
  }

  lemma Pow2Values()
    ensures Pow2(0) == 1 && Pow2(1) == 2 && Pow2(2) == 4 && Pow2(3) == 8 && Pow2(4) == 16
  {
    assert Pow2(3) == 2 * Pow2(2);
    assert Pow2(4) == 2 * Pow2(3);
  }

  /** The reader recovers every 64-bit value from any field wide enough for it. */
  lemma SizedRoundTrip(v: nat, n: nat)
    requires v < Pow256(n) && v < TWO64
    ensures SizedInt(BigEndian(v, n)) == v
  {
    BigEndianRoundTrip(v, n);
  }

  lemma ShiftIn(x: nat, d: nat)
    ensures (x % TWO64 * 256 + d) % TWO64 == (x * 256 + d) % TWO64
  {
    var q := x / TWO64;
    assert x == q * TWO64 + x % TWO64;
    assert x * 256 + d == (x % TWO64 * 256 + d) + (q * 256) * TWO64;
    ModShift(x % TWO64 * 256 + d, q * 256);
  }

  lemma {:induction false} ModShift(a: nat, k: nat)
    ensures (a + k * TWO64) % TWO64 == a % TWO64
  {
    if k > 0 {
      ModShift(a, k - 1);
      assert (a + k * TWO64) == (a + (k - 1) * TWO64) + TWO64;
    }
  }

  lemma ShiftSum(x: nat, p: nat, y: nat, d: nat)
    ensures (x * p + y) * 256 + d == x * (256 * p) + (y * 256 + d)
  {
  }

  lemma {:induction false} ToNatConcat(a: seq<byte>, b: seq<byte>)
    ensures ToNat(a + b) == ToNat(a) * Pow256(|b|) + ToNat(b)
  {
    if b == [] {
      assert a + b == a;
    } else {
      var n := |b| - 1;
      ToNatConcat(a, b[..n]);
      assert (a + b)[..|a + b| - 1] == a + b[..n];
      ShiftSum(ToNat(a), Pow256(n), ToNat(b[..n]), b[n]);
    }
  }

  lemma {:induction false} ToNatBound(s: seq<byte>)
    ensures ToNat(s) < Pow256(|s|)
  {
    if s != [] {
      ToNatBound(s[..|s| - 1]);
    }
  }

  /** What a load on a little-endian machine makes of bytes. */
  function Little(s: seq<byte>): nat {
    if s == [] then 0 else s[0] + 256 * Little(s[1..])
  }

  /** The low `n` bytes of `v` in the opposite order. */
  function SwapBytes(v: nat, n: nat): nat {
    if n == 0 then 0 else (v % 256) * Pow256(n - 1) + SwapBytes(v / 256, n - 1)
  }

  /** Swapping what was loaded gives the big-endian number. */
  lemma {:induction false} SwapLittle(s: seq<byte>)
    ensures SwapBytes(Little(s), |s|) == ToNat(s)
  {
    if s != [] {
      var rest := s[1..];
      SwapLittle(rest);
      assert Little(s) % 256 == s[0] && Little(s) / 256 == Little(rest);
      assert ToNat([s[0]]) == s[0] by {
        assert [s[0]][..0] == [];
      }
      ToNatConcat([s[0]], rest);
      assert [s[0]] + rest == s;
    }
  }

  lemma SizedIntOfFew(s: seq<byte>)
    requires |s| <= 8
    ensures SizedInt(s) == ToNat(s)
  {
    ToNatBound(s);
    Pow256Values();
    Pow256Monotone(|s|, 8);
  }

  /** Swapped loads for 1, 2, 4 and 8 bytes; for every other size the byte loop. */
  method GetSizedInt(data: seq<byte>, ptr: nat, valSize: nat) returns (res: nat)
    requires ptr + valSize <= |data|
    ensures res == SizedInt(data[ptr..ptr + valSize])
  {
    if valSize == 1 || valSize == 2 || valSize == 4 || valSize == 8 {
      var s := data[ptr..ptr + valSize];
      SwapLittle(s);
      SizedIntOfFew(s);
      return SwapBytes(Little(s), valSize);
    }
    res := GetByLoop(data, ptr, valSize);
  }

  /** The byte loop: shifts each byte into a 64-bit accumulator. */
  method GetByLoop(data: seq<byte>, ptr: nat, valSize: nat) returns (res: nat)
    requires ptr + valSize <= |data|
    ensures res == SizedInt(data[ptr..ptr + valSize])
  {
    res := 0;
    var idx := 0;
    while idx < valSize
      invariant 0 <= idx <= valSize
      invariant res == SizedInt(data[ptr..ptr + idx])
    {
      var s := data[ptr..ptr + idx + 1];
      assert s[..|s| - 1] == data[ptr..ptr + idx];
      ShiftIn(ToNat(data[ptr..ptr + idx]), data[ptr + idx]);
      res := (res * 256 + data[ptr + idx]) % TWO64;
      idx := idx + 1;
    }
  }
}
