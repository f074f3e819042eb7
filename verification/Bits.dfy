/** Bits of a bucket, numbered from 0 on the left, and counting them. */
module Bits {

  type Bucket = bv8

  /** Bit `k` of a bucket. */
  predicate Bit(b: Bucket, k: nat)
    decreases k
  {
    if k == 0 then b & 0x80 != 0 else Bit(b << 1, k - 1)
  }

  /** Which bit of the byte that is. */
  lemma BitMasks(b: Bucket)
    ensures (Bit(b, 0) <==> b & 0x80 != 0) && (Bit(b, 1) <==> b & 0x40 != 0)
    ensures (Bit(b, 2) <==> b & 0x20 != 0) && (Bit(b, 3) <==> b & 0x10 != 0)
    ensures (Bit(b, 4) <==> b & 0x08 != 0) && (Bit(b, 5) <==> b & 0x04 != 0)
    ensures (Bit(b, 6) <==> b & 0x02 != 0) && (Bit(b, 7) <==> b & 0x01 != 0)
  {
    var c := (b << 1) << 1;
    assert Bit(b, 1) == Bit(b << 1, 0) && Bit(b, 2) == Bit(c, 0) && Bit(b, 3) == Bit(c, 1) &&
           Bit(c, 1) == Bit(c << 1, 0);
    var d := (c << 1) << 1;
    Unfold4(b);
    assert Bit(b, 4) == Bit(d, 0) && Bit(b, 5) == Bit(d, 1) && Bit(b, 6) == Bit(d, 2) && Bit(b, 7) == Bit(d, 3);
    var e := (d << 1) << 1;
    assert Bit(d, 1) == Bit(d << 1, 0) && Bit(d, 2) == Bit(e, 0) && Bit(d, 3) == Bit(e, 1) &&
           Bit(e, 1) == Bit(e << 1, 0);
  }

  // ----- Shifting -----

  function ShiftLeft(b: Bucket, n: nat): Bucket {
    if n == 0 then b else ShiftLeft(b, n - 1) << 1
  }

  function ShiftRight(b: Bucket, n: nat): Bucket {
    if n == 0 then b else ShiftRight(b, n - 1) >> 1
  }

  lemma ShiftOnce(b: Bucket, k: nat)
    requires k < 8
    ensures Bit(b << 1, k) == (k < 7 && Bit(b, k + 1))
    ensures Bit(b >> 1, k) == (k > 0 && Bit(b, k - 1))
  {
    if k == 7 {
      EightShifts(b);
    }
    if k == 0 {
      assert (b >> 1) & 0x80 == 0;
    } else {
      assert (b >> 1) << 1 == b & 0xFE;
      AndAt(b, 0xFE, k - 1);
      AllButLast(k - 1);
    }
  }

  /** Nothing is left after eight shifts. */
  lemma EightShifts(b: Bucket)
    ensures !Bit(b, 8)
  {
    assert ((((((((b << 1) << 1) << 1) << 1) << 1) << 1) << 1) << 1) == 0;
    Unfold4(b);
    Unfold4((((b << 1) << 1) << 1) << 1);
  }

  lemma Unfold4(b: Bucket)
    ensures forall k | k >= 4 :: Bit(b, k) == Bit((((b << 1) << 1) << 1) << 1, k - 4)
  {
    forall k | k >= 4 ensures Bit(b, k) == Bit((((b << 1) << 1) << 1) << 1, k - 4) {
      var c := (b << 1) << 1;
      assert Bit(b, k) == Bit(b << 1, k - 1) == Bit(c, k - 2);
      assert Bit(c, k - 2) == Bit(c << 1, k - 3) == Bit((c << 1) << 1, k - 4);
    }
  }

  lemma AndTop(a: Bucket, b: Bucket)
    ensures (a & b) & 0x80 != 0 <==> a & 0x80 != 0 && b & 0x80 != 0
  {
  }

  lemma AndShift(a: Bucket, b: Bucket)
    ensures (a & b) << 1 == (a << 1) & (b << 1)
  {
  }

  lemma {:induction false} AndAt(a: Bucket, b: Bucket, k: nat)
    ensures Bit(a & b, k) == (Bit(a, k) && Bit(b, k))
    decreases k
  {
    if k > 0 {
      AndShift(a, b);
      AndAt(a << 1, b << 1, k - 1);
    } else {
      AndTop(a, b);
    }
  }

  lemma XorTop(a: Bucket, b: Bucket)
    ensures (a ^ b) & 0x80 != 0 <==> (a & 0x80 != 0) != (b & 0x80 != 0)
  {
  }

  lemma XorShift(a: Bucket, b: Bucket)
    ensures (a ^ b) << 1 == (a << 1) ^ (b << 1)
  {
  }

  lemma {:induction false} XorAt(a: Bucket, b: Bucket, k: nat)
    ensures Bit(a ^ b, k) == (Bit(a, k) != Bit(b, k))
    decreases k
  {
    if k > 0 {
      XorShift(a, b);
      XorAt(a << 1, b << 1, k - 1);
    } else {
      XorTop(a, b);
    }
  }

  lemma {:induction false} NoneAt(k: nat)
    ensures !Bit(0, k)
  {
    if k > 0 {
      NoneAt(k - 1);
    }
  }

  lemma AllAt(k: nat)
    requires k < 8
    ensures Bit(0xFF, k)
  {
    assert Bit(0xFF, 0) && Bit(0xFE, 0) && Bit(0xFC, 0) && Bit(0xF8, 0) && Bit(0xF0, 0) && Bit(0xE0, 0) &&
           Bit(0xC0, 0) && Bit(0x80, 0);
    assert Bit(0xE0, 2) && Bit(0xE0, 1) && Bit(0xC0, 1);
    assert Bit(0xF8, 4) && Bit(0xF8, 3) && Bit(0xF8, 2) && Bit(0xF8, 1);
    assert Bit(0xFE, 6) && Bit(0xFE, 5) && Bit(0xFE, 4) && Bit(0xFE, 3) && Bit(0xFE, 2) && Bit(0xFE, 1);
    assert Bit(0xFF, k) by {
      if k > 0 {
        assert 0xFF as Bucket << 1 == 0xFE;
      }
    }
  }

  lemma AllButLast(k: nat)
    requires k < 7
    ensures Bit(0xFE, k)
  {
    AllAt(k + 1);
  }

  lemma {:induction false} ShiftLeftBit(b: Bucket, n: nat, k: nat)
    requires k < 8
    ensures Bit(ShiftLeft(b, n), k) == (k + n < 8 && Bit(b, k + n))
  {
    if n > 0 {
      ShiftOnce(ShiftLeft(b, n - 1), k);
      if k < 7 {
        ShiftLeftBit(b, n - 1, k + 1);
      }
    }
  }

  lemma {:induction false} ShiftRightBit(b: Bucket, n: nat, k: nat)
    requires k < 8
    ensures Bit(ShiftRight(b, n), k) == (n <= k && Bit(b, k - n))
  {
    if n > 0 {
      ShiftOnce(ShiftRight(b, n - 1), k);
      if k > 0 {
        ShiftRightBit(b, n - 1, k - 1);
      }
    }
  }

  /** The bits from `bottom` to `top`. */
  function Mask(bottom: nat, top: nat): Bucket
    requires bottom <= top < 8
  {
    ShiftRight(ShiftLeft(0xFF, 7 - top + bottom), bottom)
  }

  lemma MaskBits(bottom: nat, top: nat, k: nat)
    requires bottom <= top < 8 && k < 8
    ensures Bit(Mask(bottom, top), k) == (bottom <= k <= top)
  {
    ShiftRightBit(ShiftLeft(0xFF, 7 - top + bottom), bottom, k);
    if bottom <= k {
      ShiftLeftBit(0xFF, 7 - top + bottom, k - bottom);
      if k <= top {
        AllAt(7 - top + k);
      }
    }
  }

  /** Reading a bit by shifting it to the right end. */
  lemma ReadBit(b: Bucket, k: nat)
    requires k < 8
    ensures ShiftRight(b, 7 - k) & 1 != 0 <==> Bit(b, k)
  {
    ShiftRightBit(b, 7 - k, 7);
  }

  lemma NotAt(a: Bucket, k: nat)
    requires k < 8
    ensures Bit(!a, k) == !Bit(a, k)
  {
    assert !a == 0xFF ^ a;
    XorAt(0xFF, a, k);
    AllAt(k);
  }

  /** The new value on the bits of a mask, the old one elsewhere. */
  function Merge(was: Bucket, now: Bucket, mask: Bucket): Bucket {
    (was & !mask) | (now & mask)
  }

  lemma MergeTop(was: Bucket, now: Bucket, mask: Bucket)
    ensures Merge(was, now, mask) & 0x80 != 0 <==> if mask & 0x80 != 0 then now & 0x80 != 0 else was & 0x80 != 0
  {
  }

  lemma MergeShift(was: Bucket, now: Bucket, mask: Bucket)
    ensures Merge(was, now, mask) << 1 == Merge(was << 1, now << 1, mask << 1)
  {
  }

  lemma {:induction false} MergeAt(was: Bucket, now: Bucket, mask: Bucket, k: nat)
    ensures Bit(Merge(was, now, mask), k) == if Bit(mask, k) then Bit(now, k) else Bit(was, k)
    decreases k
  {
    if k > 0 {
      MergeShift(was, now, mask);
      MergeAt(was << 1, now << 1, mask << 1, k - 1);
    } else {
      MergeTop(was, now, mask);
    }
  }

  // ----- Counting -----

  /** How many bits each number below 16 has. */
  function NibbleCount(n: Bucket): nat {
    if n == 0 then 0
    else if n == 1 || n == 2 || n == 4 || n == 8 then 1
    else if n == 7 || n == 11 || n == 13 || n == 14 then 3
    else if n == 15 then 4
    else 2
  }

  function One(p: bool): nat { if p then 1 else 0 }

  /** Bits that are set among the first `n`. */
  ghost function Ones(b: Bucket, n: nat): nat
    requires n <= 8
  {
    if n == 0 then 0 else Ones(b, n - 1) + One(Bit(b, n - 1))
  }

  lemma LowNibble(b: Bucket)
    ensures NibbleCount(b & 0xF) == One(Bit(b, 4)) + One(Bit(b, 5)) + One(Bit(b, 6)) + One(Bit(b, 7))
  {
    var n := b & 0xF;
    assert Bit(b, 4) <==> n & 8 != 0;
    assert Bit(b, 5) <==> n & 4 != 0;
    assert Bit(b, 6) <==> n & 2 != 0;
    assert Bit(b, 7) <==> n & 1 != 0;
  }

  lemma HighNibble(b: Bucket)
    ensures NibbleCount((b >> 4) & 0xF) == One(Bit(b, 0)) + One(Bit(b, 1)) + One(Bit(b, 2)) + One(Bit(b, 3))
  {
    LowNibble(b >> 4);
    assert Bit(b >> 4, 4) == Bit(b, 0);
    assert Bit(b >> 4, 5) == Bit(b, 1);
    assert Bit(b >> 4, 6) == Bit(b, 2);
    assert Bit(b >> 4, 7) == Bit(b, 3);
  }

  lemma AllOnes(b: Bucket)
    ensures Ones(b, 8) == NibbleCount(b & 0xF) + NibbleCount((b >> 4) & 0xF)
  {
    LowNibble(b);
    HighNibble(b);
    assert Ones(b, 0) == 0;
    assert Ones(b, 1) == Ones(b, 0) + One(Bit(b, 0));
    assert Ones(b, 2) == Ones(b, 1) + One(Bit(b, 1));
    assert Ones(b, 3) == Ones(b, 2) + One(Bit(b, 2));
    assert Ones(b, 4) == Ones(b, 3) + One(Bit(b, 3));
    assert Ones(b, 5) == Ones(b, 4) + One(Bit(b, 4));
    assert Ones(b, 6) == Ones(b, 5) + One(Bit(b, 5));
    assert Ones(b, 7) == Ones(b, 6) + One(Bit(b, 6));
  }
}
