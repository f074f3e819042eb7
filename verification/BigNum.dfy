/** Signed numbers of five digits to the base of a billion. */
module BigNum {
  import opened BigNumDigits

  /** What a number is worth; the sign is 0 or -1. */
  ghost function Signed(d: seq<nat>, sign: int): int {
    var v: int := Value(d);
    if sign < 0 then -v else v
  }

  function Sign(x: int): int {
    if x < 0 then -1 else if x > 0 then 1 else 0
  }

  class Number {
    const digits: array<nat>
    var sign: int

    ghost predicate Valid()
      reads this
    {
      digits.Length == 5 && (sign == 0 || sign == -1)
    }

    ghost predicate InRange()
      requires Valid()
      reads this, digits
    {
      Canonical(digits[..])
    }

    ghost function Worth(): int
      requires Valid()
      reads this, digits
    {
      Signed(digits[..], sign)
    }

    constructor ()
      ensures Valid() && fresh(digits) && InRange() && sign == 0 && digits[..] == [0, 0, 0, 0, 0]
    {
      digits := new nat[5](_ => 0);
      sign := 0;
    }
  }

  // ----- Comparing -----

  method AbsoluteLessThan(a: Number, b: Number) returns (less: bool)
    requires a.Valid() && b.Valid() && a.InRange() && b.InRange()
    ensures less == (Value(a.digits[..]) < Value(b.digits[..]))
  {
    ghost var s, t := a.digits[..], b.digits[..];
    var i := 5;
    while i > 0
      invariant 0 <= i <= 5 && s[i..] == t[i..]
    {
      i := i - 1;
      assert s[i..] == [s[i]] + s[i + 1..] && t[i..] == [t[i]] + t[i + 1..];
      if a.digits[i] < b.digits[i] {
        HighestDecides(s, t, i);
        return true;
      }
      if a.digits[i] > b.digits[i] {
        HighestDecides(t, s, i);
        return false;
      }
    }
    assert s == s[0..] && t == t[0..];
    return false;
  }

  /** The order of magnitudes. */
  method CompareDigits(a: Number, b: Number) returns (order: int)
    requires a.Valid() && b.Valid() && a.InRange() && b.InRange()
    ensures order == Sign(Value(a.digits[..]) - Value(b.digits[..]))
  {
    ghost var s, t := a.digits[..], b.digits[..];
    var i := 5;
    while i > 0
      invariant 0 <= i <= 5 && s[i..] == t[i..]
    {
      i := i - 1;
      assert s[i..] == [s[i]] + s[i + 1..] && t[i..] == [t[i]] + t[i + 1..];
      if a.digits[i] < b.digits[i] {
        HighestDecides(s, t, i);
        return -1;
      }
      if a.digits[i] > b.digits[i] {
        HighestDecides(t, s, i);
        return 1;
      }
    }
    assert s == s[0..] && t == t[0..];
    return 0;
  }

  /** Both are zero, with different signs. */
  ghost predicate TwoZeros(a: Number, b: Number)
    requires a.Valid() && b.Valid()
    reads a, a.digits, b, b.digits
  {
    a.sign != b.sign && Value(a.digits[..]) == 0 && Value(b.digits[..]) == 0
  }

  /** The order of the integers exactly if these are not two zeros with different signs. */
  method Compare(a: Number, b: Number) returns (order: int)
    requires a.Valid() && b.Valid() && a.InRange() && b.InRange()
    ensures order == -1 || order == 0 || order == 1
    ensures (order < 0 <==> a.Worth() < b.Worth()) && (order > 0 <==> a.Worth() > b.Worth()) <==> !TwoZeros(a, b)
    ensures order == 0 <==> a.sign == b.sign && a.digits[..] == b.digits[..]
    ensures TwoZeros(a, b) ==> (order < 0 <==> a.sign < b.sign)
  {
    if a.sign == b.sign {
      order := CompareDigits(a, b);
      if order == 0 {
        ValueInjective(a.digits[..], b.digits[..]);
      }
      if a.sign < 0 {
        order := -order;
      }
    } else {
      order := if a.sign < b.sign then -1 else 1;
    }
  }

  /** Zero and negative zero have the same value, and compare as different. */
  method ZerosDiffer() returns (zero: Number, negative: Number, order: int)
    ensures zero.Valid() && negative.Valid() && zero.Worth() == negative.Worth() == 0 && order == -1
  {
    zero := new Number();
    negative := new Number();
    negative.sign := -1;
    ZeroValue(zero.digits[..]);
    ZeroValue(negative.digits[..]);
    order := Compare(negative, zero);
  }

  // ----- Arithmetic -----

  /** The sign changes unless the number is zero. */
  method Neg(r: Number, a: Number)
    requires r.Valid() && a.Valid()
    modifies r, r.digits
    ensures r.Valid() && r.digits[..] == old(a.digits[..]) && r.Worth() == -old(a.Worth())
    ensures Value(r.digits[..]) == 0 ==> r.sign == old(a.sign)
  {
    ghost var d := a.digits[..];
    var sign, aIsZero, i := a.sign, true, 0;
    while i < 5 && aIsZero
      invariant 0 <= i <= 5 && aIsZero == forall j | 0 <= j < i :: d[j] == 0
    {
      if a.digits[i] != 0 {
        aIsZero := false;
      }
      i := i + 1;
    }
    ZeroValue(d);
    forall j | 0 <= j < 5 {
      r.digits[j] := a.digits[j];
    }
    assert r.digits[..] == d;
    r.sign := if aIsZero then sign else sign * sign - 1;
  }

  /** After `i` digits: those that are done, and what the rest will give. */
  ghost predicate Adding(a: seq<nat>, b: seq<nat>, r: seq<nat>, carry: nat, i: nat) {
    && |a| == |b| == |r| && i <= |a|
    && var rest := AddDigits(a[i..], b[i..], carry);
       AddDigits(a, b, 0) == Digits(r[..i] + rest.digits, rest.carry)
  }

  lemma AddingNext(a: seq<nat>, b: seq<nat>, r: seq<nat>, carry: nat, i: nat)
    requires i < |a| && Adding(a, b, r, carry, i)
    ensures var (d, c) := AddOne(a[i], b[i], carry);
            Adding(a, b, r[i := d], c, i + 1)
  {
    var (d, c) := AddOne(a[i], b[i], carry);
    assert a[i..][1..] == a[i + 1..] && b[i..][1..] == b[i + 1..];
    var rest := AddDigits(a[i + 1..], b[i + 1..], c);
    assert r[i := d][..i + 1] == r[..i] + [d];
    assert r[..i] + ([d] + rest.digits) == r[..i] + [d] + rest.digits;
  }

  /** Adds the digits of two numbers; the result may be one of them. */
  method AddMagnitudes(r: Number, a: Number, b: Number) returns (carry: nat)
    requires r.Valid() && a.Valid() && b.Valid()
    modifies r.digits
    ensures Digits(r.digits[..], carry) == AddDigits(old(a.digits[..]), old(b.digits[..]), 0)
  {
    ghost var s, t := a.digits[..], b.digits[..];
    carry := 0;
    assert s[0..] == s && t[0..] == t;
    ghost var whole := AddDigits(s, t, 0);
    assert r.digits[..][..0] + whole.digits == whole.digits;
    var i := 0;
    while i < 5
      invariant 0 <= i <= 5 && Adding(s, t, r.digits[..], carry, i)
      invariant forall j | i <= j < 5 :: a.digits[j] == s[j] && b.digits[j] == t[j]
    {
      AddingNext(s, t, r.digits[..], carry, i);
      var (d, c) := AddOne(a.digits[i], b.digits[i], carry);
      ghost var before := r.digits[..];
      r.digits[i] := d;
      assert r.digits[..] == before[i := d];
      carry := c;
      i := i + 1;
    }
    assert r.digits[..][..5] == r.digits[..];
    assert r.digits[..] + [] == r.digits[..];
  }

  ghost predicate Subtracting(a: seq<nat>, b: seq<nat>, r: seq<nat>, borrow: nat, i: nat)
    requires |a| == |b| && Canonical(a) && Canonical(b)
  {
    && |a| == |r| && i <= |a| && borrow <= 1
    && var rest := SubDigits(a[i..], b[i..], borrow);
       SubDigits(a, b, 0) == Digits(r[..i] + rest.digits, rest.carry)
  }

  lemma SubtractingNext(a: seq<nat>, b: seq<nat>, r: seq<nat>, borrow: nat, i: nat)
    requires |a| == |b| && Canonical(a) && Canonical(b) && i < |a| && Subtracting(a, b, r, borrow, i)
    ensures var (d, c) := SubOne(a[i], b[i], borrow);
            Subtracting(a, b, r[i := d], c, i + 1)
  {
    var (d, c) := SubOne(a[i], b[i], borrow);
    assert a[i..][1..] == a[i + 1..] && b[i..][1..] == b[i + 1..];
    var rest := SubDigits(a[i + 1..], b[i + 1..], c);
    assert r[i := d][..i + 1] == r[..i] + [d];
    assert r[..i] + ([d] + rest.digits) == r[..i] + [d] + rest.digits;
  }

  method SubMagnitudes(r: Number, a: Number, b: Number) returns (borrow: nat)
    requires r.Valid() && a.Valid() && b.Valid() && a.InRange() && b.InRange()
    modifies r.digits
    ensures Digits(r.digits[..], borrow) == SubDigits(old(a.digits[..]), old(b.digits[..]), 0)
  {
    ghost var s, t := a.digits[..], b.digits[..];
    borrow := 0;
    assert s[0..] == s && t[0..] == t;
    ghost var whole := SubDigits(s, t, 0);
    assert r.digits[..][..0] + whole.digits == whole.digits;
    var i := 0;
    while i < 5
      invariant 0 <= i <= 5 && Subtracting(s, t, r.digits[..], borrow, i)
      invariant forall j | i <= j < 5 :: a.digits[j] == s[j] && b.digits[j] == t[j]
    {
      SubtractingNext(s, t, r.digits[..], borrow, i);
      var (d, c) := SubOne(a.digits[i], b.digits[i], borrow);
      ghost var before := r.digits[..];
      r.digits[i] := d;
      assert r.digits[..] == before[i := d];
      borrow := c;
      i := i + 1;
    }
    assert r.digits[..][..5] == r.digits[..];
    assert r.digits[..] + [] == r.digits[..];
  }

  /** A carry counts with the sign of the result. */
  ghost function SignedCarry(carry: nat, sign: int): int {
    var c: int := Carried(carry, 5);
    if sign < 0 then -c else c
  }

  /** Exact, with the carry counted; the result may be one of the numbers that are added. */
  method Add(r: Number, a: Number, b: Number) returns (carry: nat)
    requires r.Valid() && a.Valid() && b.Valid() && a.InRange() && b.InRange()
    modifies r, r.digits
    ensures r.Valid() && r.Worth() + SignedCarry(carry, r.sign) == old(a.Worth()) + old(b.Worth())
    ensures carry <= 1 && (old(a.sign) != old(b.sign) ==> carry == 0 && r.InRange())
    ensures old(a.sign) == old(b.sign) ==> r.digits[..] == AddDigits(old(a.digits[..]), old(b.digits[..]), 0).digits
    ensures r.sign == if old(Value(a.digits[..]) < Value(b.digits[..])) then old(b.sign) else old(a.sign)
  {
    ghost var s, t := a.digits[..], b.digits[..];
    if a.sign == b.sign {
      AddDigitsValue(s, t, 0);
      carry := AddMagnitudes(r, a, b);
      r.sign := a.sign;
    } else {
      var less := AbsoluteLessThan(a, b);
      if less {
        SubNoBorrow(t, s);
        carry := SubMagnitudes(r, b, a);
        r.sign := if b.sign < 0 then -1 else 0;
      } else {
        SubNoBorrow(s, t);
        carry := SubMagnitudes(r, a, b);
        r.sign := if a.sign < 0 then -1 else 0;
      }
    }
  }

  method Sub(r: Number, a: Number, b: Number) returns (carry: nat)
    requires r.Valid() && a.Valid() && b.Valid() && a.InRange() && b.InRange()
    modifies r, r.digits
    ensures r.Valid() && carry <= 1 && r.Worth() + SignedCarry(carry, r.sign) == old(a.Worth()) - old(b.Worth())
  {
    var nb := new Number();
    Neg(nb, b);
    carry := Add(r, a, nb);
  }

  // ----- Where digits leave their range -----

  /** No digit sum, with the carry that reaches it, is exactly a billion. */
  ghost predicate NoBillion(a: seq<nat>, b: seq<nat>, carry: nat)
    requires |a| == |b|
  {
    a == [] || (a[0] + b[0] + carry != LIMIT && NoBillion(a[1..], b[1..], AddOne(a[0], b[0], carry).1))
  }

  /** That is exactly when a sum of numbers with digits in range has its digits in range. */
  lemma {:induction false} SumInRangeIff(a: seq<nat>, b: seq<nat>, carry: nat)
    requires |a| == |b| && Canonical(a) && Canonical(b) && carry <= 1
    ensures Canonical(AddDigits(a, b, carry).digits) <==> NoBillion(a, b, carry)
  {
    if a != [] {
      var (d, c) := AddOne(a[0], b[0], carry);
      SumInRangeIff(a[1..], b[1..], c);
      var r, rest := AddDigits(a, b, carry).digits, AddDigits(a[1..], b[1..], c).digits;
      assert r[0] == d && forall i | 0 <= i < |rest| :: r[i + 1] == rest[i];
      assert Canonical(r) ==> Canonical(rest);
    }
  }

  /** 999999999 + 1 keeps a digit of a billion instead of carrying; the value is the same. */
  lemma BillionKept()
    ensures AddDigits([999_999_999, 0, 0, 0, 0], [1, 0, 0, 0, 0], 0) == Digits([1_000_000_000, 0, 0, 0, 0], 0)
    ensures Value([1_000_000_000, 0, 0, 0, 0]) == Value([0, 1, 0, 0, 0])
  {
    var z: seq<nat> := [0, 0, 0, 0];
    assert [999_999_999, 0, 0, 0, 0][1..] == z && [1, 0, 0, 0, 0][1..] == z && [1_000_000_000, 0, 0, 0, 0][1..] == z;
    assert z[1..] == [0, 0, 0] && z[1..][1..] == [0, 0] && z[1..][1..][1..] == [0] && z[1..][1..][1..][1..] == [];
    assert AddDigits(z[1..][1..], z[1..][1..], 0) == Digits([0, 0], 0);
    assert AddDigits(z, z, 0) == Digits([0, 0, 0, 0], 0);
    ZeroValue(z);
    var one: seq<nat> := [1, 0, 0, 0];
    assert [0, 1, 0, 0, 0][1..] == one && one[1..] == [0, 0, 0];
    ZeroValue([0, 0, 0]);
  }
}
