/** Numbers as digits to the base of a billion, the lowest first. */
module BigNumDigits {

  const LIMIT := 1_000_000_000

  ghost function Value(d: seq<nat>): nat {
    if d == [] then 0 else d[0] + LIMIT * Value(d[1..])
  }

  ghost function Power(n: nat): (p: nat)
    ensures p > 0
  {
    if n == 0 then 1 else LIMIT * Power(n - 1)
  }

  ghost predicate Canonical(d: seq<nat>) {
    forall i | 0 <= i < |d| :: d[i] < LIMIT
  }

  ghost function Carried(carry: nat, n: nat): nat {
    if carry == 0 then 0 else Power(n)
  }

  datatype Digits = Digits(digits: seq<nat>, carry: nat)

  function AddOne(x: nat, y: nat, carry: nat): (nat, nat) {
    var s := x + y + carry;
    if s > LIMIT then (s - LIMIT, 1) else (s, 0)
  }

  /** Adding digit by digit. A digit sum of exactly a billion is not carried. */
  ghost function AddDigits(a: seq<nat>, b: seq<nat>, carry: nat): (r: Digits)
    requires |a| == |b|
    ensures |r.digits| == |a|
  {
    if a == [] then Digits([], carry)
    else
      var (d, c) := AddOne(a[0], b[0], carry);
      var rest := AddDigits(a[1..], b[1..], c);
      Digits([d] + rest.digits, rest.carry)
  }

  lemma {:induction false} AddDigitsValue(a: seq<nat>, b: seq<nat>, carry: nat)
    requires |a| == |b| && carry <= 1
    ensures var r := AddDigits(a, b, carry);
            r.carry <= 1 && Value(r.digits) + Carried(r.carry, |a|) == Value(a) + Value(b) + carry
  {
    if a != [] {
      var (d, c) := AddOne(a[0], b[0], carry);
      AddDigitsValue(a[1..], b[1..], c);
      var r, rest := AddDigits(a, b, carry), AddDigits(a[1..], b[1..], c);
      assert r.digits[1..] == rest.digits;
    }
  }

  function SubOne(x: nat, y: nat, borrow: nat): (nat, nat)
    requires y + borrow <= LIMIT + x
  {
    if x - y - borrow < 0 then (x - y - borrow + LIMIT, 1) else (x - y - borrow, 0)
  }

  ghost function SubDigits(a: seq<nat>, b: seq<nat>, borrow: nat): (r: Digits)
    requires |a| == |b| && Canonical(a) && Canonical(b) && borrow <= 1
    ensures |r.digits| == |a| && Canonical(r.digits)
  {
    if a == [] then Digits([], borrow)
    else
      var (d, c) := SubOne(a[0], b[0], borrow);
      var rest := SubDigits(a[1..], b[1..], c);
      Digits([d] + rest.digits, rest.carry)
  }

  lemma {:induction false} SubDigitsValue(a: seq<nat>, b: seq<nat>, borrow: nat)
    requires |a| == |b| && Canonical(a) && Canonical(b) && borrow <= 1
    ensures var r := SubDigits(a, b, borrow);
            r.carry <= 1 && Value(r.digits) == Value(a) - Value(b) - borrow + Carried(r.carry, |a|)
  {
    if a != [] {
      var (d, c) := SubOne(a[0], b[0], borrow);
      SubDigitsValue(a[1..], b[1..], c);
      var r, rest := SubDigits(a, b, borrow), SubDigits(a[1..], b[1..], c);
      assert r.digits[1..] == rest.digits;
    }
  }

  lemma {:induction false} ValueBound(d: seq<nat>)
    requires Canonical(d)
    ensures Value(d) < Power(|d|)
  {
    if d != [] {
      ValueBound(d[1..]);
    }
  }

  /** Taking a smaller number from a larger one leaves no borrow. */
  lemma SubNoBorrow(a: seq<nat>, b: seq<nat>)
    requires |a| == |b| && Canonical(a) && Canonical(b) && Value(b) <= Value(a)
    ensures SubDigits(a, b, 0).carry == 0 && Value(SubDigits(a, b, 0).digits) == Value(a) - Value(b)
  {
    SubDigitsValue(a, b, 0);
    ValueBound(SubDigits(a, b, 0).digits);
  }

  // ----- Order -----

  /** The highest digit that differs decides. */
  lemma {:induction false} HighestDecides(a: seq<nat>, b: seq<nat>, i: nat)
    requires |a| == |b| && Canonical(a) && Canonical(b) && i < |a| && a[i] < b[i] && a[i + 1..] == b[i + 1..]
    ensures Value(a) < Value(b)
  {
    if i == 0 {
      assert a[1..] == b[1..];
    } else {
      var c, d := a[1..], b[1..];
      assert c[i..] == a[i + 1..] && d[i..] == b[i + 1..];
      HighestDecides(c, d, i - 1);
    }
  }

  /** Canonical digits are determined by their value. */
  lemma {:induction false} ValueInjective(a: seq<nat>, b: seq<nat>)
    requires |a| == |b| && Canonical(a) && Canonical(b) && Value(a) == Value(b)
    ensures a == b
  {
    if a != [] {
      assert a[0] == b[0] && Value(a[1..]) == Value(b[1..]);
      ValueInjective(a[1..], b[1..]);
      assert a == [a[0]] + a[1..] && b == [b[0]] + b[1..];
    }
  }

  lemma {:induction false} ZeroValue(d: seq<nat>)
    ensures Value(d) == 0 <==> forall i | 0 <= i < |d| :: d[i] == 0
  {
    if d != [] {
      ZeroValue(d[1..]);
      if Value(d) == 0 {
        forall i | 0 <= i < |d| ensures d[i] == 0 {
          if i > 0 {
            assert d[i] == d[1..][i - 1];
          }
        }
      }
    }
  }
}
