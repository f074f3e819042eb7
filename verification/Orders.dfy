/** Values compared through a caller's comparator, and the powers of two that capacities are made of. */
module Orders {
  import opened Bytes

  /** A pointer; 0 is NULL. */
  type Item = nat

  type Compare = (Item, Item) -> int

  predicate Before(cmp: Compare, a: Item, b: Item) {
    cmp(a, b) < 0
  }

  /** What a comparator has to be: a total preorder. */
  ghost predicate TotalPreorder(cmp: Compare) {
    && (forall a, b :: Before(cmp, a, b) ==> !Before(cmp, b, a))
    && (forall a, b, c :: !Before(cmp, b, a) && !Before(cmp, c, b) ==> !Before(cmp, c, a))
  }

  ghost predicate Sorted(cmp: Compare, s: seq<Item>) {
    forall i, j | 0 <= i < j < |s| :: !Before(cmp, s[j], s[i])
  }

  /** Two values exchanged. */
  function Swapped(s: seq<Item>, i: nat, j: nat): seq<Item>
    requires i < |s| && j < |s|
  {
    s[i := s[j]][j := s[i]]
  }

  lemma SwappedCounts(s: seq<Item>, i: nat, j: nat)
    requires i < |s| && j < |s|
    ensures multiset(Swapped(s, i, j)) == multiset(s)
  {
  }

  /** The place of the highest bit that is set, from 1; 0 for 0. */
  function Fls(n: nat): nat {
    if n == 0 then 0 else 1 + Fls(n / 2)
  }

  lemma {:induction false} FlsBounds(n: nat)
    ensures n < Pow2(Fls(n))
    ensures n > 0 ==> Fls(n) > 0 && Pow2(Fls(n) - 1) <= n
  {
    if n > 1 {
      FlsBounds(n / 2);
      assert Fls(n) == 1 + Fls(n / 2);
    } else if n == 1 {
      assert Fls(1) == 1 + Fls(0);
      assert Pow2(1) == 2 * Pow2(0);
    }
  }

  lemma {:induction false} Pow2Grows(i: nat, j: nat)
    requires i <= j
    ensures Pow2(i) <= Pow2(j)
    decreases j
  {
    if i < j {
      Pow2Grows(i, j - 1);
    }
  }

  /** A smaller number has its highest bit no higher. */
  lemma FlsBelow(n: nat, k: nat)
    requires n < Pow2(k)
    ensures Fls(n) <= k
  {
    FlsBounds(n);
    forall j | k <= j ensures n < Pow2(j) {
      Pow2Grows(k, j);
    }
  }

  /** Shifts of an int are good up to here. */
  const MAX_CAPACITY := 0x4000_0000

  function RoundUpCapacity(capacity: nat): nat {
    if capacity < 4 then 4 else Pow2(Fls(capacity))
  }

  /** There is always more room than asked for, and never more than twice as much (but at least 4). */
  lemma RoundUpBounds(capacity: nat)
    requires capacity < MAX_CAPACITY
    ensures capacity < RoundUpCapacity(capacity) <= MAX_CAPACITY
    ensures 4 <= capacity ==> RoundUpCapacity(capacity) <= 2 * capacity
    ensures exists k: nat :: RoundUpCapacity(capacity) == Pow2(k)
  {
    assert Pow2(2) == 4;
    if 4 <= capacity {
      FlsBounds(capacity);
      assert Pow2(Fls(capacity)) == 2 * Pow2(Fls(capacity) - 1);
      MaxIsPow2();
      FlsBelow(capacity, 30);
      Pow2Grows(Fls(capacity), 30);
    }
  }

  lemma MaxIsPow2()
    ensures Pow2(30) == MAX_CAPACITY
  {
    assert Pow2(10) == 1024;
    assert Pow2(20) == 1024 * 1024 by {
      assert Pow2(15) == 32 * Pow2(10);
      assert Pow2(20) == 32 * Pow2(15);
    }
    assert Pow2(25) == 32 * Pow2(20);
    assert Pow2(30) == 32 * Pow2(25);
  }
}
