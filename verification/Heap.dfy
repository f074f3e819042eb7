/** The binary heap: an array in which no value is behind its parent's. */
module Heap {
  import opened Orders

  /** What the comparator calls greater. */
  predicate After(cmp: Compare, a: Item, b: Item) {
    cmp(a, b) == 1
  }

  ghost predicate HeapOrder(cmp: Compare) {
    && (forall a, b :: After(cmp, a, b) ==> !After(cmp, b, a))
    && (forall a, b, c :: !After(cmp, a, b) && !After(cmp, b, c) ==> !After(cmp, a, c))
  }

  function Parent(i: nat): (p: nat)
    requires i > 0
    ensures p < i
  {
    (i - 1) / 2
  }

  ghost predicate InOrder(cmp: Compare, s: seq<Item>) {
    forall i | 0 < i < |s| :: !After(cmp, s[Parent(i)], s[i])
  }

  ghost predicate Ascending(cmp: Compare, s: seq<Item>) {
    forall i, j | 0 <= i < j < |s| :: !After(cmp, s[i], s[j])
  }

  /** The first value is a least one. */
  lemma {:induction false} RootIsLeast(cmp: Compare, s: seq<Item>, i: nat)
    requires HeapOrder(cmp) && InOrder(cmp, s) && i < |s|
    ensures !After(cmp, s[0], s[i])
  {
    if i > 0 {
      RootIsLeast(cmp, s, Parent(i));
      assert !After(cmp, s[Parent(i)], s[i]);
    }
  }

  // ----- One value out of place -----

  /** In order but for the link above `idx`; the value above is in order with those below. */
  ghost predicate OrderedBut(cmp: Compare, s: seq<Item>, idx: nat)
    requires idx < |s|
  {
    && (forall i | 0 < i < |s| && i != idx :: !After(cmp, s[Parent(i)], s[i]))
    && (idx > 0 ==> forall i | 0 < i < |s| && Parent(i) == idx :: !After(cmp, s[Parent(idx)], s[i]))
  }

  lemma Rise(cmp: Compare, s: seq<Item>, idx: nat)
    requires HeapOrder(cmp) && 0 < idx < |s| && OrderedBut(cmp, s, idx) && After(cmp, s[Parent(idx)], s[idx])
    ensures OrderedBut(cmp, Swapped(s, idx, Parent(idx)), Parent(idx))
  {
    var p, t := Parent(idx), Swapped(s, idx, Parent(idx));
    forall i | 0 < i < |t| && i != p ensures !After(cmp, t[Parent(i)], t[i]) {
      if i == idx {
      } else if Parent(i) == p {
        assert !After(cmp, s[p], s[i]);
      } else if Parent(i) == idx {
        assert !After(cmp, s[p], s[i]);
      }
    }
    forall i | p > 0 && 0 < i < |t| && Parent(i) == p ensures !After(cmp, t[Parent(p)], t[i]) {
      assert !After(cmp, s[Parent(p)], s[p]);
      if i != idx {
        assert !After(cmp, s[p], s[i]);
      }
    }
  }

  lemma Risen(cmp: Compare, s: seq<Item>, idx: nat)
    requires idx < |s| && OrderedBut(cmp, s, idx) && (idx > 0 ==> !After(cmp, s[Parent(idx)], s[idx]))
    ensures InOrder(cmp, s)
  {
  }

  /** In order but for the links below `idx`; the value above is in order with those below. */
  ghost predicate OrderedAbove(cmp: Compare, s: seq<Item>, idx: nat)
    requires idx < |s|
  {
    && (forall i | 0 < i < |s| && Parent(i) != idx :: !After(cmp, s[Parent(i)], s[i]))
    && (idx > 0 ==> forall i | 0 < i < |s| && Parent(i) == idx :: !After(cmp, s[Parent(idx)], s[i]))
  }

  /** `c` is the child of `idx` that comes first. */
  ghost predicate LeastChild(cmp: Compare, s: seq<Item>, idx: nat, c: nat) {
    && 0 < c < |s| && Parent(c) == idx
    && forall i | 0 < i < |s| && Parent(i) == idx :: !After(cmp, s[c], s[i])
  }

  lemma Fall(cmp: Compare, s: seq<Item>, idx: nat, c: nat)
    requires HeapOrder(cmp) && idx < |s| && OrderedAbove(cmp, s, idx) && LeastChild(cmp, s, idx, c)
    requires !After(cmp, s[c], s[idx])
    ensures OrderedAbove(cmp, Swapped(s, idx, c), c)
  {
    var t := Swapped(s, idx, c);
    forall i | 0 < i < |t| && Parent(i) != c ensures !After(cmp, t[Parent(i)], t[i]) {
      if i == idx {
        assert !After(cmp, s[Parent(idx)], s[c]);
      }
    }
    forall i | 0 < i < |t| && Parent(i) == c ensures !After(cmp, t[Parent(c)], t[i]) {
      assert !After(cmp, s[c], s[i]);
    }
  }

  lemma Fallen(cmp: Compare, s: seq<Item>, idx: nat)
    requires HeapOrder(cmp) && idx < |s| && OrderedAbove(cmp, s, idx)
    requires forall i | 0 < i < |s| && Parent(i) == idx :: !After(cmp, s[idx], s[i])
    ensures InOrder(cmp, s)
  {
  }

  /** The children of `idx` are at twice its place plus 1 and plus 2. */
  lemma Children(idx: nat, i: nat)
    requires i > 0
    ensures Parent(i) == idx <==> i == 2 * idx + 1 || i == 2 * idx + 2
  {
  }

  /** The first `n` buckets hold `t`, if the bucket `hole` is taken to hold `value`. */
  ghost predicate Holds(b: seq<Item>, n: nat, hole: nat, value: Item, t: seq<Item>) {
    hole < n <= |b| && t == b[..n][hole := value]
  }

  /** The hole moves to `to`, and what was there moves into the old hole. */
  lemma HoleMoves(b: seq<Item>, n: nat, hole: nat, to: nat, value: Item, t: seq<Item>)
    requires Holds(b, n, hole, value, t) && to < n && to != hole
    ensures t[to] == b[to] && t[hole] == value
    ensures Holds(b[hole := b[to]], n, to, value, Swapped(t, hole, to))
  {
    var d := b[hole := b[to]];
    assert d[..n][to := value] == Swapped(t, hole, to);
  }

  lemma HoleFilled(b: seq<Item>, n: nat, hole: nat, value: Item, t: seq<Item>)
    requires Holds(b, n, hole, value, t)
    ensures b[hole := value][..n] == t
  {
  }

  /** The last value in the place of the first: only the links below the first are out of order. */
  lemma LastReplacesFirst(cmp: Compare, b: seq<Item>, cnt: nat)
    requires 0 < cnt <= |b| && InOrder(cmp, b[..cnt])
    ensures cnt > 1 ==> OrderedAbove(cmp, b[..cnt - 1][0 := b[cnt - 1]], 0)
    ensures cnt > 1 ==> multiset(b[..cnt - 1][0 := b[cnt - 1]]) + multiset{b[0]} == multiset(b[..cnt])
    ensures cnt == 1 ==> multiset(b[..cnt]) == multiset{b[0]}
  {
    var n := cnt - 1;
    assert b[..cnt] == b[..n] + [b[n]];
    if n > 0 {
      var t := b[..n][0 := b[n]];
      forall i | 0 < i < |t| && Parent(i) != 0 ensures !After(cmp, t[Parent(i)], t[i]) {
        assert t[i] == b[..cnt][i] && t[Parent(i)] == b[..cnt][Parent(i)];
      }
    }
  }

  /** If the first child is behind the value, so are both. */
  lemma AllBehind(cmp: Compare, t: seq<Item>, idx: nat, c: nat)
    requires HeapOrder(cmp) && idx < |t| && LeastChild(cmp, t, idx, c) && After(cmp, t[c], t[idx])
    ensures forall i | 0 < i < |t| && Parent(i) == idx :: !After(cmp, t[idx], t[i])
  {
    forall i | 0 < i < |t| && Parent(i) == idx ensures !After(cmp, t[idx], t[i]) {
      assert !After(cmp, t[c], t[i]) && !After(cmp, t[idx], t[c]);
    }
  }

  lemma Childless(n: nat, idx: nat)
    requires n <= 2 * idx + 1
    ensures forall i | 0 < i < n :: Parent(i) != idx
  {
  }

  /** What has been taken is ascending, and nothing of it is behind what is left. */
  ghost predicate Taken(cmp: Compare, out: seq<Item>, left: seq<Item>) {
    Ascending(cmp, out) && forall o, v | o in out && v in left :: !After(cmp, o, v)
  }

  lemma TakeNext(cmp: Compare, out: seq<Item>, before: seq<Item>, left: seq<Item>)
    requires HeapOrder(cmp) && Taken(cmp, out, before) && before != [] && InOrder(cmp, before)
    requires multiset(left) + multiset{before[0]} == multiset(before)
    ensures Taken(cmp, out + [before[0]], left)
  {
    forall v | v in left ensures v in before && !After(cmp, before[0], v) {
      assert v in multiset(left) && v in multiset(before);
      var i :| 0 <= i < |before| && before[i] == v;
      RootIsLeast(cmp, before, i);
    }
  }

  class BinaryHeap {
    const cmp: Compare
    var count: nat
    var buckets: array<Item>

    ghost predicate Shaped()
      reads this`count, this`buckets
    {
      count <= buckets.Length <= MAX_CAPACITY
    }

    ghost function Values(): seq<Item>
      requires Shaped()
      reads this`count, this`buckets, buckets
    {
      buckets[..][..count]
    }

    ghost predicate Valid()
      reads this`count, this`buckets, buckets
    {
      Shaped() && HeapOrder(cmp) && InOrder(cmp, Values())
    }

    /** An empty heap that takes the values one by one. */
    constructor (compare: Compare, values: seq<Item>)
      requires HeapOrder(compare) && |values| < MAX_CAPACITY
      ensures Valid() && fresh(buckets) && cmp == compare && count == |values| && multiset(Values()) == multiset(values)
    {
      cmp, count := compare, 0;
      buckets := new Item[RoundUpCapacity(1)];
      new;
      var idx := 0;
      while idx < |values|
        invariant 0 <= idx <= |values| && count == idx && Valid() && fresh(buckets)
        invariant multiset(Values()) == multiset(values[..idx])
      {
        assert values[..idx + 1] == values[..idx] + [values[idx]];
        AddValue(values[idx]);
        idx := idx + 1;
      }
      assert values[..idx] == values;
    }

    method Grow(numNewValues: nat)
      requires Valid() && count + numNewValues < MAX_CAPACITY
      modifies this`buckets
      ensures Valid() && fresh(buckets) && Values() == old(Values()) && count + numNewValues < buckets.Length
    {
      RoundUpBounds(count + numNewValues);
      var capacity := RoundUpCapacity(count + numNewValues);
      var all, n := buckets, count;
      var larger := new Item[capacity];
      forall i | 0 <= i < n {
        larger[i] := all[i];
      }
      assert larger[..][..n] == all[..][..n];
      buckets := larger;
    }

    /** Adds a value at the end and moves larger ones down on its way up. */
    method AddValue(value: Item)
      requires Valid() && (count == buckets.Length ==> count + 1 < MAX_CAPACITY)
      modifies this, buckets
      ensures Valid() && (buckets == old(buckets) || fresh(buckets)) && count == old(count) + 1
      ensures multiset(Values()) == old(multiset(Values())) + multiset{value}
    {
      if count == buckets.Length {
        Grow(1);
      }
      SiftUp(buckets, count, value, cmp);
      count := count + 1;
    }

    static method SiftUp(b: array<Item>, cnt: nat, value: Item, cmp: Compare)
      requires cnt < b.Length && HeapOrder(cmp) && InOrder(cmp, b[..][..cnt])
      modifies b
      ensures InOrder(cmp, b[..][..cnt + 1])
      ensures multiset(b[..][..cnt + 1]) == multiset(old(b[..])[..cnt]) + multiset{value}
    {
      ghost var t := b[..][..cnt] + [value];
      assert Holds(b[..], cnt + 1, cnt, value, t);
      var idx := cnt;
      while 0 < idx
        invariant 0 <= idx <= cnt && Holds(b[..], cnt + 1, idx, value, t) && OrderedBut(cmp, t, idx)
        invariant multiset(t) == multiset(old(b[..])[..cnt]) + multiset{value}
      {
        var pidx := (idx - 1) / 2;
        HoleMoves(b[..], cnt + 1, idx, pidx, value, t);
        var item := b[pidx];
        if !After(cmp, item, value) {
          break;
        }
        Rise(cmp, t, idx);
        SwappedCounts(t, idx, pidx);
        ghost var was := b[..];
        b[idx] := item;
        assert b[..] == was[idx := item];
        t := Swapped(t, idx, pidx);
        idx := pidx;
      }
      Risen(cmp, t, idx);
      HoleFilled(b[..], cnt + 1, idx, value, t);
      ghost var was := b[..];
      b[idx] := value;
      assert b[..] == was[idx := value];
    }

    method GetMinimum() returns (value: Item)
      requires Valid()
      ensures count == 0 ==> value == 0
      ensures 0 < count ==> value == Values()[0] && forall v | v in Values() :: cmp(value, v) != 1
    {
      if count == 0 {
        return 0;
      }
      forall i | 0 <= i < count ensures !After(cmp, Values()[0], Values()[i]) {
        RootIsLeast(cmp, Values(), i);
      }
      assert Values()[0] == buckets[0];
      return buckets[0];
    }

    /** Takes the first value away; the last one goes in its place and falls past smaller ones. */
    method RemoveMinimumValue()
      requires Valid()
      modifies this`count, buckets
      ensures Valid() && count == if old(count) == 0 then 0 else old(count) - 1
      ensures 0 < old(count) ==> multiset(Values()) + multiset{old(buckets[0])} == old(multiset(Values()))
    {
      if count == 0 {
        return;
      }
      RemoveFirst(buckets, count, cmp);
      count := count - 1;
    }

    static method RemoveFirst(b: array<Item>, cnt: nat, cmp: Compare)
      requires 0 < cnt <= b.Length && HeapOrder(cmp) && InOrder(cmp, b[..][..cnt])
      modifies b
      ensures InOrder(cmp, b[..][..cnt - 1])
      ensures multiset(b[..][..cnt - 1]) + multiset{old(b[0])} == multiset(old(b[..])[..cnt])
    {
      var value := b[cnt - 1];
      LastReplacesFirst(cmp, b[..], cnt);
      if 1 < cnt {
        SiftDown(b, cnt - 1, value, cmp);
      } else {
        b[0] := value;
      }
    }

    static method SiftDown(b: array<Item>, n: nat, value: Item, cmp: Compare)
      requires 0 < n <= b.Length && HeapOrder(cmp) && OrderedAbove(cmp, b[..][..n][0 := value], 0)
      modifies b
      ensures InOrder(cmp, b[..][..n]) && multiset(b[..][..n]) == multiset(old(b[..])[..n][0 := value])
    {
      ghost var t := b[..][..n][0 := value];
      var idx := 0;
      while 2 * idx + 1 < n
        invariant Holds(b[..], n, idx, value, t) && OrderedAbove(cmp, t, idx)
        invariant multiset(t) == multiset(old(b[..])[..n][0 := value])
        decreases n - idx
      {
        var cidx := FirstChild(b, n, idx, cmp, t, value);
        HoleMoves(b[..], n, idx, cidx, value, t);
        var item := b[cidx];
        if After(cmp, item, value) {
          AllBehind(cmp, t, idx, cidx);
          break;
        }
        Fall(cmp, t, idx, cidx);
        SwappedCounts(t, idx, cidx);
        ghost var was := b[..];
        b[idx] := item;
        assert b[..] == was[idx := item];
        t := Swapped(t, idx, cidx);
        idx := cidx;
      }
      if n <= 2 * idx + 1 {
        Childless(n, idx);
      }
      Fallen(cmp, t, idx);
      HoleFilled(b[..], n, idx, value, t);
      ghost var was := b[..];
      b[idx] := value;
      assert b[..] == was[idx := value];
    }

    /** Of two children the one that comes first; the left one if neither does. */
    static method FirstChild(b: array<Item>, n: nat, idx: nat, cmp: Compare, ghost t: seq<Item>, ghost value: Item)
      returns (cidx: nat)
      requires HeapOrder(cmp) && Holds(b[..], n, idx, value, t) && 2 * idx + 1 < n
      ensures LeastChild(cmp, t, idx, cidx) && idx < cidx
    {
      cidx := 2 * idx + 1;
      if cidx + 1 < n && After(cmp, b[cidx], b[cidx + 1]) {
        cidx := cidx + 1;
      }
      forall i | 0 < i < |t| && Parent(i) == idx ensures !After(cmp, t[cidx], t[i]) {
        Children(idx, i);
      }
    }

    /** All values from the first to the last; they are taken from a copy. */
    method GetValues(values: array<Item>)
      requires Valid() && count < MAX_CAPACITY && count <= values.Length && values != buckets
      modifies values
      ensures forall i, j | 0 <= i < j < count :: cmp(values[i], values[j]) != 1
      ensures multiset(values[..][..count]) == multiset(Values())
    {
      if count == 0 {
        return;
      }
      var copy := new BinaryHeap(cmp, buckets[..][..count]);
      copy.DrainInto(values);
      ghost var out := values[..][..count];
      assert forall i, j | 0 <= i < j < count :: !After(cmp, out[i], out[j]);
    }

    method DrainInto(values: array<Item>)
      requires Valid() && count <= values.Length && values != buckets
      modifies this`count, buckets, values
      ensures Ascending(cmp, values[..][..old(count)]) && multiset(values[..][..old(count)]) == old(multiset(Values()))
    {
      var idx := 0;
      ghost var out: seq<Item> := [];
      while 0 < count
        invariant 0 <= idx == |out| && Valid() && idx + count == old(count) && values[..][..idx] == out
        invariant Taken(cmp, out, Values()) && multiset(out) + multiset(Values()) == old(multiset(Values()))
      {
        var value := TakeMinimum(out);
        Append(values, idx, value, out);
        out := out + [value];
        idx := idx + 1;
      }
    }

    method Append(values: array<Item>, idx: nat, value: Item, ghost out: seq<Item>)
      requires idx < values.Length && values[..][..idx] == out
      modifies values
      ensures values[..][..idx + 1] == out + [value]
    {
      values[idx] := value;
    }

    method TakeMinimum(ghost out: seq<Item>) returns (value: Item)
      requires Valid() && 0 < count && Taken(cmp, out, Values())
      modifies this`count, buckets
      ensures Valid() && count == old(count) - 1 && Taken(cmp, out + [value], Values())
      ensures multiset(out + [value]) + multiset(Values()) == multiset(out) + old(multiset(Values()))
    {
      value := GetMinimum();
      RemoveMinimumValue();
      TakeNext(cmp, out, old(Values()), Values());
    }
  }
}
