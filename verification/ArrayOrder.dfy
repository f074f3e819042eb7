/** Searching and sorting a range of a mutable array. */
module ArrayOrder {
  import opened Bytes
  import opened Orders
  import opened Deque

  ghost function Range(s: seq<Item>, location: nat, length: nat): seq<Item>
    requires location + length <= |s|
  {
    s[location..location + length]
  }

  // ----- Binary search -----

  /** Exactly the first `r` values are before `value`. */
  ghost predicate IsLowerBound(cmp: Compare, s: seq<Item>, value: Item, r: int) {
    && 0 <= r <= |s|
    && (forall i | 0 <= i < r :: Before(cmp, s[i], value))
    && (forall i | r <= i < |s| :: !Before(cmp, s[i], value))
  }

  /** In a sorted range whatever precedes a value that is before `value` is before it too. */
  lemma BeforeIsPrefix(cmp: Compare, s: seq<Item>, value: Item, i: nat, j: nat)
    requires TotalPreorder(cmp) && Sorted(cmp, s) && i <= j < |s|
    ensures Before(cmp, s[j], value) ==> Before(cmp, s[i], value)
  {
    if i < j {
      assert !Before(cmp, s[j], s[i]);
    }
  }

  /** If the last value is before `value` all are, and if the first one is not none is. */
  lemma BoundAtEnds(cmp: Compare, s: seq<Item>, value: Item)
    requires TotalPreorder(cmp) && Sorted(cmp, s) && s != []
    ensures Before(cmp, s[|s| - 1], value) ==> IsLowerBound(cmp, s, value, |s|)
    ensures !Before(cmp, s[0], value) ==> IsLowerBound(cmp, s, value, 0)
  {
    forall i | 0 <= i < |s|
      ensures Before(cmp, s[|s| - 1], value) ==> Before(cmp, s[i], value)
      ensures Before(cmp, s[i], value) ==> Before(cmp, s[0], value)
    {
      BeforeIsPrefix(cmp, s, value, i, |s| - 1);
      BeforeIsPrefix(cmp, s, value, 0, i);
    }
  }

  /** The bound lies behind `idx` and not behind `idx + width`. */
  ghost predicate Bracket(cmp: Compare, s: seq<Item>, value: Item, idx: int, width: nat) {
    && -1 <= idx < idx + width <= |s|
    && (idx >= 0 ==> Before(cmp, s[idx], value))
    && (idx + width < |s| ==> !Before(cmp, s[idx + width], value))
  }

  lemma BracketCloses(cmp: Compare, s: seq<Item>, value: Item, idx: int)
    requires TotalPreorder(cmp) && Sorted(cmp, s) && Bracket(cmp, s, value, idx, 1)
    ensures IsLowerBound(cmp, s, value, idx + 1)
  {
    forall i | 0 <= i < idx + 1 ensures Before(cmp, s[i], value) {
      BeforeIsPrefix(cmp, s, value, i, idx);
    }
    forall i | idx + 1 <= i < |s| ensures !Before(cmp, s[i], value) {
      BeforeIsPrefix(cmp, s, value, idx + 1, i);
    }
  }

  /** One probe in the middle halves the bracket. */
  lemma BracketHalves(cmp: Compare, s: seq<Item>, value: Item, idx: int, lg: nat)
    requires lg > 0 && Bracket(cmp, s, value, idx, Pow2(lg))
    ensures var probe := idx + Pow2(lg - 1);
            0 <= probe < |s| &&
            Bracket(cmp, s, value, if Before(cmp, s[probe], value) then probe else idx, Pow2(lg - 1))
  {
  }

  /** Halves the bracket `lg` times. Every probe is inside the range, and every width can be had by shifting an int. */
  method Halve(list: seq<Item>, location: nat, length: nat, value: Item, cmp: Compare, start: int, lg: nat)
    returns (idx: int)
    requires location + length <= |list| && lg < 31
    requires Bracket(cmp, Range(list, location, length), value, start, Pow2(lg))
    ensures Bracket(cmp, Range(list, location, length), value, idx, 1)
  {
    ghost var s := Range(list, location, length);
    idx := start;
    var left := lg;
    while left > 0
      invariant 0 <= left < 31 && Bracket(cmp, s, value, idx, Pow2(left))
    {
      BracketHalves(cmp, s, value, idx, left);
      left := left - 1;
      if Before(cmp, list[location + idx + Pow2(left)], value) {
        idx := idx + Pow2(left);
      }
    }
  }

  /**
   Finds where `value` belongs in a sorted range of any list: behind everything that is before it
   and nothing else.
   */
  method BSearchValues(list: seq<Item>, location: nat, length: nat, value: Item, cmp: Compare) returns (r: nat)
    requires location + length <= |list| && length < 0x8000_0000
    requires TotalPreorder(cmp) && Sorted(cmp, Range(list, location, length))
    ensures location <= r <= location + length
    ensures IsLowerBound(cmp, Range(list, location, length), value, r - location)
    ensures forall i | location <= i < r :: cmp(list[i], value) < 0
    ensures forall i | r <= i < location + length :: cmp(list[i], value) >= 0
  {
    r := FindBound(list, location, length, value, cmp);
    InTheList(cmp, list, location, length, value, r);
  }

  /** The same for places of the list. */
  lemma InTheList(cmp: Compare, list: seq<Item>, location: nat, length: nat, value: Item, r: nat)
    requires location <= r <= location + length <= |list|
    requires IsLowerBound(cmp, Range(list, location, length), value, r - location)
    ensures forall i | location <= i < r :: cmp(list[i], value) < 0
    ensures forall i | r <= i < location + length :: cmp(list[i], value) >= 0
  {
    var s := Range(list, location, length);
    forall i | location <= i < location + length ensures cmp(list[i], value) < 0 <==> i < r {
      assert s[i - location] == list[i];
      assert Before(cmp, s[i - location], value) <==> i < r;
    }
  }

  method FindBound(list: seq<Item>, location: nat, length: nat, value: Item, cmp: Compare) returns (r: nat)
    requires location + length <= |list| && length < 0x8000_0000
    requires TotalPreorder(cmp) && Sorted(cmp, Range(list, location, length))
    ensures location <= r <= location + length
    ensures IsLowerBound(cmp, Range(list, location, length), value, r - location)
  {
    ghost var s := Range(list, location, length);
    if length == 0 {
      return location;
    }
    var item := list[location + length - 1];
    assert item == s[length - 1];
    BoundAtEnds(cmp, s, value);
    if Before(cmp, item, value) {
      return location + length;
    }
    item := list[location];
    assert item == s[0];
    if Before(cmp, value, item) {
      return location;
    }
    var idx := Search(list, location, length, value, cmp);
    BracketCloses(cmp, s, value, idx);
    return idx + 1 + location;
  }

  method Search(list: seq<Item>, location: nat, length: nat, value: Item, cmp: Compare) returns (idx: int)
    requires location + length <= |list| && 0 < length < 0x8000_0000
    requires TotalPreorder(cmp) && Sorted(cmp, Range(list, location, length))
    ensures Bracket(cmp, Range(list, location, length), value, idx, 1)
  {
    ghost var s := Range(list, location, length);
    FlsBounds(length);
    MaxIsPow2();
    FlsBelow(length, 31);
    var lg := Fls(length) - 1;
    var item := list[location - 1 + Pow2(lg)];
    assert item == s[Pow2(lg) - 1];
    idx := -1;
    if Before(cmp, item, value) {
      idx := length - Pow2(lg);
      BeforeIsPrefix(cmp, s, value, idx, Pow2(lg) - 1);
    }
    idx := Halve(list, location, length, value, cmp, idx, lg);
  }

  // ----- Bubble sort -----

  ghost predicate IsPermutation(p: seq<nat>, n: nat) {
    && |p| == n
    && (forall i | 0 <= i < n :: p[i] < n)
    && (forall i, j | 0 <= i < j < n :: p[i] != p[j])
  }

  /** Place `i` of `now` has what was at place `p[i]` of `was`. */
  ghost predicate Comes(now: seq<Item>, was: seq<Item>, p: seq<nat>) {
    |now| == |was| && IsPermutation(p, |was|) && forall i | 0 <= i < |now| :: now[i] == was[p[i]]
  }

  /** Values that compare as equal are in the order in which they came. */
  ghost predicate Stable(cmp: Compare, s: seq<Item>, p: seq<nat>)
    requires |p| == |s|
  {
    forall i, j | 0 <= i < j < |s| && !Before(cmp, s[i], s[j]) && !Before(cmp, s[j], s[i]) :: p[i] < p[j]
  }

  function SwapTags(p: seq<nat>, i: nat): seq<nat>
    requires i + 1 < |p|
  {
    p[i := p[i + 1]][i + 1 := p[i]]
  }

  /** Exchanging two neighbours that are out of order. */
  lemma SwapComes(now: seq<Item>, was: seq<Item>, p: seq<nat>, i: nat)
    requires Comes(now, was, p) && i + 1 < |now|
    ensures Comes(Swapped(now, i, i + 1), was, SwapTags(p, i))
  {
  }

  lemma SwapStable(cmp: Compare, s: seq<Item>, p: seq<nat>, i: nat)
    requires |p| == |s| && i + 1 < |s| && Stable(cmp, s, p) && Before(cmp, s[i + 1], s[i])
    ensures Stable(cmp, Swapped(s, i, i + 1), SwapTags(p, i))
  {
  }

  /** The values from `cnt` on are sorted, and none of them is before any earlier one. */
  ghost predicate SortedFrom(cmp: Compare, s: seq<Item>, cnt: nat) {
    forall i, j | 0 <= i < j < |s| && cnt <= j :: !Before(cmp, s[j], s[i])
  }

  /** No value in front of `idx` is behind the one there. */
  ghost predicate MaxAt(cmp: Compare, s: seq<Item>, idx: nat)
    requires idx < |s|
  {
    forall i | 0 <= i < idx :: !Before(cmp, s[idx], s[i])
  }

  lemma PassStep(cmp: Compare, s: seq<Item>, idx: nat, cnt: nat)
    requires TotalPreorder(cmp) && idx + 1 < cnt <= |s| && MaxAt(cmp, s, idx) && SortedFrom(cmp, s, cnt)
    ensures Before(cmp, s[idx + 1], s[idx]) ==>
              MaxAt(cmp, Swapped(s, idx, idx + 1), idx + 1) && SortedFrom(cmp, Swapped(s, idx, idx + 1), cnt)
    ensures !Before(cmp, s[idx + 1], s[idx]) ==> MaxAt(cmp, s, idx + 1)
  {
  }

  lemma PassEnd(cmp: Compare, s: seq<Item>, idx: nat, cnt: nat)
    requires idx + 1 == cnt <= |s| && MaxAt(cmp, s, idx) && SortedFrom(cmp, s, cnt)
    ensures SortedFrom(cmp, s, cnt - 1)
  {
  }

  /** A range of the array on its way to being sorted; `p` tells where its values came from. */
  ghost predicate Sorting(cmp: Compare, all: seq<Item>, was: seq<Item>, location: nat, length: nat, p: seq<nat>,
                          cnt: nat)
    requires location + length <= |was|
  {
    && |all| == |was| && all[..location] == was[..location] && all[location + length..] == was[location + length..]
    && Comes(Range(all, location, length), Range(was, location, length), p)
    && Stable(cmp, Range(all, location, length), p)
    && SortedFrom(cmp, Range(all, location, length), cnt)
  }

  lemma RangeSwapped(all: seq<Item>, location: nat, length: nat, idx: nat)
    requires location + length <= |all| && idx + 1 < length
    ensures var now := Swapped(all, location + idx, location + idx + 1);
            && Range(now, location, length) == Swapped(Range(all, location, length), idx, idx + 1)
            && now[..location] == all[..location] && now[location + length..] == all[location + length..]
  {
  }

  lemma KeptStep(cmp: Compare, all: seq<Item>, was: seq<Item>, location: nat, length: nat, p: seq<nat>, cnt: nat,
                 idx: nat)
    requires location + length <= |was| && Sorting(cmp, all, was, location, length, p, cnt)
    requires TotalPreorder(cmp) && idx + 1 < cnt <= length && MaxAt(cmp, Range(all, location, length), idx)
    requires !Before(cmp, all[location + idx + 1], all[location + idx])
    ensures MaxAt(cmp, Range(all, location, length), idx + 1)
  {
    PassStep(cmp, Range(all, location, length), idx, cnt);
  }

  lemma SwappedStep(cmp: Compare, all: seq<Item>, was: seq<Item>, location: nat, length: nat, p: seq<nat>, cnt: nat,
                    idx: nat, now: seq<Item>)
    requires location + length <= |was| && Sorting(cmp, all, was, location, length, p, cnt)
    requires TotalPreorder(cmp) && idx + 1 < cnt <= length && MaxAt(cmp, Range(all, location, length), idx)
    requires Before(cmp, all[location + idx + 1], all[location + idx]) &&
             now == Swapped(all, location + idx, location + idx + 1)
    ensures Sorting(cmp, now, was, location, length, SwapTags(p, idx), cnt) &&
            MaxAt(cmp, Range(now, location, length), idx + 1)
  {
    var s := Range(all, location, length);
    PassStep(cmp, s, idx, cnt);
    RangeSwapped(all, location, length, idx);
    SwapComes(s, Range(was, location, length), p, idx);
    SwapStable(cmp, s, p, idx);
  }

  // ----- Passes -----

  /** Two neighbours put in order. */
  function Ordered(cmp: Compare, s: seq<Item>, i: nat): (r: seq<Item>)
    requires i + 1 < |s|
    ensures |r| == |s|
  {
    if Before(cmp, s[i + 1], s[i]) then Swapped(s, i, i + 1) else s
  }

  /** What is done at a place of an array. */
  type Step = (seq<Item>, nat) -> seq<Item>

  ghost function Ordering(cmp: Compare): Step {
    (s: seq<Item>, i: nat) => if i + 1 < |s| then Ordered(cmp, s, i) else s
  }

  ghost predicate PutsInOrder(step: Step, cmp: Compare) {
    forall s, i: nat {:trigger Ordered(cmp, s, i)} | i + 1 < |s| :: step(s, i) == Ordered(cmp, s, i)
  }

  /** The step at `n` places from `at` on, one after the other. */
  ghost function Along(step: Step, s: seq<Item>, at: nat, n: nat): seq<Item> {
    if n == 0 then s else step(Along(step, s, at, n - 1), at + n - 1)
  }

  /** Shorter and shorter passes. */
  ghost function Passes(step: Step, s: seq<Item>, at: nat, cnt: nat): seq<Item>
    decreases cnt
  {
    if cnt <= 1 then s else Passes(step, Along(step, s, at, cnt - 1), at, cnt - 1)
  }

  /** In the middle of a pass. */
  ghost predicate MaxSorting(cmp: Compare, all: seq<Item>, was: seq<Item>, location: nat, length: nat, p: seq<nat>,
                             cnt: nat, idx: nat)
    requires location + length <= |was| && idx < length
  {
    Sorting(cmp, all, was, location, length, p, cnt) && MaxAt(cmp, Range(all, location, length), idx)
  }

  lemma PairStep(cmp: Compare, all: seq<Item>, was: seq<Item>, location: nat, length: nat, p: seq<nat>, cnt: nat,
                 idx: nat, now: seq<Item>)
    returns (q: seq<nat>)
    requires location + length <= |was| && idx + 1 < cnt <= length &&
             MaxSorting(cmp, all, was, location, length, p, cnt, idx)
    requires TotalPreorder(cmp) && now == Ordered(cmp, all, location + idx)
    ensures MaxSorting(cmp, now, was, location, length, q, cnt, idx + 1)
  {
    if Before(cmp, all[location + idx + 1], all[location + idx]) {
      q := SwapTags(p, idx);
      SwappedStep(cmp, all, was, location, length, p, cnt, idx, now);
    } else {
      q := p;
      KeptStep(cmp, all, was, location, length, p, cnt, idx);
    }
  }

  /** A pass takes the last of the first `n + 1` values to their end. */
  lemma {:induction false} PassPart(cmp: Compare, step: Step, all: seq<Item>, was: seq<Item>, location: nat,
                                    length: nat, p: seq<nat>, cnt: nat, n: nat)
    returns (q: seq<nat>)
    requires location + length <= |was| && Sorting(cmp, all, was, location, length, p, cnt)
    requires TotalPreorder(cmp) && PutsInOrder(step, cmp) && n < cnt <= length
    ensures MaxSorting(cmp, Along(step, all, location, n), was, location, length, q, cnt, n)
    decreases n
  {
    q := p;
    if n > 0 {
      q := PassPart(cmp, step, all, was, location, length, p, cnt, n - 1);
      var t := Along(step, all, location, n - 1);
      q := PairStep(cmp, t, was, location, length, q, cnt, n - 1, Ordered(cmp, t, location + n - 1));
    }
  }

  /** After all passes the range is sorted. */
  lemma {:induction false} PassesSort(cmp: Compare, step: Step, all: seq<Item>, was: seq<Item>, location: nat,
                                      length: nat, p: seq<nat>, cnt: nat)
    returns (q: seq<nat>)
    requires location + length <= |was| && Sorting(cmp, all, was, location, length, p, cnt) && cnt <= length
    requires TotalPreorder(cmp) && PutsInOrder(step, cmp)
    ensures Sorting(cmp, Passes(step, all, location, cnt), was, location, length, q, if cnt <= 1 then cnt else 1)
    decreases cnt
  {
    q := p;
    if cnt > 1 {
      q := PassPart(cmp, step, all, was, location, length, p, cnt, cnt - 1);
      var now := Along(step, all, location, cnt - 1);
      PassEnd(cmp, Range(now, location, length), cnt - 1, cnt);
      q := PassesSort(cmp, step, now, was, location, length, q, cnt - 1);
    }
  }

  lemma NothingMoved(cmp: Compare, was: seq<Item>, location: nat, length: nat) returns (p: seq<nat>)
    requires location + length <= |was|
    ensures Sorting(cmp, was, was, location, length, p, length)
  {
    p := seq(length, i => i);
  }

  lemma SortedFromOne(cmp: Compare, s: seq<Item>, cnt: nat)
    requires cnt <= 1 && SortedFrom(cmp, s, cnt)
    ensures Sorted(cmp, s)
  {
  }

  /**
   Bubble sort sorts the range: a permutation that keeps equal values in order and leaves the rest
   of the array alone.
   */
  lemma BubbleSortSorts(cmp: Compare, step: Step, was: seq<Item>, location: nat, length: nat) returns (p: seq<nat>)
    requires location + length <= |was| && TotalPreorder(cmp) && PutsInOrder(step, cmp)
    ensures var now := Passes(step, was, location, length);
            && |now| == |was| && now[..location] == was[..location]
            && now[location + length..] == was[location + length..]
            && Comes(Range(now, location, length), Range(was, location, length), p)
            && Sorted(cmp, Range(now, location, length)) && Stable(cmp, Range(now, location, length), p)
  {
    p := NothingMoved(cmp, was, location, length);
    p := PassesSort(cmp, step, was, was, location, length, p, length);
    SortedFromOne(cmp, Range(Passes(step, was, location, length), location, length), if length <= 1 then length else 1);
  }

  /** Exchanges two neighbours that are out of order. */
  method OrderNeighbours(a: MutableArray, i: nat, cmp: Compare, ghost step: Step)
    requires a.Valid() && i + 1 < a.count && PutsInOrder(step, cmp)
    modifies a.store
    ensures a.Valid() && a.Contents() == step(old(a.Contents()), i)
  {
    ghost var s := a.Contents();
    assert step(s, i) == Ordered(cmp, s, i);
    var first := a.ValueAtIndex(i);
    var second := a.ValueAtIndex(i + 1);
    if Before(cmp, second, first) {
      a.ExchangeValuesAtIndices(i, i + 1);
    }
  }

  lemma AlongNext(step: Step, s: seq<Item>, at: nat, n: nat, t: seq<Item>)
    requires t == Along(step, s, at, n)
    ensures step(t, at + n) == Along(step, s, at, n + 1)
  {
  }

  /** One pass over the first `cnt` values of the range. */
  method Pass(a: MutableArray, location: nat, cnt: nat, cmp: Compare, ghost step: Step)
    requires a.Valid() && 0 < cnt && location + cnt <= a.count && PutsInOrder(step, cmp)
    modifies a.store
    ensures a.Valid() && a.Contents() == Along(step, old(a.Contents()), location, cnt - 1)
  {
    ghost var s := a.Contents();
    var idx := 0;
    while idx < cnt - 1
      invariant 0 <= idx <= cnt - 1 && a.Valid() && a.Contents() == Along(step, s, location, idx)
    {
      AlongNext(step, s, location, idx, a.Contents());
      OrderNeighbours(a, location + idx, cmp, step);
      idx := idx + 1;
    }
  }

  method SortPasses(a: MutableArray, location: nat, length: nat, cmp: Compare, ghost step: Step)
    requires a.Valid() && location + length <= a.count && PutsInOrder(step, cmp)
    modifies a.store
    ensures a.Valid() && a.Contents() == Passes(step, old(a.Contents()), location, length)
  {
    ghost var s := a.Contents();
    var cnt := length;
    while 1 < cnt
      invariant 0 <= cnt <= length && a.Valid() &&
                Passes(step, a.Contents(), location, cnt) == Passes(step, s, location, length)
    {
      Pass(a, location, cnt, cmp, step);
      cnt := cnt - 1;
    }
  }

  lemma {:induction false} AlongCounts(cmp: Compare, step: Step, s: seq<Item>, at: nat, n: nat)
    requires PutsInOrder(step, cmp) && at + n < |s|
    ensures |Along(step, s, at, n)| == |s| && multiset(Along(step, s, at, n)) == multiset(s)
  {
    if n > 0 {
      AlongCounts(cmp, step, s, at, n - 1);
      var t := Along(step, s, at, n - 1);
      assert step(t, at + n - 1) == Ordered(cmp, t, at + n - 1);
      SwappedCounts(t, at + n - 1, at + n);
    }
  }

  /** Nothing is lost and nothing comes in. */
  lemma {:induction false} PassesCount(cmp: Compare, step: Step, s: seq<Item>, at: nat, cnt: nat)
    requires PutsInOrder(step, cmp) && at + cnt <= |s|
    ensures multiset(Passes(step, s, at, cnt)) == multiset(s)
    decreases cnt
  {
    if cnt > 1 {
      AlongCounts(cmp, step, s, at, cnt - 1);
      PassesCount(cmp, step, Along(step, s, at, cnt - 1), at, cnt - 1);
    }
  }

  lemma SortedInPlace(cmp: Compare, s: seq<Item>, location: nat, length: nat)
    requires location + length <= |s| && Sorted(cmp, Range(s, location, length))
    ensures forall i, j | location <= i < j < location + length :: cmp(s[j], s[i]) >= 0
  {
    var t := Range(s, location, length);
    forall i, j | location <= i < j < location + length ensures cmp(s[j], s[i]) >= 0 {
      assert !Before(cmp, t[j - location], t[i - location]);
    }
  }

  /** Sorts a range: a permutation that keeps equal values in order and leaves the rest of the array alone. */
  method ZSort(a: MutableArray, location: nat, length: nat, cmp: Compare) returns (ghost p: seq<nat>)
    requires a.Valid() && location + length <= a.count && TotalPreorder(cmp)
    modifies a.store
    ensures a.Valid() && |a.Contents()| == |old(a.Contents())|
    ensures a.Contents()[..location] == old(a.Contents())[..location]
    ensures a.Contents()[location + length..] == old(a.Contents())[location + length..]
    ensures Comes(Range(a.Contents(), location, length), Range(old(a.Contents()), location, length), p)
    ensures Sorted(cmp, Range(a.Contents(), location, length)) && Stable(cmp, Range(a.Contents(), location, length), p)
    ensures forall i, j | location <= i < j < location + length :: cmp(a.Contents()[j], a.Contents()[i]) >= 0
    ensures multiset(a.Contents()) == multiset(old(a.Contents()))
  {
    SortPasses(a, location, length, cmp, Ordering(cmp));
    p := BubbleSortSorts(cmp, Ordering(cmp), old(a.Contents()), location, length);
    SortedInPlace(cmp, a.Contents(), location, length);
    PassesCount(cmp, Ordering(cmp), old(a.Contents()), location, length);
  }
}
