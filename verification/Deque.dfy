/** The mutable array: a deque of buckets with free room on both sides. */
module Deque {
  import opened Orders

  /** What replacing a range means. */
  ghost function Splice(s: seq<Item>, location: nat, length: nat, values: seq<Item>): seq<Item>
    requires location + length <= |s|
  {
    s[..location] + values + s[location + length..]
  }

  /** The range and what is around it. */
  lemma Parts(s: seq<Item>, location: nat, length: nat, values: seq<Item>)
    returns (a: seq<Item>, m: seq<Item>, c: seq<Item>)
    requires location + length <= |s|
    ensures s == a + m + c && |a| == location && m == s[location..location + length] && |m| == length
    ensures a + values + c == Splice(s, location, length, values)
  {
    a, m, c := s[..location], s[location..location + length], s[location + length..];
  }

  lemma SpliceAtEnd(s: seq<Item>, value: Item)
    ensures Splice(s, |s|, 0, [value]) == s + [value]
  {
  }

  lemma SpliceOut(s: seq<Item>, idx: nat)
    requires idx < |s|
    ensures Splice(s, idx, 1, []) == s[..idx] + s[idx + 1..]
  {
  }

  lemma BalanceUpdate(s: seq<Item>, idx: nat, value: Item, retained: multiset<Item>, released: multiset<Item>)
    requires idx < |s| && retained == released + multiset(s)
    ensures retained + multiset{value} == released + multiset{s[idx]} + multiset(s[idx := value])
  {
  }

  /** What is retained and not released stays in step with what is stored. */
  lemma Balance(a: seq<Item>, m: seq<Item>, c: seq<Item>, values: seq<Item>, retained: multiset<Item>,
                released: multiset<Item>)
    requires retained == released + multiset(a + m + c)
    ensures retained + multiset(values) == released + multiset(m) + multiset(a + values + c)
  {
  }

  /** The values `s` lie in `b` from `at` on. */
  ghost predicate Lies(b: seq<Item>, at: nat, s: seq<Item>) {
    at + |s| <= |b| && b[at..at + |s|] == s
  }

  /** From `left` on lie `a`, a gap, and `c`. */
  ghost predicate Gap(b: seq<Item>, left: nat, a: seq<Item>, gap: nat, c: seq<Item>) {
    Lies(b, left, a) && Lies(b, left + |a| + gap, c)
  }

  lemma FilledGap(b: seq<Item>, left: nat, a: seq<Item>, values: seq<Item>, c: seq<Item>)
    requires Gap(b, left, a, |values|, c) && Lies(b, left + |a|, values)
    ensures Lies(b, left, a + values + c)
  {
    var t, n := a + values + c, left + |a| + |values|;
    assert b[left..n + |c|] == b[left..left + |a|] + b[left + |a|..n] + b[n..n + |c|];
  }

  /** Three parts one behind the other. */
  lemma Parted(b: seq<Item>, left: nat, a: seq<Item>, m: seq<Item>, c: seq<Item>)
    requires Lies(b, left, a + m + c)
    ensures Lies(b, left, a) && Lies(b, left + |a|, m) && Lies(b, left + |a| + |m|, c)
  {
    var t := a + m + c;
    SubSlice(b, left, left + |t|, 0, |a|);
    SubSlice(b, left, left + |t|, |a|, |a| + |m|);
    SubSlice(b, left, left + |t|, |a| + |m|, |t|);
    assert t[..|a|] == a && t[|a|..|a| + |m|] == m && t[|a| + |m|..] == c;
  }

  lemma SubSlice(b: seq<Item>, i: nat, j: nat, k: nat, l: nat)
    requires i <= j <= |b| && k <= l <= j - i
    ensures b[i..j][k..l] == b[i + k..i + l]
  {
    var u, v := b[i..j][k..l], b[i + k..i + l];
    assert forall p | 0 <= p < l - k :: u[p] == v[p];
  }

  lemma SameEnds(b: seq<Item>, d: seq<Item>, i: nat, j: nat, at: nat, s: seq<Item>)
    requires i <= j <= |b| == |d| && b[..i] == d[..i] && b[j..] == d[j..]
    requires Lies(b, at, s) && (at + |s| <= i || j <= at)
    ensures Lies(d, at, s)
  {
    if at + |s| <= i {
      SubSlice(b, 0, i, at, at + |s|);
      SubSlice(d, 0, i, at, at + |s|);
    } else {
      SubSlice(b, j, |b|, at - j, at - j + |s|);
      SubSlice(d, j, |b|, at - j, at - j + |s|);
    }
  }

  lemma MovedSlice(b: seq<Item>, d: seq<Item>, to: nat, from: nat, s: seq<Item>)
    requires Lies(b, from, s) && to + |s| <= |d| && forall j | to <= j < to + |s| :: d[j] == b[j - to + from]
    ensures Lies(d, to, s)
  {
    var u := d[to..to + |s|];
    forall p | 0 <= p < |s| ensures u[p] == s[p] {
      assert d[to + p] == b[from + p] == b[from..from + |s|][p];
    }
  }

  /** Slices that a change leaves alone. */
  lemma SameSlice(b: seq<Item>, d: seq<Item>, at: nat, s: seq<Item>)
    requires |b| == |d| && Lies(b, at, s) && forall j | at <= j < at + |s| :: d[j] == b[j]
    ensures Lies(d, at, s)
  {
    assert forall j | at <= j < at + |s| :: d[j] == b[j] == b[at..at + |s|][j - at] == s[j - at];
  }

  class MutableArray {
    var count: nat
    /** Where the first value lies in the store. */
    var leftIdx: nat
    var store: array?<Item>
    ghost var retained: multiset<Item>
    ghost var released: multiset<Item>

    ghost predicate Shaped()
      reads this`count, this`leftIdx, this`store, store
    {
      if store == null then count == 0 else leftIdx + count <= store.Length <= MAX_CAPACITY
    }

    ghost function Contents(): seq<Item>
      requires Shaped()
      reads this`count, this`leftIdx, this`store, store
    {
      if store == null then [] else store[leftIdx..leftIdx + count]
    }

    /** Every value is retained once for each place it has. */
    ghost predicate Valid()
      reads this, store
    {
      Shaped() && retained == released + multiset(Contents())
    }

    constructor ()
      ensures Valid() && Contents() == [] && store == null && retained == multiset{}
    {
      count, leftIdx, store := 0, 0, null;
      retained, released := multiset{}, multiset{};
    }

    // ----- Moving memory -----

    static method Memmove(b: array<Item>, to: nat, from: nat, n: nat)
      requires to + n <= b.Length && from + n <= b.Length
      modifies b
      ensures forall j | 0 <= j < b.Length :: b[j] == if to <= j < to + n then old(b[j - to + from]) else old(b[j])
    {
      forall j | to <= j < to + n {
        b[j] := b[j - to + from];
      }
    }

    /** Moves `s`; what lies elsewhere stays there. */
    static method Move(b: array<Item>, to: nat, from: nat, n: nat, ghost s: seq<Item>, ghost at: nat,
                       ghost t: seq<Item>)
      requires to + n <= b.Length && n == |s| && Lies(b[..], from, s)
      requires Lies(b[..], at, t) && (at + |t| <= to || to + n <= at)
      modifies b
      ensures Lies(b[..], to, s) && Lies(b[..], at, t)
    {
      ghost var was := b[..];
      Memmove(b, to, from, n);
      SameSlice(was, b[..], at, t);
      MovedSlice(was, b[..], to, from, s);
    }

    /** Copies from elsewhere. */
    static method Copy(b: array<Item>, to: nat, values: seq<Item>, ghost at: nat, ghost s: seq<Item>, ghost from: nat,
                       ghost t: seq<Item>)
      requires to + |values| <= b.Length
      requires Lies(b[..], at, s) && (at + |s| <= to || to + |values| <= at)
      requires Lies(b[..], from, t) && (from + |t| <= to || to + |values| <= from)
      modifies b
      ensures Lies(b[..], to, values) && Lies(b[..], at, s) && Lies(b[..], from, t)
    {
      ghost var was := b[..];
      forall j | to <= j < to + |values| {
        b[j] := values[j - to];
      }
      SameSlice(was, b[..], at, s);
      SameSlice(was, b[..], from, t);
      assert Lies(values, 0, values);
      MovedSlice(values, b[..], to, 0, values);
    }

    /** Sets a stretch to zero; two sequences that lie elsewhere stay. */
    static method Clear(b: array<Item>, start: nat, n: nat, ghost at: nat, ghost s: seq<Item>, ghost to: nat,
                        ghost t: seq<Item>)
      requires start + n <= b.Length
      requires Lies(b[..], at, s) && (at + |s| <= start || start + n <= at)
      requires Lies(b[..], to, t) && (to + |t| <= start || start + n <= to)
      modifies b
      ensures Lies(b[..], at, s) && Lies(b[..], to, t)
    {
      ghost var was := b[..];
      forall i | start <= i < start + n {
        b[i] := 0;
      }
      SameSlice(was, b[..], at, s);
      SameSlice(was, b[..], to, t);
    }

    // ----- Repositioning -----

    function Wiggle(): nat
      requires store != null
      reads this`store
    {
      var w := store.Length / 0x2_0000;
      if w < 4 then 4 else w
    }

    /** The store has to be reallocated. */
    predicate Tight(futureCnt: nat)
      requires store != null
      reads this`count, this`store
    {
      store.Length < futureCnt % 0x1_0000_0000 || (count < futureCnt && store.Length - count < Wiggle())
    }

    /** What the shift of an int allows. */
    ghost predicate CanReplace(length: nat, newCount: nat)
      reads this`count, this`store
    {
      length <= count &&
      var futureCnt := count - length + newCount;
      if store == null then futureCnt < MAX_CAPACITY
      else futureCnt < 0x1_0000_0000 && (length != newCount && Tight(futureCnt) ==> futureCnt + Wiggle() < MAX_CAPACITY)
    }

    /** Makes the gap for `newCount` values in place of the range of `s`. */
    method Reposition(ghost a: seq<Item>, ghost c: seq<Item>, location: nat, length: nat, newCount: nat)
      requires Shaped() && store != null && |a| == location && |c| == count - length - location && length != newCount
      requires CanReplace(length, newCount)
      requires Gap(store[..], leftIdx, a, length, c)
      modifies this`leftIdx, this`store, store
      ensures store != null && (store == old(store) || fresh(store)) && store.Length <= MAX_CAPACITY
      ensures Gap(store[..], leftIdx, a, newCount, c)
    {
      var futureCnt := count - length + newCount;
      var L, A, B := leftIdx, location, length;
      var C := count - B - A;
      var R := store.Length - count - L;
      var numNewElems := newCount - B;
      if Tight(futureCnt) {
        Reallocate(a, c, location, length, newCount);
      } else if (numNewElems < 0 && C < A) || (numNewElems <= R && C < A) {
        MoveC(a, c, location, length, newCount);
      } else if numNewElems < 0 || (numNewElems <= L && A <= C) {
        MoveA(a, c, location, length, newCount);
      } else {
        Recenter(a, c, location, length, newCount);
      }
    }

    /** The part behind the range moves. */
    method MoveC(ghost a: seq<Item>, ghost c: seq<Item>, location: nat, length: nat, newCount: nat)
      requires Shaped() && store != null && |a| == location && |c| == count - length - location
      requires Gap(store[..], leftIdx, a, length, c)
      requires leftIdx + count - length + newCount <= store.Length
      modifies store
      ensures Gap(store[..], leftIdx, a, newCount, c)
    {
      var C := count - length - location;
      var oldC0, newC0 := leftIdx + location + length, leftIdx + location + newCount;
      Move(store, newC0, oldC0, C, c, leftIdx, a);
      if newC0 < oldC0 {
        Clear(store, newC0 + C, oldC0 - newC0, leftIdx, a, newC0, c);
      }
    }

    /** The part in front of the range moves. */
    method MoveA(ghost a: seq<Item>, ghost c: seq<Item>, location: nat, length: nat, newCount: nat)
      requires Shaped() && store != null && |a| == location && |c| == count - length - location
      requires Gap(store[..], leftIdx, a, length, c)
      requires newCount <= leftIdx + length
      modifies this`leftIdx, store
      ensures Gap(store[..], leftIdx, a, newCount, c)
    {
      var L, newL := leftIdx, leftIdx + length - newCount;
      leftIdx := newL;
      Move(store, newL, L, location, a, L + location + length, c);
      if L < newL {
        Clear(store, L, newL - L, newL, a, L + location + length, c);
      }
    }

    method Reallocate(ghost a: seq<Item>, ghost c: seq<Item>, location: nat, length: nat, newCount: nat)
      requires Shaped() && store != null && |a| == location && |c| == count - length - location
      requires count - length + newCount + Wiggle() < MAX_CAPACITY
      requires Gap(store[..], leftIdx, a, length, c)
      modifies this`leftIdx, this`store
      ensures store != null && fresh(store) && store.Length <= MAX_CAPACITY
      ensures Gap(store[..], leftIdx, a, newCount, c)
    {
      var futureCnt := count - length + newCount;
      var A, C := location, count - length - location;
      RoundUpBounds(futureCnt + Wiggle());
      var capacity := RoundUpCapacity(futureCnt + Wiggle());
      var newBuckets := new Item[capacity];
      var newL := (capacity - futureCnt) / 2;
      CopyParts(a, c, A, C, leftIdx + A + length, newBuckets, newL, newL + A + newCount);
      store, leftIdx := newBuckets, newL;
    }

    method CopyParts(ghost a: seq<Item>, ghost c: seq<Item>, A: nat, C: nat, oldC0: nat, newBuckets: array<Item>,
                     newL: nat, newC0: nat)
      requires store != null && newBuckets != store && |a| == A && |c| == C
      requires Lies(store[..], leftIdx, a) && Lies(store[..], oldC0, c)
      requires newL + A <= newC0 && newC0 + C <= newBuckets.Length
      modifies newBuckets
      ensures Lies(newBuckets[..], newL, a) && Lies(newBuckets[..], newC0, c)
    {
      var partA, partC := store[..][leftIdx..leftIdx + A], store[..][oldC0..oldC0 + C];
      assert partA == a && partC == c;
      Copy(newBuckets, newL, partA, newL, [], newL, []);
      Copy(newBuckets, newC0, partC, newL, a, newL, a);
    }

    /** Inserting where neither side has room enough: everything moves towards the middle. */
    method Recenter(ghost a: seq<Item>, ghost c: seq<Item>, location: nat, length: nat, newCount: nat)
      requires Shaped() && store != null && |a| == location && |c| == count - length - location
      requires length < newCount && count - length + newCount <= store.Length
      requires Gap(store[..], leftIdx, a, length, c)
      modifies this`leftIdx, store
      ensures Gap(store[..], leftIdx, a, newCount, c)
    {
      var L, A, C := leftIdx, location, count - length - location;
      var R := store.Length - count - L;
      var newL := (L + R - (newCount - length)) / 2;
      newL := newL - newL / 2;
      var oldC0, newC0 := L + A + length, newL + A + newCount;
      if newL < L {
        MoveLeft(a, c, A, C, newL, oldC0, newC0);
      } else {
        MoveRight(a, c, A, C, newL, oldC0, newC0);
      }
    }

    method MoveLeft(ghost a: seq<Item>, ghost c: seq<Item>, A: nat, C: nat, newL: nat, oldC0: nat, newC0: nat)
      requires store != null && |a| == A && |c| == C && Lies(store[..], leftIdx, a) && Lies(store[..], oldC0, c)
      requires newL < leftIdx && leftIdx + A <= oldC0 && newL + A <= newC0 && newC0 + C <= store.Length
      modifies this`leftIdx, store
      ensures leftIdx == newL && Lies(store[..], newL, a) && Lies(store[..], newC0, c)
    {
      Move(store, newL, leftIdx, A, a, oldC0, c);
      Move(store, newC0, oldC0, C, c, newL, a);
      if newC0 < oldC0 {
        Clear(store, newC0 + C, oldC0 - newC0, newL, a, newC0, c);
      }
      leftIdx := newL;
    }

    method MoveRight(ghost a: seq<Item>, ghost c: seq<Item>, A: nat, C: nat, newL: nat, oldC0: nat, newC0: nat)
      requires store != null && |a| == A && |c| == C && Lies(store[..], leftIdx, a) && Lies(store[..], oldC0, c)
      requires leftIdx <= newL && leftIdx + A <= oldC0 <= newC0 && newL + A <= newC0 && newC0 + C <= store.Length
      modifies this`leftIdx, store
      ensures leftIdx == newL && Lies(store[..], newL, a) && Lies(store[..], newC0, c)
    {
      Move(store, newC0, oldC0, C, c, leftIdx, a);
      Move(store, newL, leftIdx, A, a, newC0, c);
      if leftIdx < newL {
        Clear(store, leftIdx, newL - leftIdx, newL, a, newC0, c);
      }
      leftIdx := newL;
    }

    // ----- Replacing a range -----

    /** Releases the values of a range, and gives the store away if asked to and the range is everything. */
    method ReleaseValues(location: nat, length: nat, releaseStorage: bool, ghost a: seq<Item>, ghost m: seq<Item>,
                         ghost c: seq<Item>)
      requires Shaped() && |a| == location && |m| == length && Contents() == a + m + c
      modifies this`count, this`store, this`released, store
      ensures released == old(released) + multiset(m)
      ensures if releaseStorage && location == 0 && length == old(count) then store == null && count == 0
              else store == old(store) && count == old(count)
      ensures store != null ==> Gap(store[..], leftIdx, a, length, c)
    {
      if store != null {
        ReleaseStored(location, length, a, m, c);
      }
      if releaseStorage && 0 == location && count == length {
        count, store := 0, null;
      }
    }

    method ReleaseStored(location: nat, length: nat, ghost a: seq<Item>, ghost m: seq<Item>, ghost c: seq<Item>)
      requires Shaped() && store != null && |a| == location && |m| == length && Contents() == a + m + c
      modifies this`released, store
      ensures released == old(released) + multiset(m) && Gap(store[..], leftIdx, a, length, c)
    {
      assert Lies(store[..], leftIdx, a + m + c);
      Parted(store[..], leftIdx, a, m, c);
      if 0 < length {
        ReleaseRange(location, length, a, m, c);
      }
    }

    method ReleaseRange(location: nat, length: nat, ghost a: seq<Item>, ghost m: seq<Item>, ghost c: seq<Item>)
      requires store != null && |a| == location && |m| == length
      requires Lies(store[..], leftIdx + location, m) && Gap(store[..], leftIdx, a, length, c)
      modifies this`released, store
      ensures released == old(released) + multiset(m) && Gap(store[..], leftIdx, a, length, c)
    {
      ghost var was := store[..];
      ghost var gone := Drop(store, leftIdx + location, length);
      released := released + gone;
      SameEnds(was, store[..], leftIdx + location, leftIdx + location + length, leftIdx, a);
      SameEnds(was, store[..], leftIdx + location, leftIdx + location + length, leftIdx + location + length, c);
    }

    /** Releases a stretch of buckets one by one. */
    static method Drop(b: array<Item>, start: nat, length: nat) returns (ghost gone: multiset<Item>)
      requires start + length <= b.Length
      modifies b
      ensures gone == multiset(old(b[..])[start..start + length])
      ensures b[..][..start] == old(b[..])[..start] && b[..][start + length..] == old(b[..])[start + length..]
    {
      ghost var was := b[..];
      gone := multiset{};
      var idx := 0;
      while idx < length
        invariant 0 <= idx <= length && gone == multiset(was[start..start + idx])
        invariant forall j | 0 <= j < b.Length && !(start <= j < start + idx) :: b[j] == was[j]
      {
        assert was[start..start + idx + 1] == was[start..start + idx] + [was[start + idx]];
        gone := gone + multiset{b[start + idx]};
        b[start + idx] := 0;
        idx := idx + 1;
      }
    }

    /** Room for the first values. */
    method AllocateStore(futureCnt: nat)
      requires futureCnt < MAX_CAPACITY
      modifies this`store, this`leftIdx
      ensures store != null && fresh(store) && store.Length <= MAX_CAPACITY && leftIdx + futureCnt <= store.Length
    {
      RoundUpBounds(futureCnt);
      var capacity := RoundUpCapacity(futureCnt);
      leftIdx := (capacity - futureCnt) / 2;
      store := new Item[capacity];
    }

    /** Makes the gap: in a new store, or by moving what there is. */
    method MakeGap(ghost a: seq<Item>, ghost c: seq<Item>, location: nat, length: nat, newCount: nat)
      requires Shaped() && CanReplace(length, newCount) && |a| == location && |c| == count - length - location
      requires store != null ==> Gap(store[..], leftIdx, a, length, c)
      modifies this`leftIdx, this`store, store
      ensures store != null && (store == old(store) || fresh(store)) && store.Length <= MAX_CAPACITY
      ensures Gap(store[..], leftIdx, a, newCount, c)
    {
      if store == null {
        AllocateStore(newCount);
      } else if length != newCount {
        Reposition(a, c, location, length, newCount);
      }
    }

    /** Replaces a range by new values. The new values are retained before those of the range are released. */
    method ReplaceValues(location: nat, length: nat, newValues: seq<Item>)
      requires Valid() && location + length <= count && CanReplace(length, |newValues|)
      modifies this, store
      ensures Valid() && (store == old(store) || fresh(store))
      ensures Contents() == old(Contents())[..location] + newValues + old(Contents())[location + length..]
      ensures retained == old(retained) + multiset(newValues)
      ensures released == old(released) + multiset(old(Contents())[location..location + length])
    {
      ghost var s := Contents();
      ghost var a, m, c := Parts(s, location, length, newValues);
      Balance(a, m, c, newValues, retained, released);
      retained := retained + multiset(newValues);
      ReplaceParts(a, m, c, location, length, newValues);
    }

    method ReplaceParts(ghost a: seq<Item>, ghost m: seq<Item>, ghost c: seq<Item>, location: nat, length: nat,
                        newValues: seq<Item>)
      requires Shaped() && |a| == location && |m| == length && Contents() == a + m + c &&
               CanReplace(length, |newValues|)
      modifies this`leftIdx, this`store, this`count, this`released, store
      ensures Shaped() && (store == old(store) || fresh(store)) && Contents() == a + newValues + c
      ensures released == old(released) + multiset(m)
    {
      ReleaseValues(location, length, false, a, m, c);
      Rearrange(a, c, location, length, newValues);
    }

    method Rearrange(ghost a: seq<Item>, ghost c: seq<Item>, location: nat, length: nat, newValues: seq<Item>)
      requires Shaped() && CanReplace(length, |newValues|) && |a| == location && |c| == count - length - location
      requires store != null ==> Gap(store[..], leftIdx, a, length, c)
      modifies this`leftIdx, this`store, this`count, store
      ensures Shaped() && (store == old(store) || fresh(store)) && Contents() == a + newValues + c
    {
      MakeGap(a, c, location, length, |newValues|);
      FillGap(a, c, location, newValues);
      count := count - length + |newValues|;
    }

    method FillGap(ghost a: seq<Item>, ghost c: seq<Item>, location: nat, values: seq<Item>)
      requires store != null && |a| == location && Gap(store[..], leftIdx, a, |values|, c)
      modifies store
      ensures leftIdx + |a| + |values| + |c| <= store.Length
      ensures store[leftIdx..leftIdx + |a| + |values| + |c|] == a + values + c
    {
      if 0 < |values| {
        Copy(store, leftIdx + location, values, leftIdx, a, leftIdx + location + |values|, c);
      }
      FilledGap(store[..], leftIdx, a, values, c);
    }

    // ----- The operations built on it -----

    method AppendValue(value: Item)
      requires Valid() && CanReplace(0, 1)
      modifies this, store
      ensures Valid() && (store == old(store) || fresh(store)) && Contents() == old(Contents()) + [value]
    {
      SpliceAtEnd(Contents(), value);
      ReplaceValues(count, 0, [value]);
    }

    method InsertValueAtIndex(idx: nat, value: Item)
      requires Valid() && idx <= count && CanReplace(0, 1)
      modifies this, store
      ensures Valid() && (store == old(store) || fresh(store))
      ensures Contents() == old(Contents())[..idx] + [value] + old(Contents())[idx..]
    {
      ReplaceValues(idx, 0, [value]);
    }

    method RemoveValueAtIndex(idx: nat)
      requires Valid() && idx < count && CanReplace(1, 0)
      modifies this, store
      ensures Valid() && (store == old(store) || fresh(store))
      ensures Contents() == old(Contents())[..idx] + old(Contents())[idx + 1..]
    {
      SpliceOut(Contents(), idx);
      ReplaceValues(idx, 1, []);
    }

    function ValueAtIndex(idx: nat): (value: Item)
      requires Shaped() && idx < count
      reads this`count, this`leftIdx, this`store, store
      ensures value == Contents()[idx]
    {
      store[leftIdx + idx]
    }

    method Assign(idx: nat, value: Item)
      requires Shaped() && idx < count
      modifies store
      ensures Shaped() && Contents() == old(Contents())[idx := value]
    {
      store[leftIdx + idx] := value;
    }

    /** Changes one value in place; the index behind the last one appends. */
    method SetValueAtIndex(idx: nat, value: Item)
      requires Valid() && idx <= count && (idx == count ==> CanReplace(0, 1))
      modifies this, store
      ensures Valid() && (store == old(store) || fresh(store))
      ensures Contents() == if idx == old(count) then old(Contents()) + [value] else old(Contents())[idx := value]
    {
      if idx == count {
        AppendValue(value);
      } else {
        SetInPlace(idx, value);
      }
    }

    method SetInPlace(idx: nat, value: Item)
      requires Valid() && idx < count
      modifies this`retained, this`released, store
      ensures Valid() && Contents() == old(Contents())[idx := value]
    {
      ghost var s, kept, gone := Contents(), retained, released;
      retained := retained + multiset{value};
      var oldValue := ValueAtIndex(idx);
      Assign(idx, value);
      released := released + multiset{oldValue};
      BalanceUpdate(s, idx, value, kept, gone);
    }

    /** Swaps two values without retaining or releasing anything. */
    method ExchangeValuesAtIndices(idx1: nat, idx2: nat)
      requires Valid() && idx1 < count && idx2 < count
      modifies store
      ensures Valid() && Contents() == Swapped(old(Contents()), idx1, idx2)
      ensures Contents() == old(Contents())[idx1 := old(Contents())[idx2]][idx2 := old(Contents())[idx1]]
    {
      SwappedCounts(Contents(), idx1, idx2);
      var tmp := ValueAtIndex(idx1);
      Assign(idx1, ValueAtIndex(idx2));
      Assign(idx2, tmp);
    }

    /** Releases everything that is stored and gives the store away. */
    method RemoveAllValues()
      requires Valid()
      modifies this, store
      ensures Valid() && store == null && Contents() == [] && retained == released
    {
      ghost var s := Contents();
      assert [] + s + [] == s;
      ReleaseValues(0, count, true, [], s, []);
      count := 0;
    }

    method CopyAll(deque: array<Item>)
      requires Shaped() && store != null && deque != store && store.Length <= deque.Length
      modifies deque
      ensures deque[leftIdx..leftIdx + count] == Contents()
    {
      var all := store[..];
      Copy(deque, 0, all, 0, [], 0, []);
      SubSlice(deque[..], 0, |all|, leftIdx, leftIdx + count);
      assert deque[..][leftIdx..leftIdx + count] == all[leftIdx..leftIdx + count];
    }

    /** Moves to a store that is at least as large. */
    method SetCapacity(capacity: nat)
      requires Valid() && count <= capacity < MAX_CAPACITY &&
               (store != null ==> store.Length <= RoundUpCapacity(capacity))
      modifies this`leftIdx, this`store
      ensures Valid() && store != null && fresh(store) && Contents() == old(Contents()) && capacity < store.Length
    {
      RoundUpBounds(capacity);
      MoveTo(RoundUpCapacity(capacity));
    }

    method MoveTo(capacity: nat)
      requires Shaped() && count < capacity <= MAX_CAPACITY && (store != null ==> store.Length <= capacity)
      modifies this`leftIdx, this`store
      ensures Shaped() && store != null && fresh(store) && Contents() == old(Contents()) && store.Length == capacity
    {
      var deque := new Item[capacity];
      if store == null {
        leftIdx := capacity / 2;
      } else {
        CopyAll(deque);
      }
      store := deque;
    }
  }
}
