/** Runs of additions and removals on a heap. */
module HeapRuns {
  import opened Orders
  import opened Heap

  datatype Op = Add(value: Item) | Remove

  /** A least value of a multiset. */
  ghost predicate Least(cmp: Compare, bag: multiset<Item>, value: Item) {
    value in bag && forall v | v in bag :: cmp(value, v) != 1
  }

  /** What one operation does to the values; a removal takes a least one, and NULL of nothing. */
  ghost predicate Step(cmp: Compare, op: Op, before: multiset<Item>, after: multiset<Item>, taken: Item) {
    match op
    case Add(value) => after == before + multiset{value} && taken == 0
    case Remove =>
      if before == multiset{} then after == before && taken == 0
      else Least(cmp, before, taken) && after == before - multiset{taken}
  }

  /** `bags` are the values before each operation and at the end, `taken` what each operation took. */
  ghost predicate IsRun(cmp: Compare, ops: seq<Op>, bags: seq<multiset<Item>>, taken: seq<Item>) {
    && |bags| == |ops| + 1 && |taken| == |ops|
    && forall i | 0 <= i < |ops| :: Step(cmp, ops[i], bags[i], bags[i + 1], taken[i])
  }

  /** How many values there are after a run. */
  function Size(n: nat, ops: seq<Op>): nat {
    if ops == [] then n
    else
      var m := Size(n, ops[..|ops| - 1]);
      if ops[|ops| - 1].Add? then m + 1 else if m == 0 then 0 else m - 1
  }

  predicate RunFits(n: nat, ops: seq<Op>) {
    forall i | 0 <= i < |ops| && ops[i].Add? :: Size(n, ops[..i]) + 1 < MAX_CAPACITY
  }

  method Perform(h: BinaryHeap, op: Op) returns (taken: Item)
    requires h.Valid() && (op.Add? ==> h.count + 1 < MAX_CAPACITY)
    modifies h, h.buckets
    ensures h.Valid() && (h.buckets == old(h.buckets) || fresh(h.buckets))
    ensures Step(h.cmp, op, old(multiset(h.Values())), multiset(h.Values()), taken)
    ensures h.count == if op.Add? then old(h.count) + 1 else if old(h.count) == 0 then 0 else old(h.count) - 1
  {
    match op
    case Add(value) =>
      taken := 0;
      h.AddValue(value);
    case Remove =>
      ghost var s := h.Values();
      taken := h.GetMinimum();
      assert h.count > 0 ==> s[0] in multiset(s);
      h.RemoveMinimumValue();
  }

  lemma RunGrows(cmp: Compare, ops: seq<Op>, bags: seq<multiset<Item>>, taken: seq<Item>, after: multiset<Item>,
                 last: Item)
    requires ops != [] && IsRun(cmp, ops[..|ops| - 1], bags, taken)
    requires Step(cmp, ops[|ops| - 1], bags[|ops| - 1], after, last)
    ensures IsRun(cmp, ops, bags + [after], taken + [last])
  {
  }

  /** Every run keeps heap order and exactly the values that are added and not taken. */
  method Replay(h: BinaryHeap, ops: seq<Op>) returns (taken: seq<Item>, ghost bags: seq<multiset<Item>>)
    requires h.Valid() && RunFits(h.count, ops)
    modifies h, h.buckets
    ensures h.Valid() && (h.buckets == old(h.buckets) || fresh(h.buckets)) && h.count == Size(old(h.count), ops)
    ensures IsRun(h.cmp, ops, bags, taken)
    ensures bags[0] == old(multiset(h.Values())) && bags[|ops|] == multiset(h.Values())
    decreases |ops|
  {
    if ops == [] {
      taken, bags := [], [multiset(h.Values())];
    } else {
      var init := ops[..|ops| - 1];
      assert forall i | 0 <= i < |init| :: init[..i] == ops[..i];
      taken, bags := Replay(h, init);
      var last := Perform(h, ops[|ops| - 1]);
      RunGrows(h.cmp, ops, bags, taken, multiset(h.Values()), last);
      taken, bags := taken + [last], bags + [multiset(h.Values())];
    }
  }

  // ----- What every run has in common -----

  ghost function Added(ops: seq<Op>): multiset<Item> {
    if ops == [] then multiset{}
    else
      var m := Added(ops[..|ops| - 1]);
      if ops[|ops| - 1].Add? then m + multiset{ops[|ops| - 1].value} else m
  }

  /** What the removals took. */
  ghost function Removed(ops: seq<Op>, bags: seq<multiset<Item>>, taken: seq<Item>): multiset<Item>
    requires |taken| == |ops| <= |bags|
  {
    if ops == [] then multiset{}
    else
      var n := |ops| - 1;
      var m := Removed(ops[..n], bags, taken[..n]);
      if ops[n].Remove? && bags[n] != multiset{} then m + multiset{taken[n]} else m
  }

  /** Nothing is lost and nothing comes from nowhere. */
  lemma {:induction false} Conserved(cmp: Compare, ops: seq<Op>, bags: seq<multiset<Item>>, taken: seq<Item>)
    requires IsRun(cmp, ops, bags, taken)
    ensures bags[|ops|] + Removed(ops, bags, taken) == bags[0] + Added(ops)
    decreases |ops|
  {
    if ops != [] {
      var n := |ops| - 1;
      Conserved(cmp, ops[..n], bags[..|ops|], taken[..n]);
      RemovedPart(ops[..n], bags, bags[..|ops|], taken[..n]);
      assert Step(cmp, ops[n], bags[n], bags[n + 1], taken[n]);
    }
  }

  lemma {:induction false} RemovedPart(ops: seq<Op>, bags: seq<multiset<Item>>, part: seq<multiset<Item>>,
                                       taken: seq<Item>)
    requires |taken| == |ops| <= |part| <= |bags| && part == bags[..|part|]
    ensures Removed(ops, bags, taken) == Removed(ops, part, taken)
    decreases |ops|
  {
    if ops != [] {
      RemovedPart(ops[..|ops| - 1], bags, part, taken[..|ops| - 1]);
    }
  }

  /** Different values never compare as equal. */
  ghost predicate Antisymmetric(cmp: Compare) {
    forall a, b :: !After(cmp, a, b) && !After(cmp, b, a) ==> a == b
  }

  lemma LeastIsOne(cmp: Compare, bag: multiset<Item>, a: Item, b: Item)
    requires Antisymmetric(cmp) && Least(cmp, bag, a) && Least(cmp, bag, b)
    ensures a == b
  {
    assert !After(cmp, a, b) && !After(cmp, b, a);
  }

  lemma StepAgrees(cmp: Compare, op: Op, before: multiset<Item>, after: multiset<Item>, taken: Item,
                   after': multiset<Item>, taken': Item)
    requires Antisymmetric(cmp) && Step(cmp, op, before, after, taken) && Step(cmp, op, before, after', taken')
    ensures after == after' && taken == taken'
  {
    if op.Remove? && before != multiset{} {
      LeastIsOne(cmp, before, taken, taken');
    }
  }

  lemma NextAgrees(cmp: Compare, ops: seq<Op>, bags: seq<multiset<Item>>, taken: seq<Item>,
                   bags': seq<multiset<Item>>, taken': seq<Item>, i: nat)
    requires Antisymmetric(cmp) && IsRun(cmp, ops, bags, taken) && IsRun(cmp, ops, bags', taken')
    requires i < |ops| && bags[i] == bags'[i]
    ensures bags[i + 1] == bags'[i + 1] && taken[i] == taken'[i]
  {
    StepAgrees(cmp, ops[i], bags[i], bags[i + 1], taken[i], bags'[i + 1], taken'[i]);
  }

  lemma {:induction false} BagsAgree(cmp: Compare, ops: seq<Op>, bags: seq<multiset<Item>>, taken: seq<Item>,
                                     bags': seq<multiset<Item>>, taken': seq<Item>, i: nat)
    requires Antisymmetric(cmp) && IsRun(cmp, ops, bags, taken) && IsRun(cmp, ops, bags', taken')
    requires bags[0] == bags'[0] && i <= |ops|
    ensures bags[i] == bags'[i]
  {
    if i > 0 {
      BagsAgree(cmp, ops, bags, taken, bags', taken', i - 1);
      NextAgrees(cmp, ops, bags, taken, bags', taken', i - 1);
    }
  }

  /** Then a run of operations leaves no choice: what is taken and what is left depend on nothing but the run. */
  lemma RunsAgree(cmp: Compare, ops: seq<Op>, bags: seq<multiset<Item>>, taken: seq<Item>,
                  bags': seq<multiset<Item>>, taken': seq<Item>)
    requires Antisymmetric(cmp) && IsRun(cmp, ops, bags, taken) && IsRun(cmp, ops, bags', taken')
    requires bags[0] == bags'[0]
    ensures bags == bags' && taken == taken'
  {
    forall i | 0 <= i <= |ops| ensures bags[i] == bags'[i] {
      BagsAgree(cmp, ops, bags, taken, bags', taken', i);
    }
    forall i | 0 <= i < |ops| ensures taken[i] == taken'[i] {
      NextAgrees(cmp, ops, bags, taken, bags', taken', i);
    }
  }

  lemma {:induction false} RemovalsShrink(cmp: Compare, ops: seq<Op>, bags: seq<multiset<Item>>, taken: seq<Item>,
                                          i: nat, j: nat)
    requires IsRun(cmp, ops, bags, taken) && i <= j <= |ops| && forall k | i <= k < j :: ops[k].Remove?
    ensures bags[j] <= bags[i]
    decreases j
  {
    if i < j {
      RemovalsShrink(cmp, ops, bags, taken, i, j - 1);
      assert Step(cmp, ops[j - 1], bags[j - 1], bags[j], taken[j - 1]);
    }
  }

  /** Removals without an addition between them take values in ascending order. */
  lemma RemovalsAscend(cmp: Compare, ops: seq<Op>, bags: seq<multiset<Item>>, taken: seq<Item>, i: nat, j: nat)
    requires IsRun(cmp, ops, bags, taken) && i < j < |ops| && (forall k | i <= k <= j :: ops[k].Remove?)
    requires bags[j] != multiset{}
    ensures cmp(taken[i], taken[j]) != 1
  {
    RemovalsShrink(cmp, ops, bags, taken, i, j);
    assert Step(cmp, ops[i], bags[i], bags[i + 1], taken[i]) && Step(cmp, ops[j], bags[j], bags[j + 1], taken[j]);
    assert taken[j] in bags[i];
  }
}
