/** What tables are used for: multisets, equality of two tables, and numbering the keys of a list. */
module HashRuns {
  import opened Bytes
  import opened HashSlots
  import opened HashTable

  // ----- Runs -----

  datatype Op =
    | Add(key: Word, value: Word)
    | Set(key: Word, value: Word)
    | Replace(key: Word, value: Word)
    | Remove(key: Word)
    | RemoveAll
    | Reserve(capacity: nat)

  /** What one operation means. */
  ghost function Apply(m: map<Word, Entry>, op: Op, counting: bool): map<Word, Entry> {
    match op
    case Add(key, value) => Plus(m, key, value, counting)
    case Set(key, value) => m[key := Entry(value, if key in m then m[key].count else 1)]
    case Replace(key, value) => if key in m then m[key := Entry(value, m[key].count)] else m
    case Remove(key) => Minus(m, key)
    case RemoveAll => map[]
    case Reserve(_) => m
  }

  ghost function Run(m: map<Word, Entry>, ops: seq<Op>, counting: bool): map<Word, Entry> {
    if ops == [] then m else Apply(Run(m, ops[..|ops| - 1], counting), ops[|ops| - 1], counting)
  }

  ghost function LastCapacity(g: Growth): nat {
    if g.capacities == [] then 0 else g.capacities[|g.capacities| - 1]
  }

  /** A number of entries that a table can always grow to: the last capacity, or the one before it if growth is fast. */
  ghost function MaxEntries(g: Growth, fast: bool): nat {
    if !fast then LastCapacity(g) else if |g.capacities| > 1 then g.capacities[|g.capacities| - 2] else 0
  }

  /** Words that can be stored. */
  ghost predicate Permitted(op: Op, withKeys: bool) {
    match op
    case Add(key, value) => Usable(key) && Usable(value) && (!withKeys ==> key == value)
    case Set(key, value) => Usable(key) && Usable(value) && (!withKeys ==> key == value)
    case Replace(key, value) => Usable(key) && Usable(value) && (!withKeys ==> key == value)
    case _ => true
  }

  /** The table can grow for a key that is new, and to a capacity that is asked for. */
  ghost predicate StepFits(m: map<Word, Entry>, op: Op, g: Growth, fast: bool) {
    match op
    case Add(key, _) => key in m || |m| < MaxEntries(g, fast)
    case Set(key, _) => key in m || |m| < MaxEntries(g, fast)
    case Reserve(capacity) => capacity <= LastCapacity(g) && (capacity == |m| + 1 ==> capacity <= MaxEntries(g, fast))
    case _ => true
  }

  lemma UsedIsSize(t: Table)
    requires t.Valid()
    ensures t.usedBuckets == |t.Model()|
  {
    WellPlacedMeans(t.hash, t.slots);
    ContentsSize(t.slots);
  }

  /** The table has room for the operation or can be rebuilt with it; the source halts otherwise. */
  ghost predicate HasRoomFor(t: Table, op: Op)
    requires t.Valid()
    reads t, t.values, t.keys, t.counts
  {
    match op
    case Add(key, _) => key in t.Model() || t.HasRoom()
    case Set(key, _) => key in t.Model() || t.HasRoom()
    case Reserve(capacity) => t.usedBuckets < capacity ==> t.CanGrow(capacity - t.usedBuckets)
    case _ => true
  }

  lemma FittingHasRoom(t: Table, op: Op)
    requires t.Valid() && StepFits(t.Model(), op, t.growth, t.fastGrow)
    ensures HasRoomFor(t, op)
  {
    UsedIsSize(t);
  }

  method CheckGrowth(t: Table, extra: nat) returns (can: bool)
    requires t.Valid()
    ensures can == t.CanGrow(extra)
  {
    var caps := t.growth.capacities;
    can := t.usedBuckets + extra <= caps[|caps| - 1] &&
           (extra == 1 && t.fastGrow ==> |caps| > 1 && t.usedBuckets + 1 <= caps[|caps| - 2]);
  }

  method CheckNewKey(t: Table, key: Word) returns (room: bool)
    requires t.Valid()
    ensures room == (key in t.Model() || t.HasRoom())
  {
    var _, count := t.Locate(key);
    var can := CheckGrowth(t, 1);
    room := 0 < count || t.usedBuckets < t.growth.capacities[t.numBucketsIdx] || can;
  }

  method CheckRoom(t: Table, op: Op) returns (room: bool)
    requires t.Valid()
    ensures room == HasRoomFor(t, op)
  {
    room := true;
    match op
    case Add(key, _) => room := CheckNewKey(t, key);
    case Set(key, _) => room := CheckNewKey(t, key);
    case Reserve(capacity) =>
      if t.usedBuckets < capacity {
        room := CheckGrowth(t, capacity - t.usedBuckets);
      }
    case _ =>
  }

  method Do(t: Table, op: Op)
    requires t.Valid() && Permitted(op, t.hasKeys) && HasRoomFor(t, op)
    modifies t.Repr()
    ensures t.Valid() && fresh(t.Repr() - old(t.Repr())) && t.Model() == Apply(old(t.Model()), op, t.hasCounts)
  {
    match op
    case Add(key, value) => var _ := t.AddValue(key, value);
    case Set(key, value) => t.SetValue(key, value);
    case Replace(key, value) => t.ReplaceValue(key, value);
    case Remove(key) => var _ := t.RemoveValue(key);
    case RemoveAll => t.RemoveAllValues();
    case Reserve(capacity) => t.SetCapacity(capacity);
  }

  ghost predicate RunFits(m: map<Word, Entry>, ops: seq<Op>, counting: bool, g: Growth, fast: bool) {
    forall i | 0 <= i < |ops| :: StepFits(Run(m, ops[..i], counting), ops[i], g, fast)
  }

  /**
   Every run of operations, however long, does to the table what it does to the map, up to the
   operation for which there is no room and no size to grow to. A run that fits the growth table
   is done to its end.
   */
  method Replay(t: Table, ops: seq<Op>) returns (done: nat)
    requires t.Valid() && (forall i | 0 <= i < |ops| :: Permitted(ops[i], t.hasKeys))
    modifies t.Repr()
    ensures t.Valid() && fresh(t.Repr() - old(t.Repr()))
    ensures done <= |ops| && t.Model() == Run(old(t.Model()), ops[..done], t.hasCounts)
    ensures done < |ops| ==> !HasRoomFor(t, ops[done])
    ensures RunFits(old(t.Model()), ops, t.hasCounts, t.growth, t.fastGrow) ==> done == |ops|
  {
    ghost var m := t.Model();
    ghost var fits := RunFits(m, ops, t.hasCounts, t.growth, t.fastGrow);
    assert ops[..0] == [];
    done := ReplayFrom(t, ops, 0, m, fits);
  }

  /** What is new at the end was new in between or is new since. */
  lemma NewBetween(a: set<object>, b: set<object>, c: set<object>)
    ensures c - a <= (c - b) + (b - a)
  {
  }

  /** The operations from `i` on. */
  method ReplayFrom(t: Table, ops: seq<Op>, i: nat, ghost m: map<Word, Entry>, ghost fits: bool) returns (done: nat)
    requires t.Valid() && (forall j | 0 <= j < |ops| :: Permitted(ops[j], t.hasKeys))
    requires i <= |ops| && t.Model() == Run(m, ops[..i], t.hasCounts)
    requires fits ==> RunFits(m, ops, t.hasCounts, t.growth, t.fastGrow)
    modifies t.Repr()
    ensures t.Valid() && fresh(t.Repr() - old(t.Repr()))
    ensures done <= |ops| && t.Model() == Run(m, ops[..done], t.hasCounts)
    ensures done < |ops| ==> !HasRoomFor(t, ops[done])
    ensures fits ==> done == |ops|
    decreases |ops| - i
  {
    done := i;
    if i < |ops| {
      var took := ReplayNext(t, ops, i, m, fits);
      if took {
        ghost var between := t.Repr();
        done := ReplayFrom(t, ops, i + 1, m, fits);
        NewBetween(old(t.Repr()), between, t.Repr());
      }
    }
  }

  lemma RunNext(m: map<Word, Entry>, ops: seq<Op>, i: nat, counting: bool)
    requires i < |ops|
    ensures Run(m, ops[..i + 1], counting) == Apply(Run(m, ops[..i], counting), ops[i], counting)
  {
    assert ops[..i + 1][..i] == ops[..i];
  }

  /** Operation `i`, if there is room for it. */
  method ReplayNext(t: Table, ops: seq<Op>, i: nat, ghost m: map<Word, Entry>, ghost fits: bool) returns (took: bool)
    requires t.Valid() && i < |ops| && Permitted(ops[i], t.hasKeys) && t.Model() == Run(m, ops[..i], t.hasCounts)
    requires fits ==> StepFits(t.Model(), ops[i], t.growth, t.fastGrow)
    modifies t.Repr()
    ensures t.Valid() && fresh(t.Repr() - old(t.Repr())) && (fits ==> took)
    ensures t.Model() == Run(m, ops[..if took then i + 1 else i], t.hasCounts)
    ensures !took ==> !HasRoomFor(t, ops[i])
  {
    if fits {
      FittingHasRoom(t, ops[i]);
    }
    took := CheckRoom(t, ops[i]);
    if took {
      RunNext(m, ops, i, t.hasCounts);
      Do(t, ops[i]);
    }
  }

  // ----- A counting table is a multiset -----

  ghost function Times(m: map<Word, Entry>, key: Word): nat {
    if key in m then m[key].count else 0
  }

  /** One operation on a multiset. */
  ghost function BagApply(b: multiset<Word>, op: Op): multiset<Word> {
    match op
    case Add(key, _) => b + multiset{key}
    case Set(key, _) => if key in b then b else b + multiset{key}
    case Replace(_, _) => b
    case Remove(key) => b - multiset{key}
    case RemoveAll => multiset{}
    case Reserve(_) => b
  }

  ghost function BagRun(ops: seq<Op>): multiset<Word> {
    if ops == [] then multiset{} else BagApply(BagRun(ops[..|ops| - 1]), ops[|ops| - 1])
  }

  /** A key has its multiplicity as its count. */
  ghost predicate Counts(m: map<Word, Entry>, b: multiset<Word>, key: Word) {
    Times(m, key) == b[key] && (key in m ==> m[key].count > 0)
  }

  lemma PlusCounts(m: map<Word, Entry>, b: multiset<Word>, k: Word, value: Word, key: Word)
    requires Counts(m, b, key) && (b + multiset{k})[key] < LONG_MAX
    ensures Counts(Plus(m, k, value, true), b + multiset{k}, key)
  {
  }

  lemma MinusCounts(m: map<Word, Entry>, b: multiset<Word>, k: Word, key: Word)
    requires Counts(m, b, key) && b[key] < LONG_MAX
    ensures Counts(Minus(m, k), b - multiset{k}, key)
  {
  }

  lemma ApplyCounts(m: map<Word, Entry>, b: multiset<Word>, op: Op, key: Word)
    requires Counts(m, b, key) && b[key] < LONG_MAX && BagApply(b, op)[key] < LONG_MAX
    ensures Counts(Apply(m, op, true), BagApply(b, op), key)
  {
    match op
    case Add(k, value) => PlusCounts(m, b, k, value, key);
    case Remove(k) => MinusCounts(m, b, k, key);
    case _ =>
  }

  /** The key never has as many occurrences as a counter can show. */
  ghost predicate BelowLimit(ops: seq<Op>, key: Word) {
    forall i | 0 <= i <= |ops| :: BagRun(ops[..i])[key] < LONG_MAX
  }

  /** As long as its counter does not reach the limit, every run gives a key the multiplicity it has in the multiset. */
  lemma {:induction false} RunIsBagRun(ops: seq<Op>, key: Word)
    requires BelowLimit(ops, key)
    ensures Counts(Run(map[], ops, true), BagRun(ops), key)
  {
    if ops != [] {
      var init := ops[..|ops| - 1];
      forall i | 0 <= i <= |init| ensures BagRun(init[..i])[key] < LONG_MAX {
        assert init[..i] == ops[..i];
      }
      RunIsBagRun(init, key);
      assert ops[..|ops|] == ops && init[..|init|] == init;
      ApplyCounts(Run(map[], init, true), BagRun(init), ops[|ops| - 1], key);
    }
  }

  // ----- The value of a key after a run -----

  /** The key goes: it is removed, in a table without counts, or everything is. */
  ghost predicate Clears(op: Op, key: Word) {
    op.RemoveAll? || (op.Remove? && op.key == key)
  }

  /** The key is there after it, whatever was before. */
  ghost predicate Makes(op: Op, key: Word) {
    (op.Add? || op.Set?) && op.key == key
  }

  /** Among the first `n` operations one adds or sets the key, and none behind it clears it. */
  ghost predicate AliveAt(ops: seq<Op>, key: Word, n: nat)
    requires n <= |ops|
  {
    exists i :: 0 <= i < n && Makes(ops[i], key) && UnclearedFrom(ops, key, i + 1, n)
  }

  ghost predicate UnclearedFrom(ops: seq<Op>, key: Word, i: nat, n: nat)
    requires n <= |ops|
  {
    forall j | i <= j < n :: !Clears(ops[j], key)
  }

  /** The key is there in front of operation `n`: in the multiset, or, without counts, since it was last made. */
  ghost predicate PresentAt(ops: seq<Op>, key: Word, n: nat, counting: bool)
    requires n <= |ops|
  {
    if counting then BagRun(ops[..n])[key] > 0 else AliveAt(ops, key, n)
  }

  /** Operation `j` gives the key its value: a set, a replacement that finds it, or an addition that does not. */
  ghost predicate Writes(ops: seq<Op>, key: Word, j: nat, counting: bool)
    requires j < |ops|
  {
    match ops[j]
    case Set(k, _) => k == key
    case Replace(k, _) => k == key && PresentAt(ops, key, j, counting)
    case Add(k, _) => k == key && !PresentAt(ops, key, j, counting)
    case _ => false
  }

  /** Operation `j` is the last of the first `n` that gives the key its value. */
  ghost predicate LastWrite(ops: seq<Op>, key: Word, j: nat, n: nat, counting: bool)
    requires n <= |ops|
  {
    j < n && Writes(ops, key, j, counting) && forall i | j < i < n :: !Writes(ops, key, i, counting)
  }

  lemma AliveNext(ops: seq<Op>, key: Word, n: nat)
    requires n < |ops|
    ensures AliveAt(ops, key, n + 1)
            <==> Makes(ops[n], key) || (AliveAt(ops, key, n) && !Clears(ops[n], key))
  {
    if Makes(ops[n], key) {
      assert UnclearedFrom(ops, key, n + 1, n + 1);
    }
    if AliveAt(ops, key, n) && !Clears(ops[n], key) {
      var i :| 0 <= i < n && Makes(ops[i], key) && UnclearedFrom(ops, key, i + 1, n);
      assert UnclearedFrom(ops, key, i + 1, n + 1);
    }
    if i :| 0 <= i < n + 1 && Makes(ops[i], key) && UnclearedFrom(ops, key, i + 1, n + 1) {
      if i < n {
        assert UnclearedFrom(ops, key, i + 1, n);
      }
    }
  }

  lemma {:induction false} OneEach(ops: seq<Op>, n: nat)
    requires n <= |ops|
    ensures forall k | k in Run(map[], ops[..n], false) :: Run(map[], ops[..n], false)[k].count == 1
  {
    if n > 0 {
      OneEach(ops, n - 1);
      RunNext(map[], ops, n - 1, false);
    }
  }

  lemma {:induction false} PresentIff(ops: seq<Op>, key: Word, n: nat, counting: bool)
    requires n <= |ops| && (counting ==> BelowLimit(ops, key))
    ensures key in Run(map[], ops[..n], counting) <==> PresentAt(ops, key, n, counting)
  {
    if counting {
      assert forall i | 0 <= i <= n :: ops[..n][..i] == ops[..i];
      RunIsBagRun(ops[..n], key);
    } else if n > 0 {
      PresentIff(ops, key, n - 1, counting);
      AliveNext(ops, key, n - 1);
      OneEach(ops, n - 1);
      RunNext(map[], ops, n - 1, false);
    }
  }

  lemma ValueNext(ops: seq<Op>, key: Word, n: nat, counting: bool, m: map<Word, Entry>)
    requires n < |ops| && m == Run(map[], ops[..n], counting) && (key in m <==> PresentAt(ops, key, n, counting))
    requires key in Apply(m, ops[n], counting)
    ensures Writes(ops, key, n, counting) ==> Apply(m, ops[n], counting)[key].value == ops[n].value
    ensures !Writes(ops, key, n, counting) ==> key in m && Apply(m, ops[n], counting)[key].value == m[key].value
  {
  }

  /** Writes go on from `n` to `n + 1`. */
  lemma LastWriteNext(ops: seq<Op>, key: Word, j: nat, n: nat, counting: bool)
    requires n < |ops|
    ensures Writes(ops, key, n, counting) ==> LastWrite(ops, key, n, n + 1, counting)
    ensures !Writes(ops, key, n, counting) && LastWrite(ops, key, j, n, counting)
            ==> LastWrite(ops, key, j, n + 1, counting)
  {
  }

  /** Of the operations of any run, the last that gives a key its value says what it is. */
  lemma {:induction false} RunValue(ops: seq<Op>, key: Word, n: nat, counting: bool) returns (j: nat)
    requires n <= |ops| && (counting ==> BelowLimit(ops, key))
    ensures key in Run(map[], ops[..n], counting) <==> PresentAt(ops, key, n, counting)
    ensures PresentAt(ops, key, n, counting) ==>
              LastWrite(ops, key, j, n, counting) && Run(map[], ops[..n], counting)[key].value == ops[j].value
  {
    j := 0;
    PresentIff(ops, key, n, counting);
    if n > 0 && PresentAt(ops, key, n, counting) {
      j := RunValue(ops, key, n - 1, counting);
      RunNext(map[], ops, n - 1, counting);
      ValueNext(ops, key, n - 1, counting, Run(map[], ops[..n - 1], counting));
      LastWriteNext(ops, key, j, n - 1, counting);
      if Writes(ops, key, n - 1, counting) {
        j := n - 1;
      }
    }
  }

  /** In a counting table, keys whose counter stays below its limit. */
  ghost predicate Tracked(ops: seq<Op>, key: Word, counting: bool) {
    counting ==> BelowLimit(ops, key)
  }

  /** Whether the key is there, and the value that its last write gave it. */
  ghost predicate Told(ops: seq<Op>, key: Word, n: nat, counting: bool, m: map<Word, Entry>) {
    && n <= |ops| && (key in m <==> PresentAt(ops, key, n, counting))
    && (key in m ==> exists j: nat :: LastWrite(ops, key, j, n, counting) && m[key].value == ops[j].value)
  }

  lemma RunTold(ops: seq<Op>, key: Word, n: nat, counting: bool)
    requires n <= |ops| && Tracked(ops, key, counting)
    ensures Told(ops, key, n, counting, Run(map[], ops[..n], counting))
  {
    var j := RunValue(ops, key, n, counting);
  }

  /** A table of either kind, from its creation through any run of operations: which keys it has and their values. */
  method KeyedRun(h: Hash, g: Growth, withKeys: bool, counting: bool, fast: bool, ops: seq<Op>)
    returns (t: Table, done: nat)
    requires GrowthOk(g) && forall i | 0 <= i < |ops| :: Permitted(ops[i], withKeys)
    ensures t.Valid() && done <= |ops| && (done < |ops| ==> !HasRoomFor(t, ops[done]))
    ensures RunFits(map[], ops, counting, g, fast) ==> done == |ops|
    ensures forall key | Tracked(ops, key, counting) :: Told(ops, key, done, counting, t.Model())
  {
    t := new Table(h, g, withKeys, counting, fast);
    done := Replay(t, ops);
    forall key | Tracked(ops, key, counting) ensures Told(ops, key, done, counting, t.Model()) {
      RunTold(ops, key, done, counting);
    }
  }

  /** A counting table, from its creation through any run of operations: each key has its multiplicity as its count. */
  method CountingRun(h: Hash, g: Growth, withKeys: bool, fast: bool, ops: seq<Op>) returns (t: Table, done: nat)
    requires GrowthOk(g) && forall i | 0 <= i < |ops| :: Permitted(ops[i], withKeys)
    ensures t.Valid() && t.hasCounts && t.hash == h && t.growth == g && t.hasKeys == withKeys
    ensures done <= |ops| && t.Model() == Run(map[], ops[..done], true)
    ensures done < |ops| ==> !HasRoomFor(t, ops[done])
    ensures RunFits(map[], ops, true, g, fast) ==> done == |ops|
    ensures forall key | BelowLimit(ops[..done], key) :: Times(t.Model(), key) == BagRun(ops[..done])[key]
  {
    t := new Table(h, g, withKeys, true, fast);
    done := Replay(t, ops);
    forall key | BelowLimit(ops[..done], key) ensures Times(t.Model(), key) == BagRun(ops[..done])[key] {
      RunIsBagRun(ops[..done], key);
    }
  }

  lemma TotalNext(s: seq<Slot>, bag: multiset<Word>, key: Word)
    requires s != [] && DistinctKeys(s) && forall k :: bag[k] == Times(Contents(s), k)
    ensures var x := s[|s| - 1];
            x.Live? ==> bag[x.key] == x.entry.count
                        && bag[x.key := 0][key] == Times(Contents(s[..|s| - 1]), key)
  {
    var x := s[|s| - 1];
    if x.Live? {
      HoldsIffContents(s[..|s| - 1], x.key);
    }
  }

  /** The total is the size of the multiset. */
  lemma {:induction false} TotalIsSize(s: seq<Slot>, bag: multiset<Word>)
    requires DistinctKeys(s) && forall k :: bag[k] == Times(Contents(s), k)
    ensures Total(s) == |bag|
  {
    if s == [] {
      assert bag == multiset{};
    } else {
      var n, x := |s| - 1, s[|s| - 1];
      if x.Live? {
        forall k ensures bag[x.key := 0][k] == Times(Contents(s[..n]), k) && bag[x.key] == x.entry.count {
          TotalNext(s, bag, k);
        }
        TotalIsSize(s[..n], bag[x.key := 0]);
      } else {
        TotalIsSize(s[..n], bag);
      }
    }
  }

  /** What a counting table answers when asked how many there are, after any run that no counter hits the limit in. */
  method CountAll(t: Table, ghost ops: seq<Op>) returns (total: nat)
    requires t.Valid() && t.Model() == Run(map[], ops, true) && forall key :: BelowLimit(ops, key)
    ensures total == |BagRun(ops)|
  {
    total := t.GetCount();
    forall key ensures BagRun(ops)[key] == Times(t.Model(), key) {
      RunIsBagRun(ops, key);
    }
    SlotsCounted(t);
    TotalIsSize(t.slots, BagRun(ops));
  }

  /** Removing takes back an addition, unless the addition brought the counter to its limit, where it sticks. */
  lemma MinusUndoesPlus(m: map<Word, Entry>, key: Word, value: Word)
    requires key in m ==> 1 <= m[key].count <= LONG_MAX
    ensures Minus(Plus(m, key, value, true), key) == m <==> Times(m, key) != LONG_MAX - 1
  {
    var p := Plus(m, key, value, true);
    if key !in m {
      assert Minus(p, key) == m;
    } else if m[key].count < LONG_MAX - 1 {
      assert Minus(p, key) == m[key := m[key]] == m;
    } else if m[key].count == LONG_MAX - 1 {
      assert Minus(p, key)[key].count == LONG_MAX;
    }
  }

  /** A counter at the limit: adding and removing once more leaves it one too high. */
  lemma CountSticks(m: map<Word, Entry>)
    requires m == map[7 := Entry(7, LONG_MAX - 1)]
    ensures Minus(Plus(m, 7, 7, true), 7) == map[7 := Entry(7, LONG_MAX)] && Minus(Plus(m, 7, 7, true), 7) != m
  {
    assert m[7].count != map[7 := Entry(7, LONG_MAX)][7].count;
  }

  // ----- Equality -----

  /** The same keys, equally often, and if values matter the same values. */
  ghost predicate SameEntries(m: map<Word, Entry>, n: map<Word, Entry>, withValues: bool) {
    m.Keys == n.Keys && forall k | k in m :: m[k].count == n[k].count && (withValues ==> m[k].value == n[k].value)
  }

  /** What one slot holds is in the map `n`. */
  ghost predicate Agrees(x: Slot, n: map<Word, Entry>, withValues: bool) {
    x.Live? ==> x.key in n && n[x.key].count == x.entry.count && (withValues ==> n[x.key].value == x.entry.value)
  }

  /** The first `i` slots of `s` agree with the map `n`. */
  ghost predicate AgreeTo(s: seq<Slot>, i: nat, n: map<Word, Entry>, withValues: bool)
    requires i <= |s|
  {
    i == 0 || (AgreeTo(s, i - 1, n, withValues) && Agrees(s[i - 1], n, withValues))
  }

  lemma {:induction false} AllAgree(s: seq<Slot>, i: nat, n: map<Word, Entry>, withValues: bool)
    requires i <= |s|
    ensures AgreeTo(s, i, n, withValues) <==> forall p | 0 <= p < i :: Agrees(s[p], n, withValues)
  {
    if i > 0 {
      AllAgree(s, i - 1, n, withValues);
    }
  }

  /** A one-sided check is enough when the totals are equal. */
  lemma OneSided(s: seq<Slot>, t: seq<Slot>, withValues: bool)
    requires Counted(s) && Counted(t) && Total(s) == Total(t) && AgreeTo(s, |s|, Contents(t), withValues)
    ensures SameEntries(Contents(s), Contents(t), withValues)
  {
    AllAgree(s, |s|, Contents(t), withValues);
    assert Matched(s, t) by {
      assert forall p | 0 <= p < |s| :: Agrees(s[p], Contents(t), withValues);
    }
    MatchedTotals(s, t);
    forall k | k in Contents(s)
      ensures Contents(s)[k].count == Contents(t)[k].count &&
              (withValues ==> Contents(s)[k].value == Contents(t)[k].value)
    {
      HoldsIffContents(s, k);
      var p :| 0 <= p < |s| && s[p].Live? && s[p].key == k;
      ContentsAt(s, p);
      assert Agrees(s[p], Contents(t), withValues);
    }
  }

  lemma SameMatched(s: seq<Slot>, t: seq<Slot>)
    requires Counted(s) && SameEntries(Contents(s), Contents(t), false)
    ensures Matched(s, t)
  {
    forall p | 0 <= p < |s| && s[p].Live?
      ensures s[p].key in Contents(t) && Contents(t)[s[p].key].count == s[p].entry.count
    {
      ContentsAt(s, p);
    }
  }

  /** Equal tables have equal totals. */
  lemma SameTotals(s: seq<Slot>, t: seq<Slot>, withValues: bool)
    requires Counted(s) && Counted(t) && SameEntries(Contents(s), Contents(t), withValues)
    ensures Total(s) == Total(t)
  {
    SameMatched(s, t);
    SameMatched(t, s);
    MatchedTotals(s, t);
    MatchedTotals(t, s);
  }

  lemma SlotsCounted(t: Table)
    requires t.Valid()
    ensures Counted(t.slots)
  {
    WellPlacedMeans(t.hash, t.slots);
    forall p | 0 <= p < |t.slots| && t.slots[p].Live? ensures t.slots[p].entry.count > 0 {
      assert RawOk(t.values[p], t.RawKey(p), t.RawCount(p), t.countsWidth, t.slots[p]);
    }
  }

  /** The entry that `b` has for a key, as its bucket shows it. */
  method Lookup(b: Table, key: Word) returns (count: nat, value: Word)
    requires b.Valid()
    ensures count == Times(b.Model(), key) && (key in b.Model() ==> 0 < count && value == b.Model()[key].value)
  {
    var idx, found := b.Locate(key);
    count, value := found, 0;
    if 0 < count {
      assert RawOk(b.values[idx], b.RawKey(idx), b.RawCount(idx), b.countsWidth, b.slots[idx]);
      value := Decode(b.values[idx]);
    }
  }

  /** Looks one slot of `a` up in `b`. */
  method AgreesAt(a: Table, i: nat, b: Table) returns (live: bool, agrees: bool)
    requires a.Valid() && b.Valid() && i < |a.slots|
    ensures live == a.slots[i].Live? && agrees == Agrees(a.slots[i], b.Model(), a.hasKeys)
  {
    assert RawOk(a.values[i], a.RawKey(i), a.RawCount(i), a.countsWidth, a.slots[i]);
    live := a.values[i] != 0 && a.values[i] != ONES;
    agrees := true;
    if live {
      var count, value := Lookup(b, Decode(a.RawKey(i)));
      agrees := a.RawCount(i) == count && (!a.hasKeys || Decode(a.values[i]) == value);
    }
  }

  /** Compares totals, then looks up in `b` every entry of `a`, until all entries of `a` have been seen. */
  method AreEqual(a: Table, b: Table) returns (equal: bool)
    requires a.Valid() && b.Valid()
    ensures equal == SameEntries(a.Model(), b.Model(), a.hasKeys)
    ensures equal <==> a.Model().Keys == b.Model().Keys
                       && forall k | k in a.Model() :: a.Model()[k].count == b.Model()[k].count
                                                       && (a.hasKeys ==> a.Model()[k].value == b.Model()[k].value)
  {
    SlotsCounted(a);
    SlotsCounted(b);
    ghost var s, t := a.slots, b.slots;
    if SameEntries(Contents(s), Contents(t), a.hasKeys) {
      SameTotals(s, t, a.hasKeys);
    }
    var cnt1 := a.GetCount();
    var cnt2 := b.GetCount();
    if cnt1 != cnt2 {
      return false;
    }
    if cnt1 == 0 {
      NoTotal(s);
      NoTotal(t);
      return true;
    }
    equal := CompareSlots(a, b);
    AllAgree(s, |s|, Contents(t), a.hasKeys);
    if equal {
      OneSided(s, t, a.hasKeys);
    } else {
      ghost var p :| 0 <= p < |s| && !Agrees(s[p], Contents(t), a.hasKeys);
      ContentsAt(s, p);
    }
  }

  method CompareSlots(a: Table, b: Table) returns (equal: bool)
    requires a.Valid() && b.Valid()
    ensures equal == AgreeTo(a.slots, |a.slots|, b.Model(), a.hasKeys)
  {
    ghost var s, n := a.slots, b.Model();
    var used, i := a.usedBuckets, 0;
    equal := true;
    while equal && 0 < used && i < a.values.Length
      invariant 0 <= i <= |s| && Compared(s, i, n, a.hasKeys, used, equal)
      decreases |s| - i
    {
      ghost var before := used;
      var live, agrees := AgreesAt(a, i, b);
      if live {
        used := used - 1;
      }
      equal := agrees;
      ComparedNext(s, i, n, a.hasKeys, before);
      i := i + 1;
    }
    ComparedAll(s, i, n, a.hasKeys, used, equal);
  }

  /** After `i` slots: how many entries are left, and if all agreed so far. */
  ghost predicate Compared(s: seq<Slot>, i: nat, n: map<Word, Entry>, withValues: bool, used: nat, equal: bool)
    requires i <= |s|
  {
    used == LivesFrom(s, i) && equal == AgreeTo(s, i, n, withValues)
  }

  lemma ComparedNext(s: seq<Slot>, i: nat, n: map<Word, Entry>, withValues: bool, used: nat)
    requires i < |s| && Compared(s, i, n, withValues, used, true)
    ensures s[i].Live? ==> used > 0 && Compared(s, i + 1, n, withValues, used - 1, Agrees(s[i], n, withValues))
    ensures !s[i].Live? ==> Compared(s, i + 1, n, withValues, used, true)
  {
    LivesFromNext(s, i);
  }

  lemma ComparedAll(s: seq<Slot>, i: nat, n: map<Word, Entry>, withValues: bool, used: nat, equal: bool)
    requires i <= |s| && Compared(s, i, n, withValues, used, equal) && (equal && 0 < used ==> i == |s|)
    ensures equal == AgreeTo(s, |s|, n, withValues)
  {
    if equal {
      NoneLeft(s, i, n, withValues);
    } else {
      AgreeUpTo(s, i, |s|, n, withValues);
    }
  }

  lemma {:induction false} AgreeUpTo(s: seq<Slot>, i: nat, j: nat, n: map<Word, Entry>, withValues: bool)
    requires i <= j <= |s| && !AgreeTo(s, i, n, withValues)
    ensures !AgreeTo(s, j, n, withValues)
    decreases j
  {
    if i < j {
      AgreeUpTo(s, i, j - 1, n, withValues);
    }
  }

  /** The live slots from `i` on. */
  ghost function LivesFrom(s: seq<Slot>, i: nat): int
    requires i <= |s|
  {
    Lives(s) - Lives(s[..i])
  }

  lemma LivesFromNext(s: seq<Slot>, i: nat)
    requires i < |s|
    ensures LivesFrom(s, i) == LivesFrom(s, i + 1) + (if s[i].Live? then 1 else 0)
    ensures LivesFrom(s, i + 1) >= 0
  {
    assert s[..i + 1][..i] == s[..i];
    LivesPrefix(s, i + 1);
  }

  /** When all live slots have been seen, what is left agrees. */
  lemma {:induction false} NoneLeft(s: seq<Slot>, i: nat, n: map<Word, Entry>, withValues: bool)
    requires i <= |s| && (i == |s| || LivesFrom(s, i) == 0) && AgreeTo(s, i, n, withValues)
    ensures AgreeTo(s, |s|, n, withValues)
    decreases |s| - i
  {
    if i < |s| {
      LivesFromNext(s, i);
      NoneLeft(s, i + 1, n, withValues);
    }
  }

  // ----- Numbering the keys of a list -----

  /** The keys are those of a list without repetition, each with its position as its value. */
  ghost predicate Numbers(m: map<Word, Entry>, list: seq<Word>) {
    && (forall k :: k in m <==> k in list)
    && forall i | 0 <= i < |list| :: list[i] in m && m[list[i]].value == i
  }

  /** Positions far below the words that cannot be stored. */
  lemma NumbersCanShift(m: map<Word, Entry>, list: seq<Word>, up: bool, position: Word)
    requires Numbers(m, list) && |list| < SUB_ONES
    ensures CanShift(up, position, m)
  {
    forall k | k in m ensures m[k].value < |list| {
      var i :| 0 <= i < |list| && list[i] == k;
    }
  }

  /** Inserting a key at a position of the list. */
  lemma InsertedNumbers(m: map<Word, Entry>, list: seq<Word>, key: Word, position: Word)
    requires Numbers(m, list) && |list| < SUB_ONES && key !in m && position <= |list|
    ensures Numbers(Inserted(m, key, position), list[..position] + [key] + list[position..])
  {
    var after, r := list[..position] + [key] + list[position..], Inserted(m, key, position);
    forall i | 0 <= i < |after| ensures after[i] in r && r[after[i]].value == i {
      if i < position {
        assert after[i] == list[i];
      } else if i > position {
        assert after[i] == list[i - 1];
      }
    }
    forall k | k in r ensures k in after {
      if k != key {
        var i :| 0 <= i < |list| && list[i] == k;
        assert after[if i < position then i else i + 1] == k;
      } else {
        assert after[position] == key;
      }
    }
  }

  /** Deleting what lies at a position of the list; the key with that number is the one. */
  lemma WithdrawnNumbers(m: map<Word, Entry>, list: seq<Word>, key: Word, position: Word)
    requires Numbers(m, list) && |list| < SUB_ONES && position < |list| && key in m && m[key].value == position
    ensures key == list[position]
    ensures Numbers(Withdrawn(m, key, position), list[..position] + list[position + 1..])
  {
    var after, r := list[..position] + list[position + 1..], Withdrawn(m, key, position);
    var at :| 0 <= at < |list| && list[at] == key;
    forall i | 0 <= i < |after| ensures after[i] in r && r[after[i]].value == i {
      var j := if i < position then i else i + 1;
      assert after[i] == list[j] && m[list[j]].value == j;
    }
    forall k | k in r ensures k in after {
      var i :| 0 <= i < |list| && list[i] == k;
      assert after[if i < position then i else i - 1] == k;
    }
  }

  datatype Edit = Insert(key: Word, position: nat) | Delete(position: nat)

  /** The position is one of the list, and a key that is inserted is new. */
  predicate EditOk(list: seq<Word>, e: Edit) {
    match e
    case Insert(key, position) => Usable(key) && key !in list && position <= |list|
    case Delete(position) => position < |list|
  }

  function Edited(list: seq<Word>, e: Edit): seq<Word>
    requires EditOk(list, e)
  {
    match e
    case Insert(key, position) => list[..position] + [key] + list[position..]
    case Delete(position) => list[..position] + list[position + 1..]
  }

  /** The list after all edits, of which those that do not fit it do nothing. */
  function AllEdited(list: seq<Word>, edits: seq<Edit>): seq<Word> {
    if edits == [] then list
    else
      var before, e := AllEdited(list, edits[..|edits| - 1]), edits[|edits| - 1];
      if EditOk(before, e) then Edited(before, e) else before
  }

  /** Each edit fits the list that it finds. */
  ghost predicate EditsOk(list: seq<Word>, edits: seq<Edit>) {
    forall i | 0 <= i < |edits| :: EditOk(AllEdited(list, edits[..i]), edits[i])
  }

  /** No insertion makes the list longer than `most`. */
  ghost predicate EditsFit(list: seq<Word>, edits: seq<Edit>, most: nat) {
    forall i | 0 <= i < |edits| && edits[i].Insert? :: |AllEdited(list, edits[..i])| < most
  }

  lemma EditNext(list: seq<Word>, edits: seq<Edit>, i: nat)
    requires i < |edits| && EditOk(AllEdited(list, edits[..i]), edits[i])
    ensures AllEdited(list, edits[..i + 1]) == Edited(AllEdited(list, edits[..i]), edits[i])
  {
    assert edits[..i + 1][..i] == edits[..i];
  }

  /**
   How long a list can get in any table with that growth, with every position below the words that
   cannot be stored.
   */
  ghost function MaxList(g: Growth, fast: bool): nat {
    if MaxEntries(g, fast) < SUB_ONES - 1 then MaxEntries(g, fast) else SUB_ONES - 1
  }

  /** The values number the keys of a list, and every key counts once. */
  ghost predicate Numbered(m: map<Word, Entry>, list: seq<Word>) {
    Numbers(m, list) && forall k | k in m :: m[k].count == 1
  }

  ghost function KeysOf(list: seq<Word>): set<Word> {
    set k | k in list
  }

  lemma {:induction false} DistinctSize(list: seq<Word>)
    requires forall i, j | 0 <= i < j < |list| :: list[i] != list[j]
    ensures |KeysOf(list)| == |list|
  {
    if list != [] {
      var init, last := list[..|list| - 1], list[|list| - 1];
      DistinctSize(init);
      assert KeysOf(list) == KeysOf(init) + {last} && last !in KeysOf(init);
    }
  }

  lemma NumbersSize(m: map<Word, Entry>, list: seq<Word>)
    requires Numbers(m, list)
    ensures |m| == |list|
  {
    forall i, j | 0 <= i < j < |list| ensures list[i] != list[j] {
      assert m[list[i]].value == i && m[list[j]].value == j;
    }
    DistinctSize(list);
    assert m.Keys == KeysOf(list);
  }

  ghost predicate AtPosition(m: map<Word, Entry>, key: Word, position: nat) {
    key in m && m[key].value == position && m[key].count == 1
  }

  /** The first `n` keys have their positions as values. */
  ghost predicate LinedTo(m: map<Word, Entry>, list: seq<Word>, n: nat)
    requires n <= |list|
  {
    n == 0 || (LinedTo(m, list, n - 1) && AtPosition(m, list[n - 1], n - 1))
  }

  /** The same as `Numbered`, one key at a time. */
  ghost predicate Lined(m: map<Word, Entry>, list: seq<Word>) {
    |m| == |list| && LinedTo(m, list, |list|)
  }

  lemma {:induction false} LinedToMeans(m: map<Word, Entry>, list: seq<Word>, n: nat)
    requires n <= |list|
    ensures LinedTo(m, list, n) <==> forall i | 0 <= i < n :: AtPosition(m, list[i], i)
  {
    if n > 0 {
      LinedToMeans(m, list, n - 1);
    }
  }

  lemma SameKeys(a: set<Word>, b: set<Word>)
    requires a <= b && |a| == |b|
    ensures a == b
  {
    assert |b - a| == 0;
  }

  lemma LinedMeans(m: map<Word, Entry>, list: seq<Word>)
    ensures Lined(m, list) <==> Numbered(m, list)
  {
    LinedToMeans(m, list, |list|);
    if Numbered(m, list) {
      NumbersSize(m, list);
      forall i | 0 <= i < |list| ensures AtPosition(m, list[i], i) {
      }
    }
    if Lined(m, list) {
      forall i, j | 0 <= i < j < |list| ensures list[i] != list[j] {
        assert AtPosition(m, list[i], i) && AtPosition(m, list[j], j);
      }
      DistinctSize(list);
      assert forall i | 0 <= i < |list| :: AtPosition(m, list[i], i);
      SameKeys(KeysOf(list), m.Keys);
      assert forall k :: k in m <==> k in list;
      forall k | k in m ensures m[k].count == 1 {
        var i :| 0 <= i < |list| && list[i] == k;
        assert AtPosition(m, list[i], i);
      }
    }
  }

  lemma StillOnce(m: map<Word, Entry>, key: Word, position: Word)
    requires forall k | k in m :: m[k].count == 1
    ensures forall k | k in Inserted(m, key, position) :: Inserted(m, key, position)[k].count == 1
    ensures forall k | k in Withdrawn(m, key, position) :: Withdrawn(m, key, position)[k].count == 1
  {
  }

  method ApplyInsert(t: Table, ghost list: seq<Word>, key: Word, position: Word)
    requires t.Valid() && t.hasKeys && Numbered(t.Model(), list) && EditOk(list, Insert(key, position)) &&
             |list| < SUB_ONES - 1
    requires t.HasRoom()
    modifies t.Repr()
    ensures t.Valid() && fresh(t.Repr() - old(t.Repr())) &&
            Numbered(t.Model(), list[..position] + [key] + list[position..])
  {
    NumbersCanShift(t.Model(), list, true, position);
    InsertedNumbers(t.Model(), list, key, position);
    StillOnce(t.Model(), key, position);
    var _ := t.AddIntValueAndInc(key, position);
  }

  method ApplyDelete(t: Table, ghost list: seq<Word>, position: Word)
    requires t.Valid() && t.hasKeys && Numbered(t.Model(), list) && EditOk(list, Delete(position)) && |list| < SUB_ONES
    modifies t.Repr()
    ensures t.Valid() && fresh(t.Repr() - old(t.Repr())) && Numbered(t.Model(), list[..position] + list[position + 1..])
  {
    ghost var m := t.Model();
    NumbersCanShift(m, list, false, position);
    assert m[list[position]].value == position;
    ghost var key := t.RemoveIntValueAndDec(position);
    WithdrawnNumbers(m, list, key, position);
    StillOnce(m, key, position);
  }

  /** Room for one more key, with every position below the words that cannot be stored. */
  ghost predicate TakesEdit(t: Table, e: Edit)
    requires t.Valid()
    reads t, t.values, t.keys, t.counts
  {
    e.Insert? ==> t.HasRoom() && t.usedBuckets < SUB_ONES - 1
  }

  method CheckEdit(t: Table, e: Edit) returns (takes: bool)
    requires t.Valid()
    ensures takes == TakesEdit(t, e)
  {
    var can := CheckGrowth(t, 1);
    takes := e.Insert? ==>
      (t.usedBuckets < t.growth.capacities[t.numBucketsIdx] || can) && t.usedBuckets < SUB_ONES - 1;
  }

  method ApplyEdit(t: Table, ghost list: seq<Word>, e: Edit)
    requires t.Valid() && t.hasKeys && Lined(t.Model(), list) && EditOk(list, e) && |list| < SUB_ONES &&
             TakesEdit(t, e)
    modifies t.Repr()
    ensures t.Valid() && fresh(t.Repr() - old(t.Repr())) && Lined(t.Model(), Edited(list, e))
    ensures |Edited(list, e)| < SUB_ONES
  {
    UsedIsSize(t);
    LinedMeans(t.Model(), list);
    match e {
      case Insert(key, position) => ApplyInsert(t, list, key, position);
      case Delete(position) => ApplyDelete(t, list, position);
    }
    LinedMeans(t.Model(), Edited(list, e));
  }

  lemma FittingEdit(t: Table, list: seq<Word>, e: Edit)
    requires t.Valid() && Lined(t.Model(), list) && (e.Insert? ==> |list| < MaxList(t.growth, t.fastGrow))
    ensures TakesEdit(t, e)
  {
    UsedIsSize(t);
  }

  /** One edit, if there is room for it. */
  method FollowOne(t: Table, ghost list: seq<Word>, e: Edit, ghost fits: bool) returns (took: bool)
    requires t.Valid() && t.hasKeys && Lined(t.Model(), list) && |list| < SUB_ONES && EditOk(list, e)
    requires fits && e.Insert? ==> |list| < MaxList(t.growth, t.fastGrow)
    modifies t.Repr()
    ensures t.Valid() && fresh(t.Repr() - old(t.Repr())) && (fits ==> took)
    ensures took ==> Lined(t.Model(), Edited(list, e)) && |Edited(list, e)| < SUB_ONES
    ensures !took ==> Lined(t.Model(), list) && !TakesEdit(t, e)
  {
    if fits {
      FittingEdit(t, list, e);
    }
    took := CheckEdit(t, e);
    if took {
      ApplyEdit(t, list, e);
    }
  }

  /** Edit `i`, if there is room for it. */
  method FollowNext(t: Table, ghost list: seq<Word>, edits: seq<Edit>, i: nat, ghost fits: bool) returns (took: bool)
    requires t.Valid() && t.hasKeys && i < |edits| && EditsOk(list, edits)
    requires Lined(t.Model(), AllEdited(list, edits[..i])) && |AllEdited(list, edits[..i])| < SUB_ONES
    requires fits ==> EditsFit(list, edits, MaxList(t.growth, t.fastGrow))
    modifies t.Repr()
    ensures t.Valid() && fresh(t.Repr() - old(t.Repr())) && (fits ==> took)
    ensures var n := if took then i + 1 else i;
            Lined(t.Model(), AllEdited(list, edits[..n])) && |AllEdited(list, edits[..n])| < SUB_ONES
    ensures !took ==> !TakesEdit(t, edits[i])
  {
    EditNext(list, edits, i);
    took := FollowOne(t, AllEdited(list, edits[..i]), edits[i], fits);
  }

  /** The edits from `i` on. */
  method FollowFrom(t: Table, ghost list: seq<Word>, edits: seq<Edit>, i: nat, ghost fits: bool) returns (done: nat)
    requires t.Valid() && t.hasKeys && i <= |edits| && EditsOk(list, edits)
    requires Lined(t.Model(), AllEdited(list, edits[..i])) && |AllEdited(list, edits[..i])| < SUB_ONES
    requires fits ==> EditsFit(list, edits, MaxList(t.growth, t.fastGrow))
    modifies t.Repr()
    ensures t.Valid() && fresh(t.Repr() - old(t.Repr()))
    ensures done <= |edits| && Lined(t.Model(), AllEdited(list, edits[..done]))
    ensures done < |edits| ==> !TakesEdit(t, edits[done])
    ensures fits ==> done == |edits|
    decreases |edits| - i
  {
    done := i;
    if i < |edits| {
      var took := FollowNext(t, list, edits, i, fits);
      if took {
        ghost var between := t.Repr();
        done := FollowFrom(t, list, edits, i + 1, fits);
        NewBetween(old(t.Repr()), between, t.Repr());
      }
    }
  }

  /**
   A table follows every edit of a list: after each one the values are the positions of the keys. It
   stops only in front of an insertion for which there is no room, and never if the list stays short
   enough for the growth table.
   */
  method FollowEdits(t: Table, ghost list: seq<Word>, edits: seq<Edit>) returns (done: nat)
    requires t.Valid() && t.hasKeys && Numbered(t.Model(), list) && |list| < SUB_ONES && EditsOk(list, edits)
    modifies t.Repr()
    ensures t.Valid() && fresh(t.Repr() - old(t.Repr()))
    ensures done <= |edits| && Numbered(t.Model(), AllEdited(list, edits[..done]))
    ensures done < |edits| ==> !TakesEdit(t, edits[done])
    ensures EditsFit(list, edits, MaxList(t.growth, t.fastGrow)) ==> done == |edits|
  {
    assert edits[..0] == [];
    LinedMeans(t.Model(), list);
    done := FollowFrom(t, list, edits, 0, EditsFit(list, edits, MaxList(t.growth, t.fastGrow)));
    LinedMeans(t.Model(), AllEdited(list, edits[..done]));
  }

  lemma SourceMaxList(fast: bool)
    ensures MaxList(SOURCE_GROWTH, fast) >= 2003267722
  {
  }

  /**
   A new table with the growth of the 64-bit build, through every run of edits of a list of up to
   two billion keys.
   */
  method NumberedList(h: Hash, fast: bool, edits: seq<Edit>) returns (t: Table)
    requires EditsOk([], edits) && EditsFit([], edits, 2003267722)
    ensures t.Valid() && t.growth == SOURCE_GROWTH && Numbered(t.Model(), AllEdited([], edits))
  {
    SourceGrowthOk();
    SourceMaxList(fast);
    t := new Table(h, SOURCE_GROWTH, true, false, fast);
    var done := FollowEdits(t, [], edits);
    assert edits[..done] == edits;
  }
}
