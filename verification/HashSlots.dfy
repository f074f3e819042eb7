/**
 A table of slots with linear probing: where keys may lie, what a probe finds, and
 the map that the live slots hold.
 */
module HashSlots {

  type Word = w: int | 0 <= w < 0x1_0000_0000_0000_0000

  datatype Entry = Entry(value: Word, count: nat)

  datatype Slot = Empty | Deleted | Live(key: Word, entry: Entry)

  type Hash = Word -> nat

  /** The slot after `i` steps from `h` around a table of `n`. */
  function Probe(h: nat, i: nat, n: nat): (p: nat)
    requires h < n && i < n
    ensures p < n
  {
    if h + i < n then h + i else h + i - n
  }

  /** The number of steps from `h` to `p`. */
  function Steps(h: nat, p: nat, n: nat): (i: nat)
    requires h < n && p < n
    ensures i < n && Probe(h, i, n) == p
  {
    if h <= p then p - h else p + n - h
  }

  function Home(hash: Hash, key: Word, n: nat): (h: nat)
    requires n > 0
    ensures h < n
  {
    hash(key) % n
  }

  /** No empty slot lies on the first `i` steps from the home of `key`. */
  ghost predicate ClearTo(hash: Hash, s: seq<Slot>, key: Word, i: nat)
    requires |s| > 0 && i <= |s|
  {
    forall j | 0 <= j < i :: !s[Probe(Home(hash, key, |s|), j, |s|)].Empty?
  }

  /** Probing for the key of a live slot gets to that slot. */
  ghost predicate Reachable(hash: Hash, s: seq<Slot>, p: nat)
    requires p < |s| && s[p].Live?
  {
    ClearTo(hash, s, s[p].key, Steps(Home(hash, s[p].key, |s|), p, |s|))
  }

  /** Among the first `n` slots, every live one is reachable and no key occurs twice. */
  ghost predicate PlacedTo(hash: Hash, s: seq<Slot>, n: nat)
    requires n <= |s|
  {
    if n == 0 then true
    else
      && PlacedTo(hash, s, n - 1)
      && (s[n - 1].Live? ==> Reachable(hash, s, n - 1) && !HoldsKey(s[..n - 1], s[n - 1].key))
  }

  ghost predicate WellPlaced(hash: Hash, s: seq<Slot>) {
    PlacedTo(hash, s, |s|)
  }

  lemma {:induction false} PlacedToMeans(hash: Hash, s: seq<Slot>, n: nat)
    requires n <= |s|
    ensures PlacedTo(hash, s, n) <==>
            && (forall p | 0 <= p < n && s[p].Live? :: Reachable(hash, s, p))
            && DistinctKeys(s[..n])
  {
    if n > 0 {
      PlacedToMeans(hash, s, n - 1);
      DistinctStep(s, n);
    }
  }

  lemma DistinctStep(s: seq<Slot>, n: nat)
    requires 0 < n <= |s|
    ensures DistinctKeys(s[..n])
            <==> DistinctKeys(s[..n - 1]) && (s[n - 1].Live? ==> !HoldsKey(s[..n - 1], s[n - 1].key))
  {
    var t, u := s[..n], s[..n - 1];
    assert forall p | 0 <= p < n - 1 :: t[p] == u[p];
    if DistinctKeys(t) {
      forall p | s[n - 1].Live? && 0 <= p < |u| && u[p].Live? ensures u[p].key != s[n - 1].key {
        assert t[p].key != t[n - 1].key;
      }
    }
  }

  /** What a well placed table promises of every slot. */
  lemma WellPlacedMeans(hash: Hash, s: seq<Slot>)
    ensures WellPlaced(hash, s) <==> (forall p | 0 <= p < |s| && s[p].Live? :: Reachable(hash, s, p)) && DistinctKeys(s)
  {
    PlacedToMeans(hash, s, |s|);
    assert s[..|s|] == s;
  }

  ghost predicate DistinctKeys(s: seq<Slot>) {
    forall p, q | 0 <= p < q < |s| && s[p].Live? && s[q].Live? :: s[p].key != s[q].key
  }

  ghost predicate HoldsKey(s: seq<Slot>, key: Word) {
    exists p :: 0 <= p < |s| && s[p].Live? && s[p].key == key
  }

  // ----- Probing -----

  /** What a probe has seen in its first `i` steps: no empty slot and not the key. */
  ghost predicate Missed(hash: Hash, s: seq<Slot>, key: Word, i: nat)
    requires |s| > 0 && i <= |s|
  {
    forall j | 0 <= j < i ::
      var x := s[Probe(Home(hash, key, |s|), j, |s|)];
      !x.Empty? && (x.Live? ==> x.key != key)
  }

  /** An empty slot ends the search: the key is not in the table. */
  lemma EmptyMeansAbsent(hash: Hash, s: seq<Slot>, key: Word, i: nat)
    requires WellPlaced(hash, s) && i < |s| && Missed(hash, s, key, i)
    requires s[Probe(Home(hash, key, |s|), i, |s|)].Empty?
    ensures !HoldsKey(s, key)
  {
    WellPlacedMeans(hash, s);
    forall p | 0 <= p < |s| && s[p].Live? ensures s[p].key != key {
      assert Reachable(hash, s, p);
      var steps := Steps(Home(hash, key, |s|), p, |s|);
    }
  }

  /** So does coming all the way round. */
  lemma FullTurnMeansAbsent(hash: Hash, s: seq<Slot>, key: Word)
    requires |s| > 0 && Missed(hash, s, key, |s|)
    ensures !HoldsKey(s, key)
  {
    forall p | 0 <= p < |s| && s[p].Live? ensures s[p].key != key {
      var steps := Steps(Home(hash, key, |s|), p, |s|);
    }
  }

  /** A probe for `key` after `i` steps; `spare` is the first deleted slot it met, or negative. */
  ghost predicate Seen(hash: Hash, s: seq<Slot>, key: Word, i: nat, spare: int)
    requires |s| > 0 && i <= |s|
  {
    var h := Home(hash, key, |s|);
    && Missed(hash, s, key, i)
    && (spare < 0 ==> forall j | 0 <= j < i :: s[Probe(h, j, |s|)].Live?)
    && (spare >= 0 ==> spare < |s| && s[spare].Deleted? && Steps(h, spare, |s|) < i)
  }

  lemma SeenNext(hash: Hash, s: seq<Slot>, key: Word, i: nat, spare: int)
    requires i < |s| && Seen(hash, s, key, i, spare)
    requires var x := s[Probe(Home(hash, key, |s|), i, |s|)]; !x.Empty? && (x.Live? ==> x.key != key)
    ensures var p := Probe(Home(hash, key, |s|), i, |s|);
            Seen(hash, s, key, i + 1, if s[p].Deleted? && spare < 0 then p else spare)
  {
  }

  /** Where an absent key should go: a free slot that probing for it gets to; nowhere only if all slots are live. */
  ghost predicate PlaceFor(hash: Hash, s: seq<Slot>, key: Word, idx: int) {
    && !HoldsKey(s, key)
    && (idx < 0 ==> forall p | 0 <= p < |s| :: s[p].Live?)
    && (idx >= 0 ==> idx < |s| && !s[idx].Live? && ClearTo(hash, s, key, Steps(Home(hash, key, |s|), idx, |s|)))
  }

  lemma PlaceAtEmpty(hash: Hash, s: seq<Slot>, key: Word, i: nat, spare: int)
    requires WellPlaced(hash, s) && i < |s| && Seen(hash, s, key, i, spare)
    requires s[Probe(Home(hash, key, |s|), i, |s|)].Empty?
    ensures PlaceFor(hash, s, key, if spare < 0 then Probe(Home(hash, key, |s|), i, |s|) else spare)
  {
    EmptyMeansAbsent(hash, s, key, i);
  }

  lemma PlaceAtEnd(hash: Hash, s: seq<Slot>, key: Word, spare: int)
    requires |s| > 0 && Seen(hash, s, key, |s|, spare)
    ensures PlaceFor(hash, s, key, spare)
  {
    FullTurnMeansAbsent(hash, s, key);
    forall p | spare < 0 && 0 <= p < |s| ensures s[p].Live? {
      var steps := Steps(Home(hash, key, |s|), p, |s|);
    }
  }

  // ----- Contents -----

  /** The map that the live slots hold. */
  ghost function Contents(s: seq<Slot>): map<Word, Entry> {
    if s == [] then map[]
    else
      var m, x := Contents(s[..|s| - 1]), s[|s| - 1];
      if x.Live? then m[x.key := x.entry] else m
  }

  lemma {:induction false} HoldsIffContents(s: seq<Slot>, key: Word)
    ensures HoldsKey(s, key) <==> key in Contents(s)
  {
    if s != [] {
      var n := |s| - 1;
      HoldsIffContents(s[..n], key);
      if HoldsKey(s[..n], key) {
        var p :| 0 <= p < n && s[..n][p].Live? && s[..n][p].key == key;
        assert s[p].Live? && s[p].key == key;
      }
      if HoldsKey(s, key) && !(s[n].Live? && s[n].key == key) {
        var p :| 0 <= p < |s| && s[p].Live? && s[p].key == key;
        assert s[..n][p].Live? && s[..n][p].key == key;
      }
    }
  }

  lemma {:induction false} ContentsAt(s: seq<Slot>, p: nat)
    requires DistinctKeys(s) && p < |s| && s[p].Live?
    ensures s[p].key in Contents(s) && Contents(s)[s[p].key] == s[p].entry
  {
    var n := |s| - 1;
    if p < n {
      assert s[n].Live? ==> s[n].key != s[p].key;
      ContentsAt(s[..n], p);
    }
  }

  /** A slot that was not live takes a new key. */
  lemma ContentsInsert(s: seq<Slot>, p: nat, key: Word, e: Entry)
    requires DistinctKeys(s) && p < |s| && !s[p].Live? && !HoldsKey(s, key)
    ensures DistinctKeys(s[p := Live(key, e)])
    ensures Contents(s[p := Live(key, e)]) == Contents(s)[key := e]
  {
    var t := s[p := Live(key, e)];
    assert DistinctKeys(t);
    ContentsAt(t, p);
    forall k ensures k in Contents(t) <==> k in Contents(s)[key := e] {
      HoldsIffContents(t, k);
      HoldsIffContents(s, k);
      if k in Contents(s) {
        var q :| 0 <= q < |s| && s[q].Live? && s[q].key == k;
        assert t[q].Live? && t[q].key == k;
      }
    }
    forall k | k in Contents(s) && k != key ensures Contents(t)[k] == Contents(s)[k] {
      HoldsIffContents(s, k);
      var q :| 0 <= q < |s| && s[q].Live? && s[q].key == k;
      assert t[q] == s[q];
      ContentsAt(s, q);
      ContentsAt(t, q);
    }
  }

  /** A live slot keeps its key and takes a new entry. */
  lemma ContentsUpdate(s: seq<Slot>, p: nat, e: Entry)
    requires DistinctKeys(s) && p < |s| && s[p].Live?
    ensures DistinctKeys(s[p := Live(s[p].key, e)])
    ensures Contents(s[p := Live(s[p].key, e)]) == Contents(s)[s[p].key := e]
  {
    var t := s[p := Live(s[p].key, e)];
    assert DistinctKeys(t);
    ContentsAt(t, p);
    ContentsAt(s, p);
    forall k ensures k in Contents(t) <==> k in Contents(s) {
      HoldsIffContents(t, k);
      HoldsIffContents(s, k);
      if k in Contents(s) {
        var q :| 0 <= q < |s| && s[q].Live? && s[q].key == k;
        assert t[q].Live? && t[q].key == k;
      }
    }
    forall k | k in Contents(s) && k != s[p].key ensures Contents(t)[k] == Contents(s)[k] {
      HoldsIffContents(s, k);
      var q :| 0 <= q < |s| && s[q].Live? && s[q].key == k;
      assert t[q] == s[q];
      ContentsAt(s, q);
      ContentsAt(t, q);
    }
  }

  /** A live slot is deleted. */
  lemma ContentsRemove(s: seq<Slot>, p: nat)
    requires DistinctKeys(s) && p < |s| && s[p].Live?
    ensures DistinctKeys(s[p := Deleted])
    ensures Contents(s[p := Deleted]) == Contents(s) - {s[p].key}
  {
    var t := s[p := Deleted];
    assert DistinctKeys(t);
    ContentsAt(s, p);
    forall k ensures k in Contents(t) <==> k in Contents(s) && k != s[p].key {
      HoldsIffContents(t, k);
      HoldsIffContents(s, k);
      if k in Contents(s) && k != s[p].key {
        var q :| 0 <= q < |s| && s[q].Live? && s[q].key == k;
        assert t[q].Live? && t[q].key == k;
      }
      if k in Contents(t) {
        var q :| 0 <= q < |t| && t[q].Live? && t[q].key == k;
        assert q != p && s[q] == t[q];
      }
    }
    forall k | k in Contents(t) ensures Contents(t)[k] == Contents(s)[k] {
      HoldsIffContents(t, k);
      var q :| 0 <= q < |t| && t[q].Live? && t[q].key == k;
      assert t[q] == s[q];
      ContentsAt(s, q);
      ContentsAt(t, q);
    }
  }

  // ----- Probing keeps working -----

  /** Any slot may be filled or deleted, as long as a slot that becomes live can be probed to. */
  lemma PlacementKept(hash: Hash, s: seq<Slot>, p: nat, x: Slot)
    requires WellPlaced(hash, s) && p < |s| && !x.Empty?
    requires DistinctKeys(s[p := x])
    requires x.Live? ==> ClearTo(hash, s, x.key, Steps(Home(hash, x.key, |s|), p, |s|))
    ensures WellPlaced(hash, s[p := x])
  {
    var t := s[p := x];
    WellPlacedMeans(hash, s);
    WellPlacedMeans(hash, t);
    forall q | 0 <= q < |t| && t[q].Live? ensures Reachable(hash, t, q) {
      if q != p {
        assert Reachable(hash, s, q);
      }
    }
  }

  // ----- Counting -----

  ghost function Lives(s: seq<Slot>): nat {
    if s == [] then 0 else Lives(s[..|s| - 1]) + if s[|s| - 1].Live? then 1 else 0
  }

  ghost function Deletes(s: seq<Slot>): nat {
    if s == [] then 0 else Deletes(s[..|s| - 1]) + if s[|s| - 1].Deleted? then 1 else 0
  }

  lemma {:induction false} CountsUpdate(s: seq<Slot>, p: nat, x: Slot)
    requires p < |s|
    ensures Lives(s[p := x]) == Lives(s) - (if s[p].Live? then 1 else 0) + (if x.Live? then 1 else 0)
    ensures Deletes(s[p := x]) == Deletes(s) - (if s[p].Deleted? then 1 else 0) + (if x.Deleted? then 1 else 0)
  {
    var n := |s| - 1;
    if p < n {
      CountsUpdate(s[..n], p, x);
      assert s[p := x][..n] == s[..n][p := x];
    } else {
      assert s[p := x][..n] == s[..n];
    }
  }

  lemma {:induction false} CountsBound(s: seq<Slot>)
    ensures Lives(s) + Deletes(s) <= |s|
    ensures Lives(s) == |s| ==> forall p | 0 <= p < |s| :: s[p].Live?
    ensures Deletes(s) == 0 ==> forall p | 0 <= p < |s| :: !s[p].Deleted?
  {
    if s != [] {
      CountsBound(s[..|s| - 1]);
    }
  }

  lemma {:induction false} FullCount(s: seq<Slot>)
    requires forall p | 0 <= p < |s| :: s[p].Live?
    ensures Lives(s) == |s|
  {
    if s != [] {
      FullCount(s[..|s| - 1]);
    }
  }

  lemma {:induction false} LivesPrefix(s: seq<Slot>, i: nat)
    requires i <= |s|
    ensures Lives(s[..i]) <= Lives(s)
    ensures i < |s| && s[i].Live? ==> Lives(s[..i]) < Lives(s)
  {
    if i < |s| {
      var init := s[..|s| - 1];
      LivesPrefix(init, i);
      assert init[..i] == s[..i];
    } else {
      assert s[..i] == s;
    }
  }

  lemma {:induction false} AllEmpty(s: seq<Slot>)
    requires forall p | 0 <= p < |s| :: s[p].Empty?
    ensures Lives(s) == 0 && Deletes(s) == 0 && Contents(s) == map[]
  {
    if s != [] {
      AllEmpty(s[..|s| - 1]);
    }
  }

  lemma EmptyWellPlaced(hash: Hash, s: seq<Slot>)
    requires forall p | 0 <= p < |s| :: s[p].Empty?
    ensures WellPlaced(hash, s)
  {
    WellPlacedMeans(hash, s);
  }

  /** The map has one entry for each live slot. */
  lemma {:induction false} ContentsSize(s: seq<Slot>)
    requires DistinctKeys(s)
    ensures |Contents(s)| == Lives(s)
  {
    if s != [] {
      var n := |s| - 1;
      ContentsSize(s[..n]);
      PrefixAppend(s, n);
      assert s[..n + 1] == s;
    }
  }

  /** Counts and contents of one slot more. */
  lemma PrefixAppend(s: seq<Slot>, i: nat)
    requires i < |s| && DistinctKeys(s)
    ensures Contents(s[..i + 1]) == if s[i].Live? then Contents(s[..i])[s[i].key := s[i].entry] else Contents(s[..i])
    ensures s[i].Live? ==> s[i].key !in Contents(s[..i])
    ensures Lives(s[..i + 1]) == Lives(s[..i]) + if s[i].Live? then 1 else 0
  {
    assert s[..i + 1][..i] == s[..i];
    if s[i].Live? {
      HoldsIffContents(s[..i], s[i].key);
      assert forall p | 0 <= p < i :: s[..i][p] == s[p];
    }
  }

  lemma FoundAt(hash: Hash, s: seq<Slot>, p: nat)
    requires WellPlaced(hash, s) && p < |s| && s[p].Live?
    ensures s[p].key in Contents(s) && Contents(s)[s[p].key] == s[p].entry
  {
    WellPlacedMeans(hash, s);
    ContentsAt(s, p);
  }

  // ----- One step of the table -----

  /** A free slot that can be probed to takes a new key. */
  lemma AfterInsert(hash: Hash, s: seq<Slot>, p: nat, key: Word, e: Entry)
    requires WellPlaced(hash, s) && p < |s| && !s[p].Live? && !HoldsKey(s, key)
    requires ClearTo(hash, s, key, Steps(Home(hash, key, |s|), p, |s|))
    ensures var t := s[p := Live(key, e)];
            && WellPlaced(hash, t) && Contents(t) == Contents(s)[key := e]
            && Lives(t) == Lives(s) + 1 && Deletes(t) == Deletes(s) - if s[p].Deleted? then 1 else 0
  {
    WellPlacedMeans(hash, s);
    ContentsInsert(s, p, key, e);
    CountsUpdate(s, p, Live(key, e));
    PlacementKept(hash, s, p, Live(key, e));
  }

  /** A live slot takes another entry. */
  lemma AfterUpdate(hash: Hash, s: seq<Slot>, p: nat, e: Entry)
    requires WellPlaced(hash, s) && p < |s| && s[p].Live?
    ensures var t := s[p := Live(s[p].key, e)];
            && WellPlaced(hash, t) && Contents(t) == Contents(s)[s[p].key := e]
            && Lives(t) == Lives(s) && Deletes(t) == Deletes(s)
  {
    WellPlacedMeans(hash, s);
    ContentsUpdate(s, p, e);
    CountsUpdate(s, p, Live(s[p].key, e));
    assert Reachable(hash, s, p);
    PlacementKept(hash, s, p, Live(s[p].key, e));
  }

  /** A live slot becomes a tombstone. */
  lemma AfterRemove(hash: Hash, s: seq<Slot>, p: nat)
    requires WellPlaced(hash, s) && p < |s| && s[p].Live?
    ensures var t := s[p := Deleted];
            && WellPlaced(hash, t) && Contents(t) == Contents(s) - {s[p].key}
            && Lives(t) == Lives(s) - 1 && Deletes(t) == Deletes(s) + 1
  {
    WellPlacedMeans(hash, s);
    ContentsRemove(s, p);
    CountsUpdate(s, p, Deleted);
    PlacementKept(hash, s, p, Deleted);
  }

  // ----- Renumbering -----

  /** What a value becomes when a position is inserted (`up`) or deleted. */
  function Shift(up: bool, position: Word, v: Word): Word {
    if up then if position <= v < 0xFFFF_FFFF_FFFF_FFFF then v + 1 else v
    else if position < v then v - 1 else v
  }

  ghost function ShiftSlot(x: Slot, up: bool, position: Word): Slot {
    if x.Live? then Live(x.key, Entry(Shift(up, position, x.entry.value), x.entry.count)) else x
  }

  /** The first `i` slots are renumbered. */
  ghost predicate ShiftedTo(s: seq<Slot>, t: seq<Slot>, i: nat, up: bool, position: Word) {
    |s| == |t| && forall p | 0 <= p < |s| :: t[p] == if p < i then ShiftSlot(s[p], up, position) else s[p]
  }

  ghost predicate Shifted(s: seq<Slot>, t: seq<Slot>, up: bool, position: Word) {
    ShiftedTo(s, t, |s|, up, position)
  }

  lemma ShiftedNext(s: seq<Slot>, t: seq<Slot>, i: nat, up: bool, position: Word)
    requires i < |s| && ShiftedTo(s, t, i, up, position)
    ensures t[i] == s[i] && ShiftedTo(s, t[i := ShiftSlot(t[i], up, position)], i + 1, up, position)
  {
  }

  ghost function ShiftMap(m: map<Word, Entry>, up: bool, position: Word): map<Word, Entry> {
    map k | k in m :: Entry(Shift(up, position, m[k].value), m[k].count)
  }

  lemma {:induction false} ShiftedContents(s: seq<Slot>, t: seq<Slot>, up: bool, position: Word)
    requires Shifted(s, t, up, position)
    ensures Contents(t) == ShiftMap(Contents(s), up, position) && Lives(t) == Lives(s) && Deletes(t) == Deletes(s)
    decreases |s|
  {
    if s != [] {
      var n := |s| - 1;
      assert t[n] == ShiftSlot(s[n], up, position);
      assert forall p | 0 <= p < n :: t[..n][p] == t[p] == ShiftSlot(s[p], up, position)
             == ShiftSlot(s[..n][p], up, position);
      ShiftedContents(s[..n], t[..n], up, position);
    }
  }

  /** Keys stay where they are when only values change. */
  lemma ShiftedKeeps(hash: Hash, s: seq<Slot>, t: seq<Slot>, up: bool, position: Word)
    requires WellPlaced(hash, s) && Shifted(s, t, up, position)
    ensures WellPlaced(hash, t) && Contents(t) == ShiftMap(Contents(s), up, position) && Lives(t) == Lives(s) &&
            Deletes(t) == Deletes(s)
  {
    WellPlacedMeans(hash, s);
    WellPlacedMeans(hash, t);
    forall p | 0 <= p < |t| && t[p].Live? ensures Reachable(hash, t, p) {
      assert t[p] == ShiftSlot(s[p], up, position);
      assert Reachable(hash, s, p);
    }
    ShiftedContents(s, t, up, position);
  }

  lemma ShiftedPlace(hash: Hash, s: seq<Slot>, t: seq<Slot>, up: bool, position: Word, key: Word, idx: int)
    requires Shifted(s, t, up, position) && PlaceFor(hash, s, key, idx)
    ensures PlaceFor(hash, t, key, idx)
  {
    forall p | 0 <= p < |t| && t[p].Live? ensures t[p].key != key {
      assert t[p] == ShiftSlot(s[p], up, position);
    }
    forall p | idx < 0 && 0 <= p < |t| ensures t[p].Live? {
      assert t[p] == ShiftSlot(s[p], up, position);
    }
  }

  /** The last of the first `n` slots with a value; negative if there is none. */
  ghost predicate LastWith(s: seq<Slot>, n: nat, value: Word, found: int)
    requires n <= |s|
  {
    if found < 0 then forall p | 0 <= p < n && s[p].Live? :: s[p].entry.value != value
    else
      found < n && s[found].Live? && s[found].entry.value == value &&
      forall p | found < p < n && s[p].Live? :: s[p].entry.value != value
  }

  // ----- Totals -----

  /** The sum of all counts. */
  ghost function Total(s: seq<Slot>): nat {
    if s == [] then 0 else Total(s[..|s| - 1]) + if s[|s| - 1].Live? then s[|s| - 1].entry.count else 0
  }

  lemma {:induction false} AllOnce(s: seq<Slot>)
    requires forall p | 0 <= p < |s| && s[p].Live? :: s[p].entry.count == 1
    ensures Total(s) == Lives(s)
  {
    if s != [] {
      AllOnce(s[..|s| - 1]);
    }
  }

  lemma {:induction false} TotalUpdate(s: seq<Slot>, p: nat)
    requires p < |s| && s[p].Live?
    ensures Total(s[p := Deleted]) == Total(s) - s[p].entry.count
  {
    var n := |s| - 1;
    if p < n {
      TotalUpdate(s[..n], p);
      assert s[p := Deleted][..n] == s[..n][p := Deleted];
    } else {
      assert s[p := Deleted][..n] == s[..n];
    }
  }

  lemma {:induction false} NoTotal(s: seq<Slot>)
    requires Total(s) == 0 && forall p | 0 <= p < |s| && s[p].Live? :: s[p].entry.count > 0
    ensures Contents(s) == map[]
  {
    if s != [] {
      NoTotal(s[..|s| - 1]);
    }
  }

  /** Every live slot of `s` has its key and its count in `t`. */
  ghost predicate Matched(s: seq<Slot>, t: seq<Slot>) {
    forall p | 0 <= p < |s| && s[p].Live? :: s[p].key in Contents(t) && Contents(t)[s[p].key].count == s[p].entry.count
  }

  ghost predicate Counted(s: seq<Slot>) {
    DistinctKeys(s) && forall p | 0 <= p < |s| && s[p].Live? :: s[p].entry.count > 0
  }

  /** A one-sided match never totals more, and if it totals the same there is nothing else on the other side. */
  lemma {:induction false} MatchedTotals(s: seq<Slot>, t: seq<Slot>)
    requires Counted(s) && Counted(t) && Matched(s, t)
    ensures Total(s) <= Total(t)
    ensures Total(s) == Total(t) ==> Contents(t).Keys == Contents(s).Keys
    decreases |s|
  {
    if s == [] {
      if Total(t) == 0 {
        NoTotal(t);
      }
    } else {
      var n := |s| - 1;
      var init := s[..n];
      assert forall p | 0 <= p < n :: init[p] == s[p];
      if s[n].Live? {
        HoldsIffContents(t, s[n].key);
        var q :| 0 <= q < |t| && t[q].Live? && t[q].key == s[n].key;
        ContentsAt(t, q);
        ContentsRemove(t, q);
        TotalUpdate(t, q);
        MatchedTotals(init, t[q := Deleted]);
      } else {
        MatchedTotals(init, t);
      }
    }
  }
}
