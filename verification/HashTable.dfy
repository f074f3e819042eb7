/** The table itself: raw words with sentinels, counters that widen, tombstones, rehashing. */
module HashTable {
  import opened Bytes
  import opened HashSlots

  /** The raw words of an empty and of a deleted slot. */
  const ONES: Word := 0xFFFF_FFFF_FFFF_FFFF
  /** What is stored in place of the words 0 and ~0. */
  const SUB_ZERO: Word := 0xa7baadb1
  const SUB_ONES: Word := 0xa5baadb9

  /** Bucket counts, and how many entries each of them is filled with at most. */
  datatype Growth = Growth(sizes: seq<nat>, capacities: seq<nat>)

  ghost predicate GrowthOk(t: Growth) {
    && 0 < |t.sizes| == |t.capacities| && t.sizes[0] == 0
    && (forall i | 0 <= i < |t.sizes| :: t.capacities[i] <= t.sizes[i])
    && (forall i, j | 0 <= i < j < |t.sizes| :: t.capacities[i] <= t.capacities[j])
  }

  // The tables of a 64-bit build.

  function Size(i: nat): nat {
    match i
    case 0 => 0 case 1 => 3 case 2 => 7 case 3 => 13
    case 4 => 23 case 5 => 41 case 6 => 71 case 7 => 127
    case 8 => 191 case 9 => 251 case 10 => 383 case 11 => 631
    case 12 => 1087 case 13 => 1723 case 14 => 2803 case 15 => 4523
    case 16 => 7351 case 17 => 11959 case 18 => 19447 case 19 => 31231
    case 20 => 50683 case 21 => 81919 case 22 => 132607 case 23 => 214519
    case 24 => 346607 case 25 => 561109 case 26 => 907759 case 27 => 1468927
    case 28 => 2376191 case 29 => 3845119 case 30 => 6221311 case 31 => 10066421
    case 32 => 16287743 case 33 => 26354171 case 34 => 42641881 case 35 => 68996069
    case 36 => 111638519 case 37 => 180634607 case 38 => 292272623 case 39 => 472907251
    case 40 => 765180413 case 41 => 1238087663 case 42 => 2003267557 case 43 => 3241355263
    case 44 => 5244622819
    case _ => 0
  }

  function Capacity(i: nat): nat {
    match i
    case 0 => 0 case 1 => 3 case 2 => 6 case 3 => 11
    case 4 => 19 case 5 => 32 case 6 => 52 case 7 => 85
    case 8 => 118 case 9 => 155 case 10 => 237 case 11 => 390
    case 12 => 672 case 13 => 1065 case 14 => 1732 case 15 => 2795
    case 16 => 4543 case 17 => 7391 case 18 => 12019 case 19 => 19302
    case 20 => 31324 case 21 => 50629 case 22 => 81956 case 23 => 132580
    case 24 => 214215 case 25 => 346784 case 26 => 561026 case 27 => 907847
    case 28 => 1468567 case 29 => 2376414 case 30 => 3844982 case 31 => 6221390
    case 32 => 10066379 case 33 => 16287773 case 34 => 26354132 case 35 => 42641916
    case 36 => 68996399 case 37 => 111638327 case 38 => 180634415 case 39 => 292272755
    case 40 => 472907503 case 41 => 765180257 case 42 => 1238087439 case 43 => 2003267722
    case 44 => 3241355160
    case _ => 0
  }

  const SOURCE_GROWTH := Growth(seq(45, i requires 0 <= i < 45 => Size(i)),
                                seq(45, i requires 0 <= i < 45 => Capacity(i)))

  lemma {:induction false} CapacitiesGrow(i: nat, j: nat)
    requires i < j < 45
    ensures Capacity(i) <= Capacity(j)
    decreases j
  {
    if i < j - 1 {
      CapacitiesGrow(i, j - 1);
    }
  }

  lemma SourceGrowthOk()
    ensures GrowthOk(SOURCE_GROWTH)
  {
    forall i, j | 0 <= i < j < 45 ensures Capacity(i) <= Capacity(j) {
      CapacitiesGrow(i, j);
    }
  }

  /** Words that callers may not use: they would read back as 0 and ~0. */
  predicate Usable(w: Word) {
    w != SUB_ZERO && w != SUB_ONES
  }

  function Encode(w: Word): Word {
    if w == 0 then SUB_ZERO else if w == ONES then SUB_ONES else w
  }

  function Decode(raw: Word): Word {
    if raw == SUB_ZERO then 0 else if raw == SUB_ONES then ONES else raw
  }

  function SlotOf(value: Word, key: Word, count: nat): Slot {
    if value == 0 then Empty else if value == ONES then Deleted else Live(Decode(key), Entry(Decode(value), count))
  }

  /** The largest count a counter of each width is allowed to reach. */
  function WidthMax(width: nat): nat {
    if width == 0 then 0x7F else if width == 1 then 0x7FFF else if width == 2 then 0x7FFF_FFFF else LONG_MAX
  }

  /** Counters have 1, 2, 4 or 8 bytes, and go up to half of what those hold. */
  lemma CounterWidths(width: nat)
    requires width <= 3
    ensures 2 * (WidthMax(width) + 1) == Pow256(Pow2(width))
  {
    Pow256Values();
    Pow2Values();
  }

  /** One slot and its raw words: key and value agree on whether it is free, and a counter fits its width. */
  ghost predicate RawOk(value: Word, key: Word, count: nat, width: nat, x: Slot) {
    && x == SlotOf(value, key, count)
    && (value == 0 <==> key == 0) && (value == ONES <==> key == ONES)
    && (x.Live? ==> 1 <= count <= WidthMax(width))
  }

  lemma RawLive(value: Word, key: Word, count: nat, width: nat)
    requires Usable(value) && Usable(key) && 1 <= count <= WidthMax(width)
    ensures RawOk(Encode(value), Encode(key), count, width, Live(key, Entry(value, count)))
  {
  }

  lemma RawFree(count: nat, width: nat)
    ensures RawOk(0, 0, count, width, Empty) && RawOk(ONES, ONES, count, width, Deleted)
  {
  }

  /** What decodes from a live slot can be stored again. */
  lemma DecodedUsable(raw: Word)
    ensures Usable(Decode(raw))
  {
  }

  // ----- What the operations mean -----

  /** One more `key`: a new entry, or one more occurrence as long as the counter can go up. */
  ghost function Plus(m: map<Word, Entry>, key: Word, value: Word, counting: bool): map<Word, Entry> {
    if key !in m then m[key := Entry(value, 1)]
    else if counting && m[key].count < LONG_MAX then m[key := Entry(m[key].value, m[key].count + 1)]
    else m
  }

  /** One `key` less. A counter that has reached the limit stays there. */
  ghost function Minus(m: map<Word, Entry>, key: Word): map<Word, Entry> {
    if key !in m then m
    else if m[key].count <= 1 then m - {key}
    else if m[key].count < LONG_MAX then m[key := Entry(m[key].value, m[key].count - 1)]
    else m
  }

  /** Every key but this one is in both or in neither, with the same entry. */
  ghost predicate OthersKept(m: map<Word, Entry>, n: map<Word, Entry>, key: Word) {
    forall k | k != key :: (k in n <==> k in m) && (k in m ==> n[k] == m[k])
  }

  lemma PlusKeepsOthers(m: map<Word, Entry>, key: Word, value: Word, counting: bool)
    ensures OthersKept(m, Plus(m, key, value, counting), key)
  {
  }

  /** What one key less means for the key itself. */
  lemma MinusMeans(m: map<Word, Entry>, n: map<Word, Entry>, key: Word, count: nat)
    requires n == Minus(m, key) && count == if key in m then m[key].count else 0
    ensures OthersKept(m, n, key) && (key in n <==> count > 1)
    ensures 1 < count ==> n[key].value == m[key].value
    ensures 1 < count < 0x7FFF_FFFF_FFFF_FFFF ==> n[key].count == count - 1
    ensures 0x7FFF_FFFF_FFFF_FFFF <= count ==> n[key].count == count
  {
  }

  // ----- Renumbering -----

  /** No value leaves the range of a word, or becomes one that cannot be stored. */
  ghost predicate CanShift(up: bool, position: Word, m: map<Word, Entry>) {
    forall k | k in m :: Usable(Shift(up, position, m[k].value)) && (up && position <= m[k].value ==> m[k].value < ONES)
  }

  lemma CanShiftAt(hash: Hash, s: seq<Slot>, i: nat, up: bool, position: Word)
    requires WellPlaced(hash, s) && CanShift(up, position, Contents(s)) && i < |s|
    ensures s[i].Live? ==> Usable(Shift(up, position, s[i].entry.value))
  {
    if s[i].Live? {
      FoundAt(hash, s, i);
    }
  }

  ghost predicate HasValue(m: map<Word, Entry>, value: Word) {
    exists k :: k in m && m[k].value == value
  }

  /** Keys with the value count once. */
  ghost predicate Once(m: map<Word, Entry>, value: Word) {
    forall k | k in m && m[k].value == value :: m[k].count == 1
  }

  /** If a key has the value, a slot has been found for it, and deleting that slot withdraws its key. */
  lemma LastFound(hash: Hash, s: seq<Slot>, t: seq<Slot>, position: Word, found: int)
    requires WellPlaced(hash, s) && Shifted(s, t, false, position) &&
             Contents(t) == ShiftMap(Contents(s), false, position)
    requires LastWith(s, |s|, position, found) && HasValue(Contents(s), position)
    ensures 0 <= found < |t| && t[found].Live? && t[found].key in Contents(s) &&
            Contents(s)[t[found].key].value == position
    ensures t[found].entry.count == Contents(s)[t[found].key].count
    ensures Contents(t) - {t[found].key} == Withdrawn(Contents(s), t[found].key, position)
  {
    var k :| k in Contents(s) && Contents(s)[k].value == position;
    HoldsIffContents(s, k);
    var p :| 0 <= p < |s| && s[p].Live? && s[p].key == k;
    FoundAt(hash, s, p);
    FoundAt(hash, s, found);
    assert t[found] == ShiftSlot(s[found], false, position);
  }

  ghost function Inserted(m: map<Word, Entry>, key: Word, position: Word): map<Word, Entry> {
    ShiftMap(m, true, position)[key := Entry(position, 1)]
  }

  ghost function Withdrawn(m: map<Word, Entry>, key: Word, position: Word): map<Word, Entry> {
    ShiftMap(m - {key}, false, position)
  }

  class Table {
    const hash: Hash
    const growth: Growth
    const hasKeys: bool
    const hasCounts: bool
    const fastGrow: bool
    var numBucketsIdx: nat
    var usedBuckets: nat
    var deleted: nat
    var countsWidth: nat
    var values: array<Word>
    var keys: array<Word>
    var counts: array<nat>
    /** What the stores mean. */
    ghost var slots: seq<Slot>

    ghost function Repr(): set<object>
      reads this
    {
      {this, values, keys, counts}
    }

    /** The stores have one place for each bucket. */
    ghost predicate Shaped()
      reads this`numBucketsIdx, this`values, this`keys, this`counts, this`countsWidth
    {
      && GrowthOk(growth) && numBucketsIdx < |growth.sizes| && countsWidth <= 3
      && values.Length == growth.sizes[numBucketsIdx]
      && keys != values && counts as object != values && counts as object != keys
      && (hasKeys ==> keys.Length == values.Length)
      && (hasCounts ==> counts.Length == values.Length)
    }

    function RawKey(i: nat): Word
      requires Shaped() && i < values.Length
      reads this`numBucketsIdx, this`values, this`keys, this`counts, this`countsWidth, values, keys
    {
      if hasKeys then keys[i] else values[i]
    }

    function RawCount(i: nat): nat
      requires Shaped() && i < values.Length
      reads this`numBucketsIdx, this`values, this`keys, this`counts, this`countsWidth, counts
    {
      if hasCounts then counts[i] else 1
    }

    ghost predicate Stores()
      reads this`numBucketsIdx, this`values, this`keys, this`counts, this`countsWidth, this`slots, values, keys, counts
    {
      && Shaped() && |slots| == values.Length
      && (forall i | 0 <= i < |slots| :: RawOk(values[i], RawKey(i), RawCount(i), countsWidth, slots[i]))
      // a free slot has no count
      && (hasCounts ==> forall i | 0 <= i < |slots| && !slots[i].Live? :: counts[i] == 0)
    }

    /** The slots are consistent among themselves, whatever the counters of the table say. */
    ghost predicate Loose()
      reads this`numBucketsIdx, this`values, this`keys, this`counts, this`countsWidth, this`slots, values, keys, counts
    {
      Stores() && WellPlaced(hash, slots)
    }

    /** Everything but the tombstone counter. */
    ghost predicate Sound()
      reads this, values, keys, counts
    {
      Loose() && usedBuckets == Lives(slots) <= growth.capacities[numBucketsIdx]
    }

    ghost predicate Valid()
      reads this, values, keys, counts
    {
      Sound() && deleted == Deletes(slots) < 0x1_0000
    }

    /** The finite map (or multiset) that the table stands for. */
    ghost function Model(): map<Word, Entry>
      reads this`slots
    {
      Contents(slots)
    }

    constructor (h: Hash, g: Growth, withKeys: bool, withCounts: bool, fast: bool)
      requires GrowthOk(g)
      ensures Valid() && Model() == map[] && fresh(Repr())
      ensures hash == h && growth == g && hasKeys == withKeys && hasCounts == withCounts && fastGrow == fast
    {
      hash, growth, hasKeys, hasCounts, fastGrow := h, g, withKeys, withCounts, fast;
      numBucketsIdx, usedBuckets, deleted, countsWidth := 0, 0, 0, 0;
      values := new Word[0];
      keys := new Word[0];
      counts := new nat[0];
      slots := [];
      new;
      AllEmpty(slots);
      EmptyWellPlaced(hash, slots);
    }

    // ----- Probing -----

    /**
     Linear probing for `key`: its bucket, or else the bucket that an add should fill,
     or -1 if every bucket is in use.
     */
    method FindBucket(key: Word) returns (idx: int, count: nat)
      requires Loose()
      ensures count > 0 ==>
                0 <= idx < |slots| && slots[idx].Live? && slots[idx].key == key && count == slots[idx].entry.count
      ensures count == 0 ==> PlaceFor(hash, slots, key, idx)
    {
      var n := values.Length;
      if n == 0 {
        return -1, 0;
      }
      var h := hash(key) % n;
      var probe := h;
      var deletedIdx := -1;
      var i := 0;
      while i < n
        invariant 0 <= i <= n && 0 <= probe < n
        invariant i < n ==> probe == Probe(h, i, n)
        invariant Seen(hash, slots, key, i, deletedIdx)
      {
        var raw := RawKey(probe);
        assert RawOk(values[probe], raw, RawCount(probe), countsWidth, slots[probe]);
        if raw == 0 {
          PlaceAtEmpty(hash, slots, key, i, deletedIdx);
          return if deletedIdx < 0 then probe else deletedIdx, 0;
        }
        if raw != ONES && Decode(raw) == key {
          return probe, RawCount(probe);
        }
        SeenNext(hash, slots, key, i, deletedIdx);
        if raw == ONES && deletedIdx < 0 {
          deletedIdx := probe;
        }
        probe := probe + 1;
        if n <= probe {
          probe := probe - n;
        }
        i := i + 1;
      }
      PlaceAtEnd(hash, slots, key, deletedIdx);
      return deletedIdx, 0;
    }

    /** The same in terms of the map. */
    method Locate(key: Word) returns (idx: int, count: nat)
      requires Loose()
      ensures 0 < count <==> key in Model()
      ensures 0 < count ==>
                0 <= idx < |slots| && slots[idx].Live? && slots[idx].key == key && count == slots[idx].entry.count
      ensures 0 < count ==> Model()[key] == slots[idx].entry
      ensures count == 0 ==> PlaceFor(hash, slots, key, idx)
    {
      idx, count := FindBucket(key);
      HoldsIffContents(slots, key);
      if 0 < count {
        FoundAt(hash, slots, idx);
      }
    }

    /** The probe used while rehashing: no slot is deleted and the key is not there yet. */
    method FindEmpty(key: Word) returns (idx: nat)
      requires Loose() && Deletes(slots) == 0 && Lives(slots) < |slots| && !HoldsKey(slots, key)
      ensures idx < |slots| && slots[idx].Empty?
      ensures ClearTo(hash, slots, key, Steps(Home(hash, key, |slots|), idx, |slots|))
    {
      var n := values.Length;
      CountsBound(slots);
      idx := 0;
      var h := hash(key) % n;
      var probe := h;
      var i := 0;
      while i < n
        invariant 0 <= i <= n && 0 <= probe < n
        invariant i < n ==> probe == Probe(h, i, n)
        invariant Seen(hash, slots, key, i, -1)
      {
        var raw := RawKey(probe);
        assert RawOk(values[probe], raw, RawCount(probe), countsWidth, slots[probe]);
        if raw == 0 {
          return probe;
        }
        SeenNext(hash, slots, key, i, -1);
        probe := probe + 1;
        if n <= probe {
          probe := probe - n;
        }
        i := i + 1;
      }
      PlaceAtEnd(hash, slots, key, -1);
      FullCount(slots);
      assert false;
    }

    // ----- Storing -----

    /** Moves the counters to the next width. */
    method BumpCounts()
      requires Shaped() && hasCounts && countsWidth < 3
      modifies this`counts, this`countsWidth
      ensures Shaped() && fresh(counts) && countsWidth == old(countsWidth) + 1
      ensures counts[..] == old(counts[..])
    {
      var wider := new nat[values.Length];
      var i := 0;
      while i < values.Length
        invariant 0 <= i <= values.Length && wider[..i] == counts[..i]
        modifies wider
      {
        wider[i] := counts[i];
        i := i + 1;
      }
      assert wider[..] == wider[..i] && counts[..] == counts[..i];
      countsWidth := countsWidth + 1;
      counts := wider;
    }

    /** Adds one to a counter, widening all counters when it is at the limit of its width. */
    method IncSlotCount(idx: nat)
      requires Shaped() && hasCounts && idx < values.Length && counts[idx] < LONG_MAX
      modifies this`counts, this`countsWidth, counts
      ensures Shaped() && (counts == old(counts) || fresh(counts))
      ensures counts[..] == old(counts[..])[idx := old(counts[idx]) + 1]
      ensures old(countsWidth) <= countsWidth && counts[idx] <= WidthMax(countsWidth)
      ensures old(counts[idx]) < WidthMax(old(countsWidth)) ==> counts == old(counts) && countsWidth == old(countsWidth)
      decreases 3 - countsWidth
    {
      if counts[idx] < WidthMax(countsWidth) {
        counts[idx] := counts[idx] + 1;
      } else {
        BumpCounts();
        assert counts[idx] == counts[..][idx];
        IncSlotCount(idx);
      }
    }

    /** Sets the raw words of a slot; `count` is only stored in a table that counts. */
    method Put(idx: nat, value: Word, key: Word, count: nat, ghost x: Slot)
      requires Stores() && idx < |slots| && (!hasKeys ==> key == value) && (!hasCounts && x.Live? ==> count == 1)
      requires RawOk(value, key, if hasCounts then count else 1, countsWidth, x) &&
               (hasCounts && !x.Live? ==> count == 0)
      modifies this`slots, values, keys, counts
      ensures Stores() && slots == old(slots)[idx := x]
    {
      values[idx] := value;
      if hasKeys {
        keys[idx] := key;
      }
      if hasCounts {
        counts[idx] := count;
      }
      slots := slots[idx := x];
    }

    /** Counts one more occurrence of the key of a live slot. */
    method CountUp(idx: nat)
      requires Valid() && hasCounts && idx < |slots| && slots[idx].Live? && slots[idx].entry.count < LONG_MAX
      modifies this`counts, this`countsWidth, this`slots, counts
      ensures Valid() && fresh(Repr() - old(Repr()))
      ensures var x := old(slots[idx]);
              Model() == old(Model())[x.key := Entry(x.entry.value, x.entry.count + 1)]
    {
      AfterUpdate(hash, slots, idx, Entry(slots[idx].entry.value, slots[idx].entry.count + 1));
      IncStored(idx);
    }

    method IncStored(idx: nat)
      requires Stores() && hasCounts && idx < |slots| && slots[idx].Live? && slots[idx].entry.count < LONG_MAX
      modifies this`counts, this`countsWidth, this`slots, counts
      ensures Stores() && (counts == old(counts) || fresh(counts))
      ensures var x := old(slots[idx]);
              slots == old(slots)[idx := Live(x.key, Entry(x.entry.value, x.entry.count + 1))]
    {
      ghost var was := slots;
      ghost var x := slots[idx];
      assert RawOk(values[idx], RawKey(idx), RawCount(idx), countsWidth, x);
      IncSlotCount(idx);
      slots := slots[idx := Live(x.key, Entry(x.entry.value, x.entry.count + 1))];
      forall i | 0 <= i < |slots| ensures RawOk(values[i], RawKey(i), RawCount(i), countsWidth, slots[i]) {
        assert counts[i] == counts[..][i];
        assert i != idx ==> old(RawOk(values[i], RawKey(i), RawCount(i), countsWidth, was[i]));
      }
      forall i | 0 <= i < |slots| && !slots[i].Live? ensures counts[i] == 0 {
        assert counts[i] == counts[..][i];
      }
    }

    /** Puts a new key into a free slot and counts it. */
    method Fill(idx: nat, key: Word, value: Word)
      requires Stores() && idx < |slots| && !slots[idx].Live?
      requires Usable(key) && Usable(value) && (!hasKeys ==> key == value)
      modifies this`counts, this`countsWidth, this`slots, values, keys, counts
      ensures Stores() && counts == old(counts)
      ensures slots == old(slots)[idx := Live(key, Entry(value, 1))]
    {
      if hasCounts {
        IncSlotCount(idx);
      }
      values[idx] := Encode(value);
      if hasKeys {
        keys[idx] := Encode(key);
      }
      RawLive(value, key, 1, countsWidth);
      slots := slots[idx := Live(key, Entry(value, 1))];
    }

    // ----- Rehashing -----

    /** The smallest table that holds `capacity` entries. */
    method IndexForCapacity(capacity: nat) returns (idx: nat)
      requires GrowthOk(growth) && capacity <= growth.capacities[|growth.capacities| - 1]
      ensures idx < |growth.sizes| && capacity <= growth.capacities[idx]
      ensures forall i | 0 <= i < idx :: growth.capacities[i] < capacity
    {
      idx := 0;
      while idx < |growth.capacities| - 1 && growth.capacities[idx] < capacity
        invariant idx < |growth.capacities|
        invariant forall i | 0 <= i < idx :: growth.capacities[i] < capacity
      {
        idx := idx + 1;
      }
    }

    /** There is a table size for `extra` more entries; the source halts otherwise. */
    ghost predicate CanGrow(extra: nat)
      reads this`usedBuckets
    {
      && GrowthOk(growth)
      && usedBuckets + extra <= growth.capacities[|growth.capacities| - 1]
      && (extra == 1 && fastGrow ==>
            |growth.capacities| > 1 && usedBuckets + 1 <= growth.capacities[|growth.capacities| - 2])
    }

    /** The size to rehash to: for more entries, for those there are, or the present one. */
    method NewIndex(newItemCount: int) returns (idx: nat)
      requires GrowthOk(growth) && numBucketsIdx < |growth.sizes| && usedBuckets <= growth.capacities[numBucketsIdx]
      requires newItemCount > 0 ==> CanGrow(newItemCount)
      ensures idx < |growth.sizes| && usedBuckets <= growth.capacities[idx]
      ensures newItemCount > 0 ==> usedBuckets + newItemCount <= growth.capacities[idx]
      ensures newItemCount == 0 ==> idx == numBucketsIdx
    {
      idx := numBucketsIdx;
      if newItemCount != 0 {
        var extra := if newItemCount < 0 then 0 else newItemCount;
        idx := IndexForCapacity(usedBuckets + extra);
        if 1 == newItemCount && fastGrow {
          idx := idx + 1;
        }
      }
    }

    /** Zeroed stores of another size. */
    method AllocateStores(idx: nat)
      requires Shaped() && idx < |growth.sizes|
      modifies this`values, this`keys, this`counts, this`numBucketsIdx
      ensures Shaped() && numBucketsIdx == idx && fresh(values) && fresh(keys) && fresh(counts)
      ensures forall i | 0 <= i < values.Length :: values[i] == 0 && RawKey(i) == 0
      ensures forall i | 0 <= i < counts.Length :: counts[i] == 0
    {
      numBucketsIdx := idx;
      var n := growth.sizes[idx];
      values := new Word[n](_ => 0);
      keys := new Word[n](_ => 0);
      counts := new nat[n](_ => 0);
    }

    method Allocate(idx: nat)
      requires Shaped() && idx < |growth.sizes|
      modifies this`values, this`keys, this`counts, this`numBucketsIdx, this`slots
      ensures numBucketsIdx == idx && fresh(values) && fresh(keys) && fresh(counts) && |slots| == growth.sizes[idx]
      ensures Loose() && Lives(slots) == 0 && Deletes(slots) == 0 && Model() == map[]
    {
      AllocateStores(idx);
      slots := seq(growth.sizes[idx], _ => Empty);
      AllEmpty(slots);
      EmptyWellPlaced(hash, slots);
      forall i | 0 <= i < |slots| ensures RawOk(values[i], RawKey(i), RawCount(i), countsWidth, slots[i]) {
        RawFree(RawCount(i), countsWidth);
      }
    }

    /** The first `i` of the old slots have been moved. */
    ghost predicate Moved(was: seq<Slot>, i: nat)
      requires i <= |was|
      reads this`slots
    {
      Deletes(slots) == 0 && Lives(slots) == Lives(was[..i]) && Model() == Contents(was[..i])
    }

    lemma Skip(was: seq<Slot>, i: nat)
      requires i < |was| && DistinctKeys(was) && !was[i].Live? && Moved(was, i)
      ensures Moved(was, i + 1)
    {
      PrefixAppend(was, i);
    }

    /** One old slot goes into the new table. */
    method Move(ghost was: seq<Slot>, ghost i: nat, value: Word, key: Word, count: nat)
      requires i < |was| && DistinctKeys(was) && was[i] == Live(key, Entry(value, count)) && Lives(was) <= |slots|
      requires Loose() && Moved(was, i)
      requires Usable(key) && Usable(value) && (!hasKeys ==> key == value)
      requires 1 <= count <= WidthMax(countsWidth) && (!hasCounts ==> count == 1)
      modifies this`slots, values, keys, counts
      ensures Loose() && Moved(was, i + 1) && |slots| == old(|slots|)
    {
      ghost var s, x := slots, Live(key, Entry(value, count));
      PrefixAppend(was, i);
      LivesPrefix(was, i);
      HoldsIffContents(s, key);
      var idx := FindEmpty(key);
      AfterInsert(hash, s, idx, key, x.entry);
      RawLive(value, key, count, countsWidth);
      Put(idx, Encode(value), Encode(key), count, x);
    }

    /** What the old stores mean. */
    ghost predicate OldStores(was: seq<Slot>, oldValues: array<Word>, oldKeys: array<Word>, oldCounts: array<nat>,
                              width: nat)
      reads oldValues, oldKeys, oldCounts
    {
      && oldValues.Length == |was| && (hasKeys ==> oldKeys.Length == |was|) && (hasCounts ==> oldCounts.Length == |was|)
      && DistinctKeys(was)
      && forall i | 0 <= i < |was| ::
           RawOk(oldValues[i], if hasKeys then oldKeys[i] else oldValues[i],
                 if hasCounts then oldCounts[i] else 1, width, was[i])
    }

    lemma StoresBefore()
      requires Loose()
      ensures OldStores(slots, values, keys, counts, countsWidth)
    {
      WellPlacedMeans(hash, slots);
      forall i | 0 <= i < |slots|
        ensures RawOk(values[i], if hasKeys then keys[i] else values[i],
                      if hasCounts then counts[i] else 1, countsWidth, slots[i])
      {
        assert RawOk(values[i], RawKey(i), RawCount(i), countsWidth, slots[i]);
      }
    }

    /** All old slots go into new, empty stores. */
    method MoveAll(ghost was: seq<Slot>, oldValues: array<Word>, oldKeys: array<Word>, oldCounts: array<nat>)
      requires Loose() && Lives(slots) == 0 && Deletes(slots) == 0 && Model() == map[]
      requires {oldValues as object, oldKeys, oldCounts} !! {values as object, keys, counts}
      requires OldStores(was, oldValues, oldKeys, oldCounts, countsWidth) && Lives(was) <= |slots|
      modifies this`slots, values, keys, counts
      ensures Loose() && Deletes(slots) == 0 && Lives(slots) == Lives(was) && Model() == Contents(was)
    {
      assert was[..0] == [];
      AllEmpty([]);
      var i := 0;
      while i < oldValues.Length
        invariant 0 <= i <= oldValues.Length
        invariant Loose() && Moved(was, i) && |slots| == old(|slots|)
      {
        DecodedUsable(oldValues[i]);
        if oldValues[i] != 0 && oldValues[i] != ONES {
          var value := Decode(oldValues[i]);
          var key := value;
          if hasKeys {
            key := Decode(oldKeys[i]);
          }
          Move(was, i, value, key, if hasCounts then oldCounts[i] else 1);
        } else {
          Skip(was, i);
        }
        i := i + 1;
      }
      assert was[..i] == was;
    }

    /**
     Rebuilds the table without tombstones, for `newItemCount` more entries (for the
     entries it has if negative, in the same size if 0).
     */
    method Rehash(newItemCount: int)
      requires Sound() && (newItemCount > 0 ==> CanGrow(newItemCount))
      modifies this
      ensures Valid() && deleted == 0 && fresh(values) && fresh(keys) && fresh(counts)
      ensures Model() == old(Model()) && usedBuckets == old(usedBuckets)
      ensures newItemCount > 0 ==> usedBuckets + newItemCount <= growth.capacities[numBucketsIdx]
      ensures newItemCount == 0 ==> numBucketsIdx == old(numBucketsIdx)
    {
      var newIdx := NewIndex(newItemCount);
      Rebuild(newIdx);
    }

    /** Moves every entry into new stores. */
    method Rebuild(newIdx: nat)
      requires Sound() && newIdx < |growth.sizes| && usedBuckets <= growth.capacities[newIdx]
      modifies this
      ensures Valid() && deleted == 0 && fresh(values) && fresh(keys) && fresh(counts)
      ensures Model() == old(Model()) && usedBuckets == old(usedBuckets) && numBucketsIdx == newIdx
    {
      var oldValues, oldKeys, oldCounts := values, keys, counts;
      ghost var was := slots;
      StoresBefore();
      Allocate(newIdx);
      deleted := 0;
      MoveAll(was, oldValues, oldKeys, oldCounts);
    }

    // ----- Operations on a bucket -----

    /** Room for one more entry, without a rehash or with one that is possible. */
    ghost predicate HasRoom()
      requires GrowthOk(growth) && numBucketsIdx < |growth.sizes|
      reads this
    {
      usedBuckets < growth.capacities[numBucketsIdx] || CanGrow(1)
    }

    /** A free slot for a new key, and a tombstone counter that no longer counts it. */
    ghost predicate SlotReady(key: Word, idx: nat)
      reads this
    {
      && idx < |slots| && !slots[idx].Live? && !HoldsKey(slots, key)
      && ClearTo(hash, slots, key, Steps(Home(hash, key, |slots|), idx, |slots|))
      && deleted + (if slots[idx].Deleted? then 1 else 0) == Deletes(slots) < 0x1_0000
    }

    /** Finds the slot for a new key, after a rehash if the table is full. */
    method Prepare(bucket: int, key: Word) returns (idx: nat)
      requires Valid() && PlaceFor(hash, slots, key, bucket) && HasRoom()
      modifies Repr()
      ensures Sound() && SlotReady(key, idx) && fresh(Repr() - old(Repr())) && Model() == old(Model())
      ensures usedBuckets == old(usedBuckets) < growth.capacities[numBucketsIdx]
    {
      if growth.capacities[numBucketsIdx] < usedBuckets + 1 {
        HoldsIffContents(slots, key);
        idx := Enlarge(key);
      } else {
        idx := Reuse(bucket, key);
      }
    }

    /** A full table is rebuilt, and the key gets a slot in the new one. */
    method Enlarge(key: Word) returns (idx: nat)
      requires Valid() && CanGrow(1) && key !in Model()
      modifies this
      ensures Sound() && SlotReady(key, idx) && fresh(values) && fresh(keys) && fresh(counts) && Model() == old(Model())
      ensures usedBuckets == old(usedBuckets) < growth.capacities[numBucketsIdx]
    {
      Rehash(1);
      HoldsIffContents(slots, key);
      idx := FindEmpty(key);
    }

    /** A table that is not full: the bucket found by probing is a free slot. */
    method Reuse(bucket: int, key: Word) returns (idx: nat)
      requires Valid() && PlaceFor(hash, slots, key, bucket) && usedBuckets < growth.capacities[numBucketsIdx]
      modifies this`deleted
      ensures Sound() && SlotReady(key, idx)
    {
      if bucket < 0 {
        FullCount(slots);
        assert false;
      }
      idx := bucket;
      assert RawOk(values[idx], RawKey(idx), RawCount(idx), countsWidth, slots[idx]);
      CountsUpdate(slots, idx, Empty);
      if values[idx] == ONES {
        deleted := deleted - 1;
      }
    }

    method AddAt(bucket: int, key: Word, value: Word)
      requires Valid() && PlaceFor(hash, slots, key, bucket) && HasRoom()
      requires Usable(key) && Usable(value) && (!hasKeys ==> key == value)
      modifies Repr()
      ensures Valid() && fresh(Repr() - old(Repr()))
      ensures Model() == old(Model())[key := Entry(value, 1)] && usedBuckets == old(usedBuckets) + 1
    {
      var idx := Prepare(bucket, key);
      PutNew(idx, key, value);
    }

    method PutNew(idx: nat, key: Word, value: Word)
      requires Sound() && SlotReady(key, idx) && usedBuckets < growth.capacities[numBucketsIdx]
      requires Usable(key) && Usable(value) && (!hasKeys ==> key == value)
      modifies this`slots, this`usedBuckets, this`counts, this`countsWidth, values, keys, counts
      ensures Valid() && Model() == old(Model())[key := Entry(value, 1)] && usedBuckets == old(usedBuckets) + 1
      ensures counts == old(counts)
    {
      AfterInsert(hash, slots, idx, key, Entry(value, 1));
      Fill(idx, key, value);
      usedBuckets := usedBuckets + 1;
    }

    /** Gives a live slot another value; the key that is passed takes the place of the equal one. */
    method ReplaceAt(idx: nat, key: Word, value: Word)
      requires Valid() && idx < |slots| && slots[idx].Live? && slots[idx].key == key
      requires Usable(key) && Usable(value) && (!hasKeys ==> key == value)
      modifies Repr()
      ensures Valid() && fresh(Repr() - old(Repr())) && usedBuckets == old(usedBuckets)
      ensures Model() == old(Model())[key := Entry(value, old(slots[idx].entry.count))]
    {
      var count := RawCount(idx);
      assert RawOk(values[idx], RawKey(idx), count, countsWidth, slots[idx]);
      ghost var s, x := slots, Live(key, Entry(value, count));
      AfterUpdate(hash, s, idx, x.entry);
      RawLive(value, key, count, countsWidth);
      Put(idx, Encode(value), Encode(key), count, x);
    }

    /** Turns a live slot into a tombstone. The counter of tombstones has 16 bits. */
    method Bury(idx: nat)
      requires Valid() && idx < |slots| && slots[idx].Live? && slots[idx].entry.count == 1
      modifies this`slots, this`usedBuckets, this`deleted, values, keys, counts
      ensures Sound() && usedBuckets == old(usedBuckets) - 1
      ensures Model() == old(Model()) - {old(slots[idx].key)}
      ensures deleted == Deletes(slots) % 0x1_0000 && Deletes(slots) <= 0x1_0000
    {
      AfterRemove(hash, slots, idx);
      PutTombstone(idx);
      usedBuckets := usedBuckets - 1;
      deleted := (deleted + 1) % 0x1_0000;
    }

    method PutTombstone(idx: nat)
      requires Stores() && idx < |slots| && slots[idx].Live? && slots[idx].entry.count == 1
      modifies this`slots, values, keys, counts
      ensures Stores() && slots == old(slots)[idx := Deleted]
    {
      var count := RawCount(idx);
      assert RawOk(values[idx], RawKey(idx), count, countsWidth, slots[idx]);
      RawFree(if hasCounts then count - 1 else 1, countsWidth);
      Put(idx, ONES, ONES, count - 1, Deleted);
    }

    /** Removes a live slot, and rebuilds the table if it has become sparse or the tombstone counter rolled over. */
    method RemoveAt(idx: nat)
      requires Valid() && idx < |slots| && slots[idx].Live? && slots[idx].entry.count == 1
      modifies Repr()
      ensures Valid() && fresh(Repr() - old(Repr())) && usedBuckets == old(usedBuckets) - 1
      ensures Model() == old(Model()) - {old(slots[idx].key)}
    {
      Bury(idx);
      Tidy();
    }

    /**
     Rebuilds the table if it has become sparse, if a quarter of it is tombstones, or if their
     counter rolled over.
     */
    method Tidy()
      requires Sound() && deleted == Deletes(slots) % 0x1_0000 && Deletes(slots) <= 0x1_0000
      modifies this
      ensures Valid() && Model() == old(Model()) && usedBuckets == old(usedBuckets)
      ensures (values == old(values) && keys == old(keys) && counts == old(counts)) ||
              (fresh(values) && fresh(keys) && fresh(counts))
    {
      var behind := if fastGrow then 5 else 2;
      if behind < numBucketsIdx && usedBuckets < growth.capacities[numBucketsIdx - behind] {
        Rehash(-1);
        return;
      }
      var numBuckets := growth.sizes[numBucketsIdx];
      if deleted == 0 || (20 <= numBuckets && numBuckets / 4 <= deleted) {
        Rehash(0);
      }
    }

    // ----- The public operations -----

    /** The words a caller may store; without keys the value serves as the key. */
    predicate Storable(key: Word, value: Word) {
      Usable(key) && Usable(value) && (!hasKeys ==> key == value)
    }

    /**
     Adds a key that is not there. One that is there counts once more in a table that counts, and is
     left alone otherwise.
     */
    method AddValue(key: Word, value: Word) returns (added: bool)
      requires Valid() && Storable(key, value) && (key !in Model() ==> HasRoom())
      modifies Repr()
      ensures Valid() && fresh(Repr() - old(Repr()))
      ensures Model() == Plus(old(Model()), key, value, hasCounts)
      ensures OthersKept(old(Model()), Model(), key) && key in Model()
      ensures key !in old(Model()) ==> Model()[key] == Entry(value, 1)
      ensures key in old(Model()) ==> Model()[key].value == old(Model())[key].value
      ensures key in old(Model()) && !hasCounts ==> Model()[key].count == old(Model())[key].count
      ensures key in old(Model()) && hasCounts && old(Model())[key].count < 0x7FFF_FFFF_FFFF_FFFF ==>
                Model()[key].count == old(Model())[key].count + 1
      ensures key in old(Model()) && old(Model())[key].count >= 0x7FFF_FFFF_FFFF_FFFF ==>
                Model()[key].count == old(Model())[key].count
      ensures added == (key !in old(Model()) || (hasCounts && old(Model())[key].count < LONG_MAX))
    {
      PlusKeepsOthers(Model(), key, value, hasCounts);
      var idx, count := Locate(key);
      if 0 < count {
        added := AddAgain(idx, key, value, count);
      } else {
        AddAt(idx, key, value);
        added := true;
      }
    }

    /** A key that is there. */
    method AddAgain(idx: nat, key: Word, ghost value: Word, count: nat) returns (added: bool)
      requires Valid() && idx < |slots| && slots[idx].Live? && slots[idx].key == key && count == slots[idx].entry.count
      requires key in Model() && Model()[key] == slots[idx].entry
      modifies Repr()
      ensures Valid() && fresh(Repr() - old(Repr())) && Model() == Plus(old(Model()), key, value, hasCounts)
      ensures added == (hasCounts && count < LONG_MAX)
    {
      added := hasCounts && count < LONG_MAX;
      if added {
        CountUp(idx);
      }
    }

    /** Changes the value of a key that is there. */
    method ReplaceValue(key: Word, value: Word)
      requires Valid() && Storable(key, value)
      modifies Repr()
      ensures Valid() && fresh(Repr() - old(Repr()))
      ensures Model() == if key in old(Model()) then old(Model())[key := Entry(value, old(Model())[key].count)]
                         else old(Model())
    {
      var idx, count := Locate(key);
      if 0 < count {
        ReplaceAt(idx, key, value);
      }
    }

    /** Adds a key or changes its value. */
    method SetValue(key: Word, value: Word)
      requires Valid() && Storable(key, value) && (key !in Model() ==> HasRoom())
      modifies Repr()
      ensures Valid() && fresh(Repr() - old(Repr()))
      ensures Model() == old(Model())[key := Entry(value, if key in old(Model()) then old(Model())[key].count else 1)]
    {
      var idx, count := Locate(key);
      if 0 < count {
        ReplaceAt(idx, key, value);
      } else {
        AddAt(idx, key, value);
      }
    }

    /** Takes away one occurrence of a key; a count that has reached the limit stays there. Returns the count before. */
    method RemoveValue(key: Word) returns (count: nat)
      requires Valid()
      modifies Repr()
      ensures Valid() && fresh(Repr() - old(Repr()))
      ensures count == if key in old(Model()) then old(Model())[key].count else 0
      ensures Model() == Minus(old(Model()), key) && OthersKept(old(Model()), Model(), key)
      ensures key in Model() <==> count > 1
      ensures 1 < count ==> Model()[key].value == old(Model())[key].value
      ensures 1 < count < 0x7FFF_FFFF_FFFF_FFFF ==> Model()[key].count == count - 1
      ensures 0x7FFF_FFFF_FFFF_FFFF <= count ==> Model()[key].count == count
    {
      count := FindAndTake(key);
      MinusMeans(old(Model()), Model(), key, count);
    }

    method FindAndTake(key: Word) returns (count: nat)
      requires Valid()
      modifies Repr()
      ensures Valid() && fresh(Repr() - old(Repr()))
      ensures count == (if key in old(Model()) then old(Model())[key].count else 0) &&
              Model() == Minus(old(Model()), key)
    {
      if key == SUB_ZERO || key == SUB_ONES {
        NeverStored(key);
        return 0;
      }
      var idx, found := Locate(key);
      count := found;
      if 0 < count {
        TakeOne(idx, count);
      }
    }

    method TakeOne(idx: nat, count: nat)
      requires Valid() && idx < |slots| && slots[idx].Live? && count == slots[idx].entry.count > 0
      requires slots[idx].key in Model() && Model()[slots[idx].key] == slots[idx].entry
      modifies Repr()
      ensures Valid() && fresh(Repr() - old(Repr())) && Model() == Minus(old(Model()), old(slots[idx].key))
    {
      if 1 < count {
        assert RawOk(values[idx], RawKey(idx), RawCount(idx), countsWidth, slots[idx]);
        if hasCounts && count < LONG_MAX {
          CountDown(idx);
        }
      } else {
        RemoveAt(idx);
      }
    }

    /** Takes back one occurrence of the key of a live slot that has more. */
    method CountDown(idx: nat)
      requires Valid() && hasCounts && idx < |slots| && slots[idx].Live? && slots[idx].entry.count > 1
      modifies this`slots, counts
      ensures Valid() && fresh(Repr() - old(Repr()))
      ensures var x := old(slots[idx]);
              Model() == old(Model())[x.key := Entry(x.entry.value, x.entry.count - 1)]
    {
      assert RawOk(values[idx], RawKey(idx), RawCount(idx), countsWidth, slots[idx]);
      AfterUpdate(hash, slots, idx, Entry(slots[idx].entry.value, slots[idx].entry.count - 1));
      DecStored(idx);
    }

    method DecStored(idx: nat)
      requires Stores() && hasCounts && idx < |slots| && slots[idx].Live? && slots[idx].entry.count > 1
      modifies this`slots, counts
      ensures Stores()
      ensures var x := old(slots[idx]);
              slots == old(slots)[idx := Live(x.key, Entry(x.entry.value, x.entry.count - 1))]
    {
      ghost var x := slots[idx];
      assert RawOk(values[idx], RawKey(idx), RawCount(idx), countsWidth, x);
      counts[idx] := counts[idx] - 1;
      slots := slots[idx := Live(x.key, Entry(x.entry.value, x.entry.count - 1))];
    }

    /** The two substitutes are never found: they decode to other words. */
    lemma NeverStored(key: Word)
      requires Loose() && !Usable(key)
      ensures key !in Model()
    {
      HoldsIffContents(slots, key);
      forall p | 0 <= p < |slots| && slots[p].Live? ensures slots[p].key != key {
        assert RawOk(values[p], RawKey(p), RawCount(p), countsWidth, slots[p]);
        DecodedUsable(RawKey(p));
      }
    }

    method RemoveAllValues()
      requires Valid()
      modifies Repr()
      ensures Valid() && fresh(Repr() - old(Repr())) && Model() == map[]
    {
      if 0 == numBucketsIdx {
        AllEmpty(slots);
        return;
      }
      usedBuckets, deleted := 0, 0;
      Allocate(0);
    }

    /** Makes room for `capacity` entries in all. */
    method SetCapacity(capacity: nat)
      requires Valid() && (usedBuckets < capacity ==> CanGrow(capacity - usedBuckets))
      modifies Repr()
      ensures Valid() && fresh(Repr() - old(Repr())) && Model() == old(Model())
      ensures old(usedBuckets) < capacity ==> capacity <= growth.capacities[numBucketsIdx]
    {
      if usedBuckets < capacity {
        Rehash(capacity - usedBuckets);
      }
    }

    // ----- Renumbering -----

    /** Renumbers one slot, and tells if its value was `position`. */
    method ShiftOne(idx: nat, up: bool, position: Word) returns (hit: bool)
      requires Stores() && hasKeys && idx < |slots|
      requires slots[idx].Live? ==> Usable(Shift(up, position, slots[idx].entry.value))
      modifies this`slots, values
      ensures Stores() && slots == old(slots)[idx := ShiftSlot(old(slots)[idx], up, position)]
      ensures hit == (old(slots)[idx].Live? && old(slots)[idx].entry.value == position)
    {
      ghost var x := slots[idx];
      assert RawOk(values[idx], RawKey(idx), RawCount(idx), countsWidth, x);
      hit := false;
      if values[idx] != 0 && values[idx] != ONES {
        var value := Decode(values[idx]);
        hit := value == position;
        values[idx] := Encode(Shift(up, position, value));
      }
      slots := slots[idx := ShiftSlot(x, up, position)];
    }

    /** Renumbers every value. Also finds a slot whose value was `position`; negative if there is none. */
    method ShiftAll(up: bool, position: Word) returns (found: int)
      requires Valid() && hasKeys && CanShift(up, position, Model())
      modifies this`slots, values
      ensures Valid() && Model() == ShiftMap(old(Model()), up, position) && Shifted(old(slots), slots, up, position)
      ensures LastWith(old(slots), |old(slots)|, position, found)
    {
      ghost var was := slots;
      var i := 0;
      found := -1;
      while i < values.Length
        invariant 0 <= i <= |slots| == |was| == values.Length && Stores()
        invariant ShiftedTo(was, slots, i, up, position) && LastWith(was, i, position, found)
      {
        CanShiftAt(hash, was, i, up, position);
        ShiftedNext(was, slots, i, up, position);
        var hit := ShiftOne(i, up, position);
        if hit {
          found := i;
        }
        i := i + 1;
      }
      ShiftedKeeps(hash, was, slots, up, position);
    }

    /** A full table is rebuilt before anything else changes; the bucket is found again. */
    method MakeRoom(bucket: int, key: Word) returns (idx: int)
      requires Valid() && PlaceFor(hash, slots, key, bucket) && HasRoom()
      modifies Repr()
      ensures Valid() && fresh(Repr() - old(Repr())) && Model() == old(Model())
      ensures PlaceFor(hash, slots, key, idx) && usedBuckets < growth.capacities[numBucketsIdx]
    {
      idx := bucket;
      if growth.capacities[numBucketsIdx] < usedBuckets + 1 {
        HoldsIffContents(slots, key);
        Rehash(1);
        HoldsIffContents(slots, key);
        idx := FindEmpty(key);
      }
    }

    /** Inserts into a table that has room. */
    method InsertAt(idx: int, key: Word, position: Word)
      requires Valid() && hasKeys && Usable(key) && Usable(position) && CanShift(true, position, Model())
      requires PlaceFor(hash, slots, key, idx) && usedBuckets < growth.capacities[numBucketsIdx]
      modifies Repr()
      ensures Valid() && fresh(Repr() - old(Repr())) && Model() == Inserted(old(Model()), key, position)
    {
      var _ := ShiftAll(true, position);
      ShiftedPlace(hash, old(slots), slots, true, position, key, idx);
      AddAt(idx, key, position);
    }

    method InsertNew(bucket: int, key: Word, position: Word)
      requires Valid() && hasKeys && Usable(key) && Usable(position) && CanShift(true, position, Model())
      requires PlaceFor(hash, slots, key, bucket) && HasRoom()
      modifies Repr()
      ensures Valid() && fresh(Repr() - old(Repr())) && Model() == Inserted(old(Model()), key, position)
    {
      var idx := MakeRoom(bucket, key);
      ghost var between := Repr();
      InsertAt(idx, key, position);
      assert Repr() - old(Repr()) <= (Repr() - between) + (between - old(Repr()));
    }

    /**
     Inserts `key` at a position: every position from there on moves up by one. Nothing happens if
     the key is there.
     */
    method AddIntValueAndInc(key: Word, position: Word) returns (added: bool)
      requires Valid() && hasKeys && Usable(key) && Usable(position)
      requires key !in Model() ==> HasRoom() && CanShift(true, position, Model())
      modifies Repr()
      ensures Valid() && fresh(Repr() - old(Repr())) && added == (key !in old(Model()))
      ensures Model() == if added then Inserted(old(Model()), key, position) else old(Model())
      ensures added ==> Model().Keys == old(Model()).Keys + {key} && Model()[key] == Entry(position, 1)
      ensures added ==> forall k | k in old(Model()) ::
                var e := old(Model())[k];
                Model()[k].count == e.count && Model()[k].value == if e.value < position then e.value else e.value + 1
    {
      var bucket, count := Locate(key);
      added := count == 0;
      if added {
        InsertNew(bucket, key, position);
      }
    }

    /** Removes the key at a position: every position behind it moves down by one. */
    method RemoveIntValueAndDec(position: Word) returns (ghost key: Word)
      requires Valid() && hasKeys && Usable(position) && CanShift(false, position, Model())
      requires HasValue(Model(), position) && Once(Model(), position)
      modifies Repr()
      ensures Valid() && fresh(Repr() - old(Repr()))
      ensures key in old(Model()) && old(Model())[key].value == position
      ensures Model() == Withdrawn(old(Model()), key, position) && Model().Keys == old(Model()).Keys - {key}
      ensures forall k | k in Model() ::
                var e := old(Model())[k];
                Model()[k].count == e.count && Model()[k].value == if e.value <= position then e.value else e.value - 1
    {
      var found := ShiftAll(false, position);
      LastFound(hash, old(slots), slots, position, found);
      key := slots[found].key;
      RemoveFound(found, position);
    }

    method RemoveFound(found: nat, position: Word)
      requires Valid() && found < |slots| && slots[found].Live? && slots[found].entry.count == 1
      modifies Repr()
      ensures Valid() && fresh(Repr() - old(Repr()))
      ensures Model() == old(Model()) - {old(slots)[found].key}
    {
      RemoveAt(found);
    }

    // ----- Counting -----

    /** How many entries there are, each as often as it counts. */
    method GetCount() returns (total: nat)
      requires Valid()
      ensures total == Total(slots)
    {
      if !hasCounts {
        AllOnce(slots);
        return usedBuckets;
      }
      total := 0;
      var i := 0;
      while i < values.Length
        invariant 0 <= i <= |slots| && total == Total(slots[..i])
      {
        assert slots[..i + 1][..i] == slots[..i];
        assert RawOk(values[i], RawKey(i), RawCount(i), countsWidth, slots[i]);
        total := total + counts[i];
        i := i + 1;
      }
      assert slots[..i] == slots;
    }
  }
}
