/** The bit vector: buckets of eight bits, changed and counted range by range. */
module BitVector {
  import opened Bits

  ghost predicate BitAt(b: seq<Bucket>, i: nat)
    requires i / 8 < |b|
  {
    Bit(b[i / 8], i % 8)
  }

  ghost function BitsOf(b: seq<Bucket>, n: nat): seq<bool>
    requires n <= 8 * |b|
  {
    seq(n, i requires 0 <= i < n => BitAt(b, i))
  }

  // ----- Mappers -----

  /** What is done with each bucket; the last one counts the bits that have a value and changes nothing. */
  datatype Mapper = Zero | One | Flip | Count(value: bool)

  /** What a mapper makes of a single bit. */
  function MapBit(m: Mapper, bit: bool): bool {
    match m
    case Zero => false
    case One => true
    case Flip => !bit
    case Count(_) => bit
  }

  function MapBucket(m: Mapper, b: Bucket): Bucket {
    match m
    case Zero => 0
    case One => 0xFF
    case Flip => 0xFF ^ b
    case Count(_) => b
  }

  lemma MapBucketBits(m: Mapper, b: Bucket, k: nat)
    requires k < 8
    ensures Bit(MapBucket(m, b), k) == MapBit(m, Bit(b, k))
  {
    match m
    case Zero => NoneAt(k);
    case One => AllAt(k);
    case Flip =>
      XorAt(0xFF, b, k);
      AllAt(k);
    case Count(_) =>
  }

  /** The bits of bucket `j` between `lo` and `hi` are mapped, and no others. */
  ghost predicate Mapped(m: Mapper, was: Bucket, now: Bucket, j: nat, lo: nat, hi: nat) {
    forall k | 0 <= k < 8 :: Bit(now, k) == if lo <= 8 * j + k < hi then MapBit(m, Bit(was, k)) else Bit(was, k)
  }

  /** The part of the range that lies in bucket `j`. */
  predicate Covers(j: nat, lo: nat, hi: nat, bottom: nat, top: nat) {
    && (lo == 8 * j + bottom || (bottom == 0 && lo <= 8 * j))
    && (hi == 8 * j + top + 1 || (top == 7 && 8 * j + 8 <= hi))
  }

  /** Changing one bucket under a mask. */
  lemma MaskedIsMapped(m: Mapper, was: Bucket, j: nat, lo: nat, hi: nat, bottom: nat, top: nat)
    requires bottom <= top < 8 && Covers(j, lo, hi, bottom, top)
    ensures Mapped(m, was, Merge(was, MapBucket(m, was), Mask(bottom, top)), j, lo, hi)
  {
    forall k | 0 <= k < 8
      ensures Bit(Merge(was, MapBucket(m, was), Mask(bottom, top)), k)
           == if bottom <= k <= top then MapBit(m, Bit(was, k)) else Bit(was, k)
    {
      MergeAt(was, MapBucket(m, was), Mask(bottom, top), k);
      MaskBits(bottom, top, k);
      MapBucketBits(m, was, k);
    }
  }

  lemma WholeIsMapped(m: Mapper, was: Bucket, j: nat, lo: nat, hi: nat)
    requires lo <= 8 * j && 8 * j + 8 <= hi
    ensures Mapped(m, was, MapBucket(m, was), j, lo, hi)
  {
    forall k | 0 <= k < 8 ensures Bit(MapBucket(m, was), k) == MapBit(m, Bit(was, k)) {
      MapBucketBits(m, was, k);
    }
  }

  /** All buckets of a vector. */
  ghost predicate AllMapped(m: Mapper, was: seq<Bucket>, now: seq<Bucket>, lo: nat, hi: nat) {
    |was| == |now| && forall j | 0 <= j < |was| :: Mapped(m, was[j], now[j], j, lo, hi)
  }

  /** Bit by bit: those in the range are mapped, all others are as they were. */
  lemma MappedBits(m: Mapper, was: seq<Bucket>, now: seq<Bucket>, lo: nat, hi: nat, i: nat)
    requires AllMapped(m, was, now, lo, hi) && i / 8 < |was|
    ensures BitAt(now, i) == if lo <= i < hi then MapBit(m, BitAt(was, i)) else BitAt(was, i)
  {
    var j, k := i / 8, i % 8;
    assert Mapped(m, was[j], now[j], j, lo, hi) && i == 8 * j + k;
  }

  // ----- Counting -----

  /** How many bits from `lo` up to `hi` have the value. */
  ghost function Occurs(b: seq<Bucket>, lo: nat, hi: nat, value: bool): nat
    requires hi <= 8 * |b|
    decreases hi
  {
    if hi <= lo then 0 else Occurs(b, lo, hi - 1, value) + Bits.One(BitAt(b, hi - 1) == value)
  }

  /** The same on the bits themselves. */
  ghost function CountOf(s: seq<bool>, value: bool): nat {
    if s == [] then 0 else CountOf(s[..|s| - 1], value) + Bits.One(s[|s| - 1] == value)
  }

  lemma {:induction false} CountIsMultiplicity(s: seq<bool>, value: bool)
    ensures CountOf(s, value) == multiset(s)[value]
  {
    if s != [] {
      CountIsMultiplicity(s[..|s| - 1], value);
      assert s == s[..|s| - 1] + [s[|s| - 1]];
    }
  }

  lemma {:induction false} OccursIsCount(b: seq<Bucket>, n: nat, lo: nat, hi: nat, value: bool)
    requires lo <= hi <= n <= 8 * |b|
    ensures Occurs(b, lo, hi, value) == CountOf(BitsOf(b, n)[lo..hi], value)
    decreases hi
  {
    if lo < hi {
      OccursIsCount(b, n, lo, hi - 1, value);
      var s := BitsOf(b, n)[lo..hi];
      assert s[..|s| - 1] == BitsOf(b, n)[lo..hi - 1];
    }
  }

  lemma OccursMultiplicity(b: seq<Bucket>, n: nat, lo: nat, hi: nat, value: bool)
    requires lo <= hi <= n <= 8 * |b|
    ensures Occurs(b, lo, hi, value) == multiset(BitsOf(b, n)[lo..hi])[value]
  {
    OccursIsCount(b, n, lo, hi, value);
    CountIsMultiplicity(BitsOf(b, n)[lo..hi], value);
  }

  lemma {:induction false} OccursSplit(b: seq<Bucket>, lo: nat, mid: nat, hi: nat, value: bool)
    requires lo <= mid <= hi <= 8 * |b|
    ensures Occurs(b, lo, hi, value) == Occurs(b, lo, mid, value) + Occurs(b, mid, hi, value)
    decreases hi
  {
    if mid < hi {
      OccursSplit(b, lo, mid, hi - 1, value);
    }
  }

  /** The bits of one bucket that are to be counted. */
  function Chosen(b: Bucket, mask: Bucket, value: bool): Bucket {
    if value then b & mask else !b & mask
  }

  lemma ChosenBits(b: Bucket, bottom: nat, top: nat, value: bool, k: nat)
    requires bottom <= top < 8 && k < 8
    ensures Bit(Chosen(b, Mask(bottom, top), value), k) == (bottom <= k <= top && Bit(b, k) == value)
  {
    MaskBits(bottom, top, k);
    if value {
      AndAt(b, Mask(bottom, top), k);
    } else {
      AndAt(!b, Mask(bottom, top), k);
      NotAt(b, k);
    }
  }

  /** Bits counted in one bucket are those of the range that lie in it. */
  lemma {:induction false} OnesOccur(b: seq<Bucket>, j: nat, bottom: nat, top: nat, value: bool, n: nat)
    requires j < |b| && bottom <= top < 8 && n <= 8
    ensures Ones(Chosen(b[j], Mask(bottom, top), value), n)
         == if n <= bottom then 0 else Occurs(b, 8 * j + bottom, 8 * j + (if n <= top then n else top + 1), value)
  {
    if n > 0 {
      OnesOccur(b, j, bottom, top, value, n - 1);
      ChosenBits(b[j], bottom, top, value, n - 1);
      var i := 8 * j + n - 1;
      assert i / 8 == j && i % 8 == n - 1;
    }
  }

  lemma BucketOccurs(b: seq<Bucket>, j: nat, bottom: nat, top: nat, value: bool)
    requires j < |b| && bottom <= top < 8
    ensures Ones(Chosen(b[j], Mask(bottom, top), value), 8) == Occurs(b, 8 * j + bottom, 8 * j + top + 1, value)
  {
    OnesOccur(b, j, bottom, top, value, 8);
  }

  /** The buckets below `j` are done and the others are as they were. */
  ghost predicate Doing(m: Mapper, was: seq<Bucket>, now: seq<Bucket>, j: nat, lo: nat, hi: nat) {
    && |was| == |now| && j <= |was|
    && (forall i | 0 <= i < j :: Mapped(m, was[i], now[i], i, lo, hi))
    && (forall i | j <= i < |was| :: now[i] == was[i])
  }

  lemma Outside(m: Mapper, was: Bucket, j: nat, lo: nat, hi: nat)
    requires 8 * j + 8 <= lo || hi <= 8 * j
    ensures Mapped(m, was, was, j, lo, hi)
  {
  }

  lemma DoingStart(m: Mapper, was: seq<Bucket>, lo: nat, hi: nat)
    requires lo / 8 <= |was|
    ensures Doing(m, was, was, lo / 8, lo, hi)
  {
    forall i | 0 <= i < lo / 8 ensures Mapped(m, was[i], was[i], i, lo, hi) {
      Outside(m, was[i], i, lo, hi);
    }
  }

  lemma DoingStep(m: Mapper, was: seq<Bucket>, now: seq<Bucket>, j: nat, lo: nat, hi: nat, b: Bucket)
    requires j < |was| && Doing(m, was, now, j, lo, hi) && Mapped(m, was[j], b, j, lo, hi)
    ensures Doing(m, was, now[j := b], j + 1, lo, hi)
  {
  }

  lemma DoingEnd(m: Mapper, was: seq<Bucket>, now: seq<Bucket>, j: nat, lo: nat, hi: nat)
    requires Doing(m, was, now, j, lo, hi) && hi <= 8 * j
    ensures AllMapped(m, was, now, lo, hi)
  {
    forall i | j <= i < |was| ensures Mapped(m, was[i], now[i], i, lo, hi) {
      Outside(m, was[i], i, lo, hi);
    }
  }

  ghost function Found(m: Mapper, b: seq<Bucket>, lo: nat, hi: nat): nat
    requires hi <= 8 * |b|
  {
    if m.Count? then Occurs(b, lo, hi, m.value) else 0
  }

  lemma FoundMore(m: Mapper, b: seq<Bucket>, lo: nat, j: nat, bottom: nat, top: nat)
    requires j < |b| && bottom <= top < 8 && (lo == 8 * j + bottom || (bottom == 0 && lo <= 8 * j))
    ensures m.Count? ==>
              Found(m, b, lo, 8 * j + top + 1)
              == Found(m, b, lo, 8 * j + bottom) + Ones(Chosen(b[j], Mask(bottom, top), m.value), 8)
  {
    if m.Count? {
      BucketOccurs(b, j, bottom, top, m.value);
      OccursSplit(b, lo, 8 * j + bottom, 8 * j + top + 1, m.value);
    }
  }

  /** Counts nibble by nibble. */
  method CountBits(b: Bucket, mask: Bucket, value: bool) returns (n: nat)
    ensures n == Ones(Chosen(b, mask, value), 8)
  {
    var val := if value then b & mask else !b & mask;
    AllOnes(val);
    n := NibbleCount(val & 0xF);
    val := val >> 4;
    n := n + NibbleCount(val & 0xF);
  }

  lemma WholeMask()
    ensures Mask(0, 7) == 0xFF
  {
    assert ShiftLeft(0xFF, 0) == 0xFF;
  }

  /** A range of bits through a mapper, and nothing else. */
  ghost function MapRange(m: Mapper, s: seq<bool>, lo: nat, hi: nat): seq<bool> {
    seq(|s|, i requires 0 <= i < |s| => if lo <= i < hi then MapBit(m, s[i]) else s[i])
  }

  lemma MappedRange(m: Mapper, was: seq<Bucket>, now: seq<Bucket>, n: nat, lo: nat, hi: nat)
    requires AllMapped(m, was, now, lo, hi) && n <= 8 * |was|
    ensures BitsOf(now, n) == MapRange(m, BitsOf(was, n), lo, hi)
  {
    forall i | 0 <= i < n ensures BitsOf(now, n)[i] == MapRange(m, BitsOf(was, n), lo, hi)[i] {
      MappedBits(m, was, now, lo, hi, i);
    }
  }

  lemma NothingMapped(m: Mapper, was: seq<Bucket>, lo: nat)
    ensures AllMapped(m, was, was, lo, lo)
  {
  }

  lemma SameBits(b: seq<Bucket>, d: seq<Bucket>, n: nat)
    requires n <= 8 * |b| && n <= 8 * |d| && forall j | 0 <= j < |b| && j < |d| :: b[j] == d[j]
    ensures BitsOf(b, n) == BitsOf(d, n)
  {
  }

  lemma ZeroTail(was: seq<Bucket>, now: seq<Bucket>, n: nat, m: nat)
    requires n <= m <= 8 * |was| && AllMapped(Zero, was, now, n, m)
    ensures BitsOf(now, m) == BitsOf(was, n) + seq(m - n, i => false)
  {
    MappedRange(Zero, was, now, m, n, m);
  }

  /** Whole buckets are set and the bits behind them already were. */
  lemma AllSet(tail: seq<Bucket>, now: seq<Bucket>, n: nat, value: bool)
    requires |tail| == |now| && n <= 8 * |now|
    requires forall i | n / 8 * 8 <= i < n :: BitsOf(tail, n)[i] == value
    requires forall j | 0 <= j < |now| :: now[j] == if j < n / 8 then (if value then 0xFF else 0) else tail[j]
    ensures BitsOf(now, n) == seq(n, i => value)
  {
    forall i | 0 <= i < n ensures BitAt(now, i) == value {
      if i / 8 < n / 8 {
        AllAt(i % 8);
        NoneAt(i % 8);
      } else {
        assert BitsOf(tail, n)[i] == value;
      }
    }
  }

  function RoundUpCapacity(capacity: nat): (r: nat)
    ensures capacity <= r && 0 < r && r % 64 == 0
  {
    ((if capacity == 0 then 1 else capacity) + 63) / 64 * 64
  }

  class Vector {
    var count: nat
    var capacity: nat
    var buckets: array<Bucket>

    ghost predicate Valid()
      reads this
    {
      count <= capacity && buckets.Length == capacity / 8 + 1
    }

    ghost function Bits(): seq<bool>
      requires Valid()
      reads this, buckets
    {
      BitsOf(buckets[..], count)
    }

    constructor (bytes: seq<Bucket>, numBits: nat)
      requires numBits <= 8 * |bytes|
      ensures Valid() && fresh(buckets) && |Bits()| == numBits
      ensures forall i | 0 <= i < numBits :: Bits()[i] == Bit(bytes[i / 8], i % 8)
    {
      var n := RoundUpCapacity(numBits);
      var b := new Bucket[n / 8 + 1](_ => 0);
      forall j | 0 <= j < (numBits + 7) / 8 {
        b[j] := bytes[j];
      }
      count, capacity, buckets := numBits, n, b;
      new;
      SameBits(bytes[..(numBits + 7) / 8], b[..], numBits);
      SameBits(bytes, bytes[..(numBits + 7) / 8], numBits);
    }

    /** One bucket under a mask. */
    method MapMasked(m: Mapper, j: nat, bottom: nat, top: nat, ghost was: seq<Bucket>, ghost lo: nat, ghost hi: nat,
                     sofar: nat) returns (n: nat)
      requires j < buckets.Length && bottom <= top < 8 && Covers(j, lo, hi, bottom, top)
      requires Doing(m, was, buckets[..], j, lo, hi) && sofar == Found(m, was, lo, 8 * j + bottom)
      modifies buckets
      ensures Doing(m, was, buckets[..], j + 1, lo, hi) && n == Found(m, was, lo, 8 * j + top + 1)
    {
      var mask, bucket := Mask(bottom, top), buckets[j];
      FoundMore(m, was, lo, j, bottom, top);
      n := sofar;
      if m.Count? {
        var more := CountBits(bucket, mask, m.value);
        n := n + more;
      }
      MaskedIsMapped(m, bucket, j, lo, hi, bottom, top);
      DoingStep(m, was, buckets[..], j, lo, hi, Merge(bucket, MapBucket(m, bucket), mask));
      ghost var before := buckets[..];
      buckets[j] := Merge(bucket, MapBucket(m, bucket), mask);
      assert buckets[..] == before[j := Merge(bucket, MapBucket(m, bucket), mask)];
    }

    /** A whole bucket. */
    method MapWhole(m: Mapper, j: nat, ghost was: seq<Bucket>, ghost lo: nat, ghost hi: nat, sofar: nat)
      returns (n: nat)
      requires j < buckets.Length && lo <= 8 * j && 8 * j + 8 <= hi
      requires Doing(m, was, buckets[..], j, lo, hi) && sofar == Found(m, was, lo, 8 * j)
      modifies buckets
      ensures Doing(m, was, buckets[..], j + 1, lo, hi) && n == Found(m, was, lo, 8 * j + 8)
    {
      FoundMore(m, was, lo, j, 0, 7);
      WholeMask();
      n := sofar;
      if m.Count? {
        var more := CountBits(buckets[j], 0xFF, m.value);
        n := n + more;
      }
      WholeIsMapped(m, buckets[j], j, lo, hi);
      DoingStep(m, was, buckets[..], j, lo, hi, MapBucket(m, buckets[j]));
      ghost var before := buckets[..];
      buckets[j] := MapBucket(m, buckets[j]);
      assert buckets[..] == before[j := MapBucket(m, before[j])];
    }

    /** Whole buckets, and then what is left of the last one. */
    method MapRest(m: Mapper, start: nat, length: nat, ghost was: seq<Bucket>, ghost lo: nat, ghost hi: nat, sofar: nat)
      returns (n: nat)
      requires start <= buckets.Length == |was| && lo <= 8 * start && hi == 8 * start + length <= 8 * |was|
      requires Doing(m, was, buckets[..], start, lo, hi) && sofar == Found(m, was, lo, 8 * start)
      modifies buckets
      ensures AllMapped(m, was, buckets[..], lo, hi) && n == Found(m, was, lo, hi)
    {
      n := sofar;
      var j, nBuckets, left := start, length / 8, length % 8;
      while nBuckets > 0
        invariant 0 <= nBuckets && start <= j && hi == 8 * j + 8 * nBuckets + left
        invariant Doing(m, was, buckets[..], j, lo, hi) && n == Found(m, was, lo, 8 * j)
        decreases nBuckets
      {
        n := MapWhole(m, j, was, lo, hi, n);
        j, nBuckets := j + 1, nBuckets - 1;
      }
      if 0 != left {
        n := MapMasked(m, j, 0, left - 1, was, lo, hi, n);
        j := j + 1;
      }
      DoingEnd(m, was, buckets[..], j, lo, hi);
    }

    /** Up to a bucket boundary, then whole buckets, then the rest. */
    method InternalMap(m: Mapper, location: nat, length: nat) returns (n: nat)
      requires location + length <= 8 * buckets.Length
      modifies buckets
      ensures AllMapped(m, old(buckets[..]), buckets[..], location, location + length)
      ensures n == Found(m, old(buckets[..]), location, location + length)
    {
      ghost var was, hi := buckets[..], location + length;
      if 0 == length {
        NothingMapped(m, was, location);
        return 0;
      }
      DoingStart(m, was, location, hi);
      if location % 8 + length < 8 {
        n := MapShort(m, location / 8, location % 8, length, was, location, hi);
      } else {
        n := MapLong(m, location / 8, location % 8, length, was, location, hi);
      }
    }

    /** A range inside one bucket. */
    method MapShort(m: Mapper, j: nat, bit: nat, length: nat, ghost was: seq<Bucket>, ghost lo: nat, ghost hi: nat)
      returns (n: nat)
      requires j < buckets.Length == |was| && lo == 8 * j + bit && hi == lo + length && 0 < length && bit + length < 8
      requires Doing(m, was, buckets[..], j, lo, hi)
      modifies buckets
      ensures AllMapped(m, was, buckets[..], lo, hi) && n == Found(m, was, lo, hi)
    {
      n := MapMasked(m, j, bit, bit + length - 1, was, lo, hi, 0);
      DoingEnd(m, was, buckets[..], j + 1, lo, hi);
    }

    /** A range that reaches the end of its first bucket. */
    method MapLong(m: Mapper, j: nat, bit: nat, length: nat, ghost was: seq<Bucket>, ghost lo: nat, ghost hi: nat)
      returns (n: nat)
      requires j < buckets.Length == |was| && bit < 8 && lo == 8 * j + bit && hi == lo + length <= 8 * |was| &&
               8 <= bit + length
      requires Doing(m, was, buckets[..], j, lo, hi)
      modifies buckets
      ensures AllMapped(m, was, buckets[..], lo, hi) && n == Found(m, was, lo, hi)
    {
      n := MapMasked(m, j, bit, 7, was, lo, hi, 0);
      n := MapRest(m, j + 1, length - (8 - bit), was, lo, hi, n);
    }

    method GetCountOfBit(location: nat, length: nat, value: bool) returns (n: nat)
      requires Valid() && location + length <= count
      modifies buckets
      ensures Valid() && Bits() == old(Bits()) && n == multiset(Bits()[location..location + length])[value]
    {
      OccursMultiplicity(buckets[..], count, location, location + length, value);
      n := InternalMap(Count(value), location, length);
      MappedRange(Count(value), old(buckets[..]), buckets[..], count, location, location + length);
    }

    method FlipBits(location: nat, length: nat)
      requires Valid() && location + length <= count
      modifies buckets
      ensures Valid() && |Bits()| == |old(Bits())|
      ensures forall i | location <= i < location + length :: Bits()[i] == !old(Bits())[i]
      ensures forall i | 0 <= i < count && !(location <= i < location + length) :: Bits()[i] == old(Bits())[i]
    {
      var _ := InternalMap(Flip, location, length);
      MappedRange(Flip, old(buckets[..]), buckets[..], count, location, location + length);
    }

    method SetBits(location: nat, length: nat, value: bool)
      requires Valid() && location + length <= count
      modifies buckets
      ensures Valid() && |Bits()| == |old(Bits())|
      ensures forall i | location <= i < location + length :: Bits()[i] == value
      ensures forall i | 0 <= i < count && !(location <= i < location + length) :: Bits()[i] == old(Bits())[i]
    {
      var m := if value then One else Zero;
      var _ := InternalMap(m, location, length);
      MappedRange(m, old(buckets[..]), buckets[..], count, location, location + length);
    }

    function BitAtIndex(idx: nat): (bit: bool)
      requires Valid() && idx < count
      reads this, buckets
      ensures bit == Bits()[idx]
    {
      ReadBit(buckets[idx / 8], idx % 8);
      ShiftRight(buckets[idx / 8], 7 - idx % 8) & 1 != 0
    }

    /** The leftover bits of the last bucket, then all whole buckets. */
    method SetAllBits(value: bool)
      requires Valid()
      modifies buckets
      ensures Valid() && Bits() == seq(count, i => value)
    {
      var nBuckets := count / 8;
      var leftover := count - nBuckets * 8;
      if 0 < leftover {
        SetBits(8 * nBuckets, leftover, value);
      }
      assert forall i | 8 * nBuckets <= i < count :: Bits()[i] == value;
      ghost var tail := buckets[..];
      forall j | 0 <= j < nBuckets {
        buckets[j] := if value then 0xFF else 0;
      }
      AllSet(tail, buckets[..], count, value);
    }

    /** Makes room for more bits; what the new buckets hold is not known. */
    method Grow(numNewValues: nat)
      requires Valid() && numNewValues > 0
      modifies this`capacity, this`buckets
      ensures Valid() && fresh(buckets) && count + numNewValues <= capacity && Bits() == old(Bits())
    {
      var all, n := buckets, RoundUpCapacity(count + numNewValues);
      var larger := new Bucket[n / 8 + 1];
      forall j | 0 <= j < larger.Length && j < all.Length {
        larger[j] := all[j];
      }
      SameBits(all[..], larger[..], count);
      capacity, buckets := n, larger;
    }

    /** Bits that are added are zero, whatever was there before. */
    method SetCount(newCount: nat)
      requires Valid()
      modifies this, buckets
      ensures Valid() && (buckets == old(buckets) || fresh(buckets)) && count == newCount
      ensures Bits() == if newCount <= old(count) then old(Bits())[..newCount]
                        else old(Bits()) + seq(newCount - old(count), i => false)
    {
      var cnt := count;
      ghost var bits := Bits();
      if cnt < newCount {
        Grow(newCount - cnt);
        ghost var was := buckets[..];
        var _ := InternalMap(Zero, cnt, newCount - cnt);
        ZeroTail(was, buckets[..], cnt, newCount);
      }
      count := newCount;
    }
  }
}
