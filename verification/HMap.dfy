/** The hash map: a class over the bucket arrays, specified by the map it stands for. */
module HashMap {
  import FastDiv
  import opened RobinHood

  type uint32 = x: int | 0 <= x < 0x1_0000_0000

  datatype Option<+T> = None | Some(value: T)

  const UINT_MAX: nat := 0xFFFF_FFFF
  const HASH_MIN_SIZE: nat := 1024
  const MAX_GROWTH_STEP: nat := 1024 * 1024

  /** floor(0.85 * s) */
  function HighWater(s: nat): nat { 85 * s / 100 }

  /** floor(0.2 * s) */
  function LowWater(s: nat): nat { 20 * s / 100 }

  /** floor(n / 0.6) */
  function IdealSize(n: nat): nat { n * 10 / 6 }

  /** The table has an empty slot at its highest allowed load exactly when it has at least seven slots. */
  lemma EmptySlotThreshold(s: nat)
    ensures HighWater(s) + 1 < s <==> s >= 7
  {}

  /** hash mod n, by repeated subtraction; SlotIsRemainder relates it to the fast division. */
  function Slot(v: nat, n: nat): (r: nat)
    requires n > 0
    ensures r < n
  {
    if v < n then v else Slot(v - n, n)
  }

  lemma {:induction false} SlotUnique(v: nat, n: nat, q: nat, r: nat)
    requires v == q * n + r && r < n
    ensures Slot(v, n) == r
    decreases q
  {
    if q > 0 {
      FastDiv.Distribute(1, q - 1, n);
      SlotUnique(v - n, n, q - 1, r);
    }
  }

  lemma SlotIsRemainder(v: nat, n: nat)
    requires v < FastDiv.TWO32 && 1 <= n < FastDiv.TWO32
    ensures FastDiv.Rem(v, n, FastDiv.Init(n)) == Slot(v, n)
  {
    var r := FastDiv.RemainderOf(v, n);
    SlotUnique(v, n, FastDiv.Quotient(v, n), r);
  }

  /** The home slot of a key under a seed, in a table of n slots. */
  function HomeFn<K>(setHash: (K, nat) -> uint32, seed: nat, n: nat): K -> nat {
    if n == 0 then _ => 0 else (k: K) => Slot(setHash(k, seed), n)
  }

  /**
   How values are combined: a put on a stored key updates its value; a put on a new key stores
   what `init` makes of the given value (itself, or the update of a missing value by it).
   */
  datatype Combine<!V> = Combine(update: (V, V) -> V, init: V -> V)

  /** What putting v under k means for the map. */
  function PutInto<K, V>(c: Combine<V>, m: map<K, V>, k: K, v: V): map<K, V> {
    m[k := if k in m then c.update(m[k], v) else c.init(v)]
  }

  lemma PutDefined<K, V>(c: Combine<V>, m: map<K, V>, k: K, v: V)
    ensures k !in m ==> PutInto(c, m, k, v) == m[k := c.init(v)]
    ensures k in m ==> PutInto(c, m, k, v) == m[k := c.update(m[k], v)]
  {}

  /** Every item of m is one of m'. */
  ghost predicate Within<K, V>(m: map<K, V>, m': map<K, V>) {
    forall k :: k in m ==> k in m' && m[k] == m'[k]
  }

  lemma PrefixLost<K, V>(t: Table<K, V>, i: nat, m: map<K, V>)
    requires t.Indexed() && exists lost :: lost !in m && m == t.Prefix(i) - {lost}
    ensures Within(m, t.Contents())
  {
    PrefixWithin(t, i);
  }

  /** Key-wise update of m by s. */
  ghost function Merged<K, V>(c: Combine<V>, m: map<K, V>, s: map<K, V>): map<K, V> {
    map k | k in m.Keys + s.Keys ::
      if k !in s then m[k] else if k in m then c.update(m[k], s[k]) else c.init(s[k])
  }

  lemma MergeOneMore<K, V>(c: Combine<V>, m: map<K, V>, s: map<K, V>, k: K, v: V)
    requires k !in s
    ensures Merged(c, m, s[k := v]) == PutInto(c, Merged(c, m, s), k, v)
  {}

  /** A prefix of the source brings in no more keys than all of it. */
  lemma MergedSize<K, V>(c: Combine<V>, m: map<K, V>, t: Table<K, V>, i: nat)
    requires t.Indexed()
    ensures |Merged(c, m, t.Prefix(i))| <= |m.Keys + t.Contents().Keys|
  {
    PrefixWithin(t, i);
    var part := Merged(c, m, t.Prefix(i));
    var all := m.Keys + t.Contents().Keys;
    assert part.Keys <= all;
    assert all == part.Keys + (all - part.Keys);
    assert |part| == |part.Keys|;
  }

  lemma MergeNone<K, V>(c: Combine<V>, m: map<K, V>)
    ensures Merged(c, m, map[]) == m
  {}

  lemma PutSize<K, V>(c: Combine<V>, m: map<K, V>, k: K, v: V)
    ensures |PutInto(c, m, k, v)| <= |m| + 1
  {}

  /**
   prime_geq: some number above n; which one is left open. Both 2^32 - 5 and 2^32 - 2 pass its test, so
   that below them it does not get to UINT_MAX.
   */
  method PrimeGeq(n: nat) returns (m: nat)
    requires n < UINT_MAX
    ensures if n <= 1 then m == 1 else n < m <= UINT_MAX
    ensures n <= UINT_MAX - 4 ==> m < UINT_MAX
  {
    if n <= 1 {
      return 1;
    }
    m :| n < m <= UINT_MAX && (n <= UINT_MAX - 4 ==> m < UINT_MAX);
  }

  /** The size calc_new_size arrives at before rounding up. */
  function GrownSize(size: nat): nat {
    if 2 * size < size + MAX_GROWTH_STEP then 2 * size else size + MAX_GROWTH_STEP
  }

  /** Both limits let a table of this size grow. */
  predicate MayGrow(size: nat, maxSize: nat) {
    GrownSize(size) <= 3_650_722_200 && (maxSize > 0 ==> GrownSize(size) <= maxSize)
  }

  /** One step of growth always makes room for a table that is at most one item over its high-water mark. */
  lemma OneGrowthStepSuffices(size: nat, nitems: nat)
    requires size >= 1 && nitems <= HighWater(size) + 1
    ensures nitems <= HighWater(GrownSize(size))
  {}

  /** The size asked for by a put has room for all items. */
  lemma GrownHasRoom(size: nat, nitems: nat, newSize: nat)
    requires size >= 1 && nitems <= HighWater(size) + 1 && newSize > GrownSize(size)
    ensures nitems <= HighWater(newSize) && newSize >= HighWater(nitems) && newSize >= size
  {}

  /** The size asked for by a deletion has room for all items. */
  lemma IdealHasRoom(nitems: nat)
    requires nitems >= 2
    ensures nitems <= HighWater(IdealSize(nitems)) + 1
    ensures IdealSize(nitems) >= HighWater(nitems) && IdealSize(nitems) >= nitems
  {}

  /** Fewer items than the low-water mark leave the ideal size well below the current one. */
  lemma LowIsLow(size: nat, nitems: nat)
    requires nitems < LowWater(size)
    ensures IdealSize(nitems) < size
  {}

  /** The size after a deletion that leaves nitems items. */
  function SizeAfter(size: nat, nitems: nat, minSize: nat): nat {
    if nitems > minSize && nitems < LowWater(size) then
      if IdealSize(nitems) < minSize then minSize else IdealSize(nitems)
    else size
  }

  lemma SizeAfterIs(size: nat, nitems: nat, minSize: nat)
    ensures nitems > minSize && nitems < LowWater(size) ==>
              SizeAfter(size, nitems, minSize) == if IdealSize(nitems) < minSize then minSize else IdealSize(nitems)
    ensures !(nitems > minSize && nitems < LowWater(size)) ==> SizeAfter(size, nitems, minSize) == size
  {}

  /** At its highest load a table still fits its items. */
  lemma LoadFits(size: nat)
    requires size >= 1
    ensures HighWater(size) + 1 <= size
  {}

  /**
   The growth loop recomputes the same size each time round, so it ends exactly when one step
   of growth is enough.
   */
  method CalcNewSize(nitems: nat, maxSize: nat, size: nat) returns (status: int, newSize: nat, resize: bool)
    requires nitems <= HighWater(size) || nitems <= HighWater(GrownSize(size))
    ensures resize <==> nitems > HighWater(size)
    ensures status == 0 <==> !resize || MayGrow(size, maxSize)
    ensures status == 0 && resize && size >= 1 ==> GrownSize(size) < newSize < UINT_MAX
  {
    status, resize, newSize := 0, false, 0;
    var grown := 0;
    var threshold := HighWater(size);
    if nitems > threshold {
      resize := true;
      while nitems > threshold
        invariant (grown == 0 && threshold == HighWater(size)) || (grown == GrownSize(size) && threshold == HighWater(grown))
        invariant grown == 0 ==> nitems > HighWater(size)
        decreases if nitems > threshold then 1 else 0
      {
        var growLimit := size + MAX_GROWTH_STEP;
        grown := if 2 * size < growLimit then 2 * size else growLimit;
        threshold := HighWater(grown);
      }
    }
    if 20 * grown > 17 * UINT_MAX {
      return -1, 0, resize;
    }
    if maxSize > 0 && grown > maxSize {
      return -1, 0, resize;
    }
    newSize := PrimeGeq(grown);
  }

  class HMap<K(==), V> {
    const setHash: (K, nat) -> uint32
    const combine: Combine<V>
    const zero: Bkt<K, V>
    const minSize: nat
    const maxSize: nat
    var size: nat
    var nitems: nat
    var divinfo: nat
    var hashkey: nat
    var bkts: array<Bkt<K, V>>
    var bktFull: array<bool>
    ghost var loc: map<K, nat>

    ghost function T(): Table<K, V>
      reads this, bkts, bktFull
    {
      Table(HomeFn(setHash, hashkey, size), zero, bkts[..], bktFull[..], loc)
    }

    /** The arrays and the packed divisor go with the size. */
    ghost predicate Dimensions()
      reads this`size, this`bkts, this`bktFull, this`divinfo
    {
      && 1 <= size < FastDiv.TWO32
      && bkts.Length == bktFull.Length == size
      && divinfo == FastDiv.Init(size)
      && zero.psl == 0 && minSize >= 1
    }

    /** Keys are where probing expects them, empty slots are zeroed, and the items are counted. */
    ghost predicate Sound()
      reads this, bkts, bktFull
    {
      && Dimensions() && nitems == Count(bktFull[..]) == |loc|
      && T().Placed() && T().Indexed() && T().Zeroed()
    }

    /** Besides, the load is at most one item over the high-water mark, and the size at least the configured one. */
    ghost predicate Valid()
      reads this, bkts, bktFull
    {
      Sound() && nitems <= HighWater(size) + 1 && minSize <= size
    }

    /** The map this table stands for. */
    ghost function M(): map<K, V>
      requires Sound()
      reads this, bkts, bktFull
    {
      T().Contents()
    }

    /** A search for k runs into an empty slot, which the all-zero key matches. */
    ghost predicate FalseHit(k: K)
      requires Sound()
      reads this, bkts, bktFull
    {
      assert T().home(k) == Slot(setHash(k, hashkey), size);
      k == zero.key && ReachesEmpty(T(), k)
    }

    // ---- between the fields and the values

    lemma Opened()
      requires Sound()
      ensures var t := T();
              && t.bkts == bkts[..] && t.full == bktFull[..] && t.loc == loc && t.zero == zero
              && t.home == HomeFn(setHash, hashkey, size)
              && t.Placed() && t.Indexed() && t.Zeroed() && t.Holds(M())
              && 0 < |t.bkts| == size == bkts.Length == bktFull.Length && Dimensions()
              && nitems == Count(t.full) == |t.loc| == |M()|
      ensures size <= UINT_MAX
      ensures forall i: nat :: Next(i, size) == if i + 1 == size then 0 else i + 1
    {
      assert M().Keys == loc.Keys;
    }

    lemma Restored(t: Table<K, V>, m: map<K, V>)
      requires t.bkts == bkts[..] && t.full == bktFull[..] && t.loc == loc && t.zero == zero
      requires t.home == HomeFn(setHash, hashkey, size)
      requires Dimensions() && nitems == Count(t.full) == |t.loc| && t.Holds(m)
      ensures Sound() && M() == m
    {}

    lemma Relaxed()
      requires Valid()
      ensures Sound() && nitems <= HighWater(size) + 1 && minSize <= size
    {}

    lemma Loaded()
      requires Sound() && nitems <= HighWater(size) + 1 && minSize <= size
      ensures Valid()
    {}

    /** With a minimum size of seven there is always an empty slot. */
    lemma AlwaysRoom()
      requires Valid() && minSize >= 7
      ensures nitems <= HighWater(size) + 1 < size
    {
      EmptySlotThreshold(size);
    }

    lemma StartProbing(k: K, p: nat)
      requires Sound() && p == Slot(setHash(k, hashkey), size)
      ensures Probing(T(), k, 0, p)
    {}

    lemma StartInserting(k: K, v: V, p: nat)
      requires Sound() && p == Slot(setHash(k, hashkey), size)
      ensures AtInsert(k, v, M(), Bkt(k, 0, v), 0, p, false)
    {}

    /** What the search found is what the map says. */
    lemma Answers(k: K)
      requires Sound()
      ensures k in M() <==> k in loc
      ensures forall p :: 0 <= p < size && bktFull[p] && bkts[p].key == k ==> k in M() && M()[k] == bkts[p].val
      ensures k in M() ==> loc[k] < size && bkts[loc[k]].key == k
      ensures FalseHit(k) <==> k == zero.key && T().home(k) < size && ReachesEmpty(T(), k)
      ensures forall p :: 0 <= p < size && !bktFull[p] ==> bkts[p] == zero
    {
      assert T().home(k) == Slot(setHash(k, hashkey), size);
    }

    lemma Cleared()
      requires Dimensions() && nitems == 0 && loc == map[]
      requires forall i :: 0 <= i < size ==> !bktFull[i] && bkts[i] == zero
      ensures Sound() && M() == map[]
    {
      CountNone(bktFull[..]);
    }

    lemma RoomIf()
      ensures Valid() && minSize >= 7 ==> nitems < size
    {
      if Valid() && minSize >= 7 {
        AlwaysRoom();
      }
    }

    // ---- operations

    constructor (setHash: (K, nat) -> uint32, combine: Combine<V>, zeroKey: K, zeroVal: V, minSize: nat, maxSize: nat)
      requires minSize < UINT_MAX
      ensures Valid() && fresh(bkts) && fresh(bktFull)
      ensures M() == map[] && nitems == 0 && (minSize != 1 ==> size > this.minSize)
      ensures this.setHash == setHash && this.combine == combine && this.zero == Bkt(zeroKey, 0, zeroVal)
      ensures this.minSize == (if minSize == 0 then HASH_MIN_SIZE else minSize) && this.maxSize == maxSize
    {
      var min := if minSize == 0 then HASH_MIN_SIZE else minSize;
      var n := PrimeGeq(min);
      var z := Bkt(zeroKey, 0, zeroVal);
      var b := new Bkt<K, V>[n](_ => z);
      var f := new bool[n](_ => false);
      this.setHash, this.combine, this.zero := setHash, combine, z;
      this.minSize, this.maxSize := min, maxSize;
      size, nitems, divinfo := n, 0, FastDiv.Init(n);
      hashkey := *;
      bkts, bktFull := b, f;
      loc := map[];
      new;
      Cleared();
    }

    /** set_probe_loc */
    method SetProbeLoc(hash: uint32) returns (p: nat)
      requires Dimensions()
      ensures p == Slot(hash, size) < size
    {
      SlotIsRemainder(hash, size);
      p := FastDiv.Rem(hash, size, divinfo);
    }

    /**
     rs_hmap_get. The key of a bucket is compared before the bucket is known to be full, so the
     all-zero key is also "found" in an empty slot; any other key is found exactly if it is stored.
     */
    method Get(k: K) returns (status: int, found: bool, val: Option<V>, at: nat)
      requires Sound()
      ensures found <==> k in M() || FalseHit(k)
      ensures k != zero.key ==> (found <==> k in M())
      ensures k in M() ==> val == Some(M()[k]) && at < size && bktFull[at] && bkts[at].key == k
      ensures found && k !in M() ==> val == Some(zero.val) && at < size && !bktFull[at]
      ensures !found ==> val == None && at == UINT_MAX
      ensures found || nitems < size ==> status == 0
      ensures Valid() && minSize >= 7 ==> status == 0
    {
      hide *;
      Opened();
      RoomIf();
      Answers(k);
      ghost var t := T();
      var p: nat := SetProbeLoc(setHash(k, hashkey));
      var myPsl, numProbes := 0, 0;
      StartProbing(k, p);
      while true
        invariant p < size && numProbes == myPsl <= size
        invariant Probing(t, k, myPsl, p)
        decreases size - numProbes
      {
        if numProbes >= size {
          ProbedAll(t, k, p);
          return -1, false, None, UINT_MAX;
        }
        if bkts[p].key == k {
          if !bktFull[p] {
            ProbeStops(t, k, myPsl, p);
          }
          return 0, true, Some(bkts[p].val), p;
        }
        if !bktFull[p] || myPsl > bkts[p].psl {
          ProbeStops(t, k, myPsl, p);
          return 0, false, None, UINT_MAX;
        }
        ProbeOn(t, k, myPsl, p);
        myPsl := myPsl + 1;
        p := p + 1;
        if p == size { p := 0; }
        numProbes := numProbes + 1;
      }
    }

    /** The insertion loop is in the state described by Inserting. */
    ghost predicate AtInsert(k: K, v: V, m0: map<K, V>, entry: Bkt<K, V>, numProbes: nat, p: nat, moved: bool)
      reads this, bkts, bktFull
    {
      && Dimensions() && nitems == Count(bktFull[..]) == |loc|
      && p < size && Inserting(T(), k, v, m0, entry, numProbes, p, moved)
    }

    lemma AtInsertOpened(k: K, v: V, m0: map<K, V>, entry: Bkt<K, V>, numProbes: nat, p: nat, moved: bool)
      requires AtInsert(k, v, m0, entry, numProbes, p, moved)
      ensures var t := T();
              && t.bkts == bkts[..] && t.full == bktFull[..] && t.loc == loc && t.zero == zero
              && t.home == HomeFn(setHash, hashkey, size)
              && p < |t.bkts| == size == bkts.Length == bktFull.Length && Dimensions()
              && nitems == Count(t.full) == |t.loc| && Inserting(t, k, v, m0, entry, numProbes, p, moved)
      ensures forall i: nat :: Next(i, size) == if i + 1 == size then 0 else i + 1
    {}

    lemma AtInsertRestored(t: Table<K, V>, k: K, v: V, m0: map<K, V>, entry: Bkt<K, V>, numProbes: nat, p: nat, moved: bool)
      requires t.bkts == bkts[..] && t.full == bktFull[..] && t.loc == loc && t.zero == zero
      requires t.home == HomeFn(setHash, hashkey, size) && p < size && Dimensions() && nitems == Count(t.full) == |t.loc|
      requires Inserting(t, k, v, m0, entry, numProbes, p, moved)
      ensures AtInsert(k, v, m0, entry, numProbes, p, moved)
    {}

    /** The bucket in slot p has the key: its value is updated. */
    method UpdateValue(p: nat, given: V, entry: Bkt<K, V>, ghost k: K, ghost v: V, ghost m0: map<K, V>, ghost numProbes: nat, ghost moved: bool)
      requires AtInsert(k, v, m0, entry, numProbes, p, moved)
      requires p < bktFull.Length == bkts.Length && bktFull[p] && bkts[p].key == entry.key
      modifies bkts
      ensures k in m0 && Sound() && M() == m0[k := combine.update(m0[k], given)]
    {
      hide *;
      AtInsertOpened(k, v, m0, entry, numProbes, p, moved);
      ghost var t := T();
      InsertMatch(t, k, v, m0, entry, numProbes, p, moved, combine.update(bkts[p].val, given));
      bkts[p] := bkts[p].(val := combine.update(bkts[p].val, given));
      Restored(t.(bkts := t.bkts[p := bkts[p]]), m0[k := bkts[p].val]);
    }

    /** Slot p is empty: the bucket in hand grabs it. */
    method GrabSlot(p: nat, entry: Bkt<K, V>, ghost k: K, ghost v: V, ghost m0: map<K, V>, ghost numProbes: nat, ghost moved: bool)
      requires AtInsert(k, v, m0, entry, numProbes, p, moved)
      requires numProbes < size && p < bktFull.Length && !bktFull[p]
      modifies this`nitems, this`loc, bkts, bktFull
      ensures k !in m0 && old(nitems) < size && Sound() && M() == m0[k := v]
    {
      hide *;
      AtInsertOpened(k, v, m0, entry, numProbes, p, moved);
      ghost var t := T();
      InsertSettle(t, k, v, m0, entry, numProbes, p, moved);
      bkts[p] := entry;
      bktFull[p] := true;
      nitems := nitems + 1;
      loc := loc[entry.key := p];
      Restored(Table(t.home, t.zero, t.bkts[p := entry], t.full[p := true], loc), m0[k := v]);
    }

    /**
     The bucket in slot p has another key. Of the two, the one that has travelled less goes on, one step
     deeper: either the bucket in hand, or the one whose place it takes.
     */
    method Travel(p: nat, entry: Bkt<K, V>, ghost k: K, ghost v: V, ghost m0: map<K, V>, ghost numProbes: nat, ghost moved: bool)
      returns (entry': Bkt<K, V>, ghost moved': bool)
      requires AtInsert(k, v, m0, entry, numProbes, p, moved)
      requires numProbes < size && p < bktFull.Length == bkts.Length && bktFull[p] && bkts[p].key != entry.key
      modifies this`loc, bkts
      ensures AtInsert(k, v, m0, entry', numProbes + 1, if p + 1 == size then 0 else p + 1, moved')
    {
      hide *;
      AtInsertOpened(k, v, m0, entry, numProbes, p, moved);
      ghost var t := T();
      entry', moved' := entry, moved;
      if entry.psl > bkts[p].psl {
        loc := InsertSwap(t, k, v, m0, entry, numProbes, p, moved);
        var tmp := entry;
        entry', moved' := bkts[p], true;
        bkts[p] := tmp;
        t := t.(bkts := t.bkts[p := tmp], loc := loc);
      } else {
        InsertPass(t, k, v, m0, entry, numProbes, p, moved);
      }
      entry' := entry'.(psl := entry'.psl + 1);
      AtInsertRestored(t, k, v, m0, entry', numProbes + 1, Next(p, size), moved');
    }

    lemma Exhausted(k: K, v: V, m0: map<K, V>, entry: Bkt<K, V>, p: nat, moved: bool)
      requires AtInsert(k, v, m0, entry, size, p, moved)
      ensures k !in m0 && nitems == size && Sound() && entry.key !in M() && M() == m0[k := v] - {entry.key}
    {
      InsertExhausted(T(), k, v, m0, entry, p, moved);
    }

    /**
     rs_hmap_insert: store v under a new key, or update the value of a stored key by `given`. It fails only for a new key in a table without an empty slot; the bucket in
     hand at that point is then lost.
     */
    method Insert(k: K, v: V, given: V) returns (status: int)
      requires Sound()
      modifies this`nitems, this`loc, bkts, bktFull
      ensures Sound()
      ensures status == 0 <==> k in old(M()) || old(nitems) < size
      ensures old(Valid()) && minSize >= 7 ==> status == 0
      ensures status == 0 ==> M() == old(M())[k := if k in old(M()) then combine.update(old(M())[k], given) else v]
      ensures status != 0 ==> exists lost :: lost !in M() && M() == old(M())[k := v] - {lost}
      ensures status != 0 ==> nitems == old(nitems) == size
    {
      hide *;
      Opened();
      RoomIf();
      ghost var m0 := M();
      var p: nat := SetProbeLoc(setHash(k, hashkey));
      var entry := Bkt(k, 0, v);
      var numProbes := 0;
      ghost var moved := false;
      StartInserting(k, v, p);
      while true
        invariant p < size && numProbes <= size && nitems == old(nitems)
        invariant AtInsert(k, v, m0, entry, numProbes, p, moved)
        decreases size - numProbes
      {
        if numProbes >= size {
          Exhausted(k, v, m0, entry, p, moved);
          return -1;
        }
        if bktFull[p] {
          if bkts[p].key == entry.key {
            UpdateValue(p, given, entry, k, v, m0, numProbes, moved);
            return 0;
          }
          entry, moved := Travel(p, entry, k, v, m0, numProbes, moved);
          numProbes := numProbes + 1;
          p := p + 1;
          if p == size { p := 0; }
        } else {
          GrabSlot(p, entry, k, v, m0, numProbes, moved);
          return 0;
        }
      }
    }

    /**
     rs_hmap_resize: a fresh table under a fresh seed, filled from the old one. Its own check compares the
     new size with 0.85 times the items. A size between that and the number of items is accepted, and
     then some items find no slot: the resize fails, and they are lost.
     */
    method Resize(newSize: nat) returns (status: int)
      requires Valid()
      modifies this
      ensures Sound()
      ensures status == 0 <==> 0 < newSize < UINT_MAX && newSize >= HighWater(old(nitems)) && newSize >= old(nitems)
      ensures status == 0 ==> M() == old(M()) && nitems == old(nitems) && size == newSize && fresh(bkts) && fresh(bktFull)
      ensures status == 0 && newSize >= minSize && nitems <= HighWater(newSize) + 1 ==> Valid()
      ensures !(0 < newSize < UINT_MAX && newSize >= HighWater(old(nitems))) ==> unchanged(this) && Valid()
      ensures 0 < newSize < UINT_MAX && HighWater(old(nitems)) <= newSize < old(nitems) ==>
        size == newSize && |M()| == nitems == newSize && Within(M(), old(M()))
    {
      hide *;
      Relaxed();
      Opened();
      if newSize <= 0 || newSize >= UINT_MAX {
        return -1;
      }
      if newSize < HighWater(nitems) {
        return -1;
      }
      ghost var t := T();
      var oldSize, chkItems := size, nitems;
      var b, f := bkts, bktFull;
      Renew(newSize);
      status := Refill(b, f, oldSize, t);
      if status != 0 {
        return;
      }
      Opened();
      if nitems != chkItems {
        return -1;
      }
      ValidIf();
    }

    /** The loop over the old arrays. */
    method Refill(b: array<Bkt<K, V>>, f: array<bool>, oldSize: nat, ghost t: Table<K, V>) returns (status: int)
      requires Sound() && M() == map[] && b != bkts && f != bktFull
      requires b[..] == t.bkts && f[..] == t.full && oldSize == |t.bkts| == |t.full| && t.Indexed()
      requires |t.Contents()| == |t.loc|
      modifies this`nitems, this`loc, bkts, bktFull
      ensures Sound() && (status == 0 <==> |t.Contents()| <= size)
      ensures status == 0 ==> M() == t.Contents()
      ensures status != 0 ==> |M()| == nitems == size && Within(M(), t.Contents())
    {
      hide *;
      PrefixAll(t);
      for i := 0 to oldSize
        invariant b[..] == t.bkts && f[..] == t.full && t.Indexed() && |t.Contents()| == |t.loc|
        invariant Sound() && M() == t.Prefix(i)
      {
        PrefixStep(t, i);
        if f[i] {
          Opened();
          status := Insert(b[i].key, b[i].val, b[i].val);
          if status != 0 {
            Opened();
            PrefixLost(t, i + 1, M());
            return;
          }
        }
      }
      Opened();
      CountAtMost(bktFull[..]);
      status := 0;
    }

    lemma ValidIf()
      ensures Sound() && nitems <= HighWater(size) + 1 && minSize <= size ==> Valid()
    {}

    /** The first part of rs_hmap_resize: zeroed arrays of the new size, and a new seed. */
    method Renew(newSize: nat)
      requires 1 <= newSize < UINT_MAX && Dimensions()
      modifies this
      ensures fresh(bkts) && fresh(bktFull) && size == newSize
      ensures Sound() && M() == map[]
    {
      bkts := new Bkt<K, V>[newSize](_ => zero);
      bktFull := new bool[newSize](_ => false);
      size, nitems, divinfo := newSize, 0, FastDiv.Init(newSize);
      hashkey := *;
      loc := map[];
      Cleared();
    }

    /** rs_hmap_put */
    method Put(k: K, v: V) returns (status: int)
      requires Valid()
      modifies this, bkts, bktFull
      ensures Valid()
      ensures M() == if status == 0 then PutInto(combine, old(M()), k, v) else old(M())
      ensures status == 0 <==> old(nitems) <= HighWater(old(size)) || MayGrow(old(size), maxSize)
      ensures status == 0 && old(nitems) > HighWater(old(size)) ==> size > GrownSize(old(size))
      ensures status != 0 ==> size == old(size) && nitems == old(nitems)
      ensures old(nitems) <= HighWater(old(size)) ==> status == 0 && size == old(size) && hashkey == old(hashkey)
      ensures old(nitems) <= HighWater(old(size)) ==> bkts == old(bkts) && bktFull == old(bktFull)
      ensures (bkts == old(bkts) && bktFull == old(bktFull)) || (fresh(bkts) && fresh(bktFull))
    {
      hide *;
      Relaxed();
      Opened();
      PutSize(combine, M(), k, v);
      var newSize, resize := 0, false;
      var threshold := HighWater(size);
      status := 0;
      if nitems > threshold {
        OneGrowthStepSuffices(size, nitems);
        status, newSize, resize := CalcNewSize(nitems, maxSize, size);
        if status != 0 { return; }
      }
      if resize {
        GrownHasRoom(size, nitems, newSize);
        LoadFits(newSize);
        status := Resize(newSize);
        if status != 0 { return; }
      }
      Relaxed();
      LoadFits(size);
      PutDefined(combine, M(), k, v);
      status := Insert(k, combine.init(v), v);
      Opened();
      Loaded();
    }

    /**
     rs_hmap_del: removes exactly the given key, and returns its value. A table that has become too
     empty is shrunk.
     */
    method Del(k: K) returns (status: int, found: bool, val: Option<V>)
      requires Valid()
      modifies this, bkts, bktFull
      ensures Valid()
      ensures M() == old(M()) - {k}
      ensures size == if k in old(M()) then SizeAfter(old(size), old(nitems) - 1, minSize) else old(size)
      ensures found <==> k in old(M())
      ensures val == if k in old(M()) then Some(old(M())[k]) else None
      ensures found || old(nitems) < old(size) || minSize >= 7 ==> status == 0
      ensures (bkts == old(bkts) && bktFull == old(bktFull)) || (fresh(bkts) && fresh(bktFull))
    {
      hide *;
      Relaxed();
      RoomIf();
      Opened();
      Answers(k);
      ghost var t := T();
      var p: nat := SetProbeLoc(setHash(k, hashkey));
      var myPsl, numProbes := 0, 0;
      StartProbing(k, p);
      while true
        invariant p < size && numProbes == myPsl <= size
        invariant Probing(t, k, myPsl, p)
        decreases size - numProbes
        modifies {}
      {
        if numProbes >= size {
          ProbedAll(t, k, p);
          return -1, false, None;
        }
        if !bktFull[p] || myPsl > bkts[p].psl {
          ProbeStops(t, k, myPsl, p);
          return 0, false, None;
        }
        if bkts[p].key == k {
          break;
        }
        ProbeOn(t, k, myPsl, p);
        myPsl := myPsl + 1;
        p := p + 1;
        if p == size { p := 0; }
        numProbes := numProbes + 1;
      }
      found, val := true, Some(bkts[p].val);
      ShiftOut(p);
      status := Shrink();
    }

    /** The shifting loop is in the state described by Shifting. */
    ghost predicate AtShift(m: map<K, V>, hole: nat, d: nat)
      reads this, bkts, bktFull
    {
      && Dimensions() && nitems == Count(bktFull[..]) == |loc|
      && hole < size && Shifting(T(), m, hole, d)
    }

    lemma AtShiftOpened(m: map<K, V>, hole: nat, d: nat)
      requires AtShift(m, hole, d)
      ensures var t := T();
              && t.bkts == bkts[..] && t.full == bktFull[..] && t.loc == loc && t.zero == zero
              && t.home == HomeFn(setHash, hashkey, size)
              && hole < |t.bkts| == size == bkts.Length == bktFull.Length && Dimensions()
              && nitems == Count(t.full) == |t.loc| && Shifting(t, m, hole, d) && !bktFull[hole]
      ensures forall i: nat :: Next(i, size) == if i + 1 == size then 0 else i + 1
    {}

    lemma AtShiftRestored(t: Table<K, V>, m: map<K, V>, hole: nat, d: nat)
      requires t.bkts == bkts[..] && t.full == bktFull[..] && t.loc == loc && t.zero == zero
      requires t.home == HomeFn(setHash, hashkey, size) && hole < size && Dimensions() && nitems == Count(t.full) == |t.loc|
      requires Shifting(t, m, hole, d)
      ensures AtShift(m, hole, d)
    {}

    /** Empties the slot of the deleted bucket. */
    method TakeOut(p: nat)
      requires Sound() && p < size == bktFull.Length && bktFull[p]
      modifies this`nitems, this`loc, bkts, bktFull
      ensures nitems == old(nitems) - 1
      ensures AtShift(old(M()) - {old(bkts[p].key)}, p, old(bkts[p].psl))
    {
      hide *;
      Opened();
      ghost var t, b := T(), bkts[p];
      StartShifting(t, p);
      nitems := nitems - 1;
      loc := loc - {b.key};
      bkts[p] := zero;
      bktFull[p] := false;
      AtShiftRestored(Table(t.home, t.zero, t.bkts[p := zero], t.full[p := false], loc), t.Contents() - {b.key}, p, b.psl);
    }

    /** Moves the bucket behind the hole into the hole, and empties its slot. */
    method MoveBack(hole: nat, p: nat, ghost m: map<K, V>, ghost d: nat)
      requires AtShift(m, hole, d) && p == (if hole + 1 == size then 0 else hole + 1)
      requires p < size == bktFull.Length == bkts.Length && bktFull[p] && bkts[p].psl > 0
      modifies this`loc, bkts, bktFull
      ensures AtShift(m, p, old(bkts[p].psl))
      ensures Dimensions() && TotalPsl(bkts[..]) < TotalPsl(old(bkts[..]))
    {
      hide *;
      AtShiftOpened(m, hole, d);
      ghost var t, psl, b := T(), bkts[p].psl, bkts[p].(psl := bkts[p].psl - 1);
      ShiftOn(t, m, hole, d, p, b);
      bkts[p] := bkts[p].(psl := bkts[p].psl - 1);
      bkts[hole] := bkts[p];
      bktFull[hole] := bktFull[p];
      bkts[p] := zero;
      bktFull[p] := false;
      loc := loc[b.key := hole];
      ghost var bs, fs := t.bkts[hole := b][p := zero], t.full[hole := true][p := false];
      assert bkts[..] == bs && bktFull[..] == fs;
      AtShiftRestored(Table(t.home, t.zero, bs, fs, loc), m, p, psl);
    }

    /** The second part of rs_hmap_del: empty the slot and shift the buckets behind it back, one slot each. */
    method ShiftOut(at: nat)
      requires Valid() && at < size && bktFull[at]
      modifies this`nitems, this`loc, bkts, bktFull
      ensures Valid() && M() == old(M()) - {old(bkts[at].key)} && nitems == old(nitems) - 1
    {
      hide *;
      Relaxed();
      Opened();
      ghost var m, d := M() - {bkts[at].key}, bkts[at].psl;
      TakeOut(at);
      var hole: nat, p: nat := at, at;
      while true
        invariant p == hole < size && nitems == old(nitems) - 1 && AtShift(m, hole, d)
        decreases TotalPsl(bkts[..])
      {
        p := p + 1;
        if p == size { p := 0; }
        if !bktFull[p] || bkts[p].psl == 0 {
          break;
        }
        ghost var psl := bkts[p].psl;
        MoveBack(hole, p, m, d);
        d := psl;
        hole := p;
      }
      AtShiftOpened(m, hole, d);
      StopShifting(T(), m, hole, d);
      Restored(T(), m);
      Loaded();
    }

    /** The last part of rs_hmap_del: below the low-water mark, go to the ideal size. */
    method Shrink() returns (status: int)
      requires Valid()
      modifies this
      ensures Valid() && M() == old(M()) && status == 0
      ensures size == SizeAfter(old(size), old(nitems), minSize)
      ensures (bkts == old(bkts) && bktFull == old(bktFull)) || (fresh(bkts) && fresh(bktFull))
    {
      hide *;
      Relaxed();
      Opened();
      SizeAfterIs(size, nitems, minSize);
      var threshold := LowWater(size);
      status := 0;
      if nitems > minSize && nitems < threshold {
        var newSize := IdealSize(nitems);
        if newSize < minSize { newSize := minSize; }
        IdealHasRoom(nitems);
        LowIsLow(size, nitems);
        LoadFits(newSize);
        status := Resize(newSize);
      }
    }

    lemma ItemsMerged(m0: map<K, V>, t: Table<K, V>, i: nat)
      requires Sound() && t.Indexed() && M() == Merged(combine, m0, t.Prefix(i))
      ensures nitems <= |m0.Keys + t.Contents().Keys|
    {
      hide *;
      Opened();
      MergedSize(combine, m0, t, i);
    }

    /** Slot i of another table t, after the slots before it. */
    method MergeSlot(full: bool, k: K, v: V, i: nat, ghost m0: map<K, V>, ghost t: Table<K, V>) returns (status: int)
      requires Valid() && t.Indexed() && i < |t.bkts| && full == t.full[i] && k == t.bkts[i].key && v == t.bkts[i].val
      requires M() == Merged(combine, m0, t.Prefix(i))
      modifies this, bkts, bktFull
      ensures Valid() && Sound() && M() == Merged(combine, m0, t.Prefix(if status == 0 then i + 1 else i))
      ensures (bkts == old(bkts) && bktFull == old(bktFull)) || (fresh(bkts) && fresh(bktFull))
      ensures status != 0 ==> HighWater(size) < nitems <= |m0.Keys + t.Contents().Keys| && !MayGrow(size, maxSize)
    {
      hide *;
      Relaxed();
      PrefixStep(t, i);
      status := 0;
      if full {
        MergeOneMore(combine, m0, t.Prefix(i), k, v);
        status := Put(k, v);
        Relaxed();
        ItemsMerged(m0, t, if status == 0 then i + 1 else i);
      }
    }

    /**
     rs_hmap_merge: puts every item of src, in slot order. It can only fail where the table is over its
     high-water mark and a limit bars it from growing; so it succeeds if that cannot happen to any table
     with no more items than there are keys in both.
     */
    method Merge(src: HMap<K, V>) returns (status: int)
      requires Valid() && src.Valid() && src != this
      requires bkts != src.bkts && bktFull != src.bktFull
      modifies this, bkts, bktFull
      ensures Valid() && src.Valid() && src.M() == old(src.M())
      ensures status == 0 ==> M() == Merged(combine, old(M()), src.M())
      ensures status != 0 ==> exists i: nat :: M() == Merged(combine, old(M()), old(src.T().Prefix(i)))
      ensures status != 0 ==> HighWater(size) < nitems && !MayGrow(size, maxSize)
      ensures (forall s: nat :: HighWater(s) < |old(M()).Keys + src.M().Keys| ==> MayGrow(s, maxSize)) ==> status == 0
    {
      hide *;
      Relaxed();
      src.Relaxed();
      src.Opened();
      ghost var t, m0 := src.T(), M();
      var b, f := src.bkts, src.bktFull;
      PrefixAll(t);
      MergeNone(combine, m0);
      for i := 0 to src.size
        invariant Valid() && Sound() && (bkts == old(bkts) || fresh(bkts)) && (bktFull == old(bktFull) || fresh(bktFull))
        invariant b[..] == t.bkts && f[..] == t.full
        invariant M() == Merged(combine, m0, t.Prefix(i))
      {
        status := MergeSlot(f[i], b[i].key, b[i].val, i, m0, t);
        if status != 0 { return; }
      }
      status := 0;
    }

    /** hmap_update: update the value in a given slot, known to be full. */
    method UpdateAt(idx: nat, v: V)
      requires Valid() && idx < size == bktFull.Length == bkts.Length && bktFull[idx]
      modifies bkts
      ensures Valid() && old(bkts[idx].key) in old(M())
      ensures M() == old(M())[old(bkts[idx].key) := combine.update(old(M())[old(bkts[idx].key)], v)]
      ensures forall i :: 0 <= i < bkts.Length ==> bkts[i].key == old(bkts[i].key)
    {
      hide *;
      Relaxed();
      Opened();
      ghost var t, m0 := T(), M();
      Answers(bkts[idx].key);
      Overwritten(t, idx, combine.update(bkts[idx].val, v));
      bkts[idx] := bkts[idx].(val := combine.update(bkts[idx].val, v));
      Restored(t.(bkts := t.bkts[idx := bkts[idx]]), m0[bkts[idx].key := bkts[idx].val]);
      Loaded();
    }

    /** The all-zero key is always reported as found in an empty table, although it is not stored. */
    lemma ZeroKeyInEmptyTable()
      requires Sound() && nitems == 0
      ensures FalseHit(zero.key) && zero.key !in M()
    {
      var t := T();
      assert t.home(zero.key) == Slot(setHash(zero.key, hashkey), size);
      assert loc == map[];
      assert EmptyAfter(t, zero.key, 0);
    }
  }
}
