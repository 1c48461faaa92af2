/**
 Robin Hood open addressing on values: what it means for buckets to be placed correctly, and what
 one step of a search, of an insertion and of a deletion does to that.
 */
module RobinHood {

  /** One bucket; psl is the distance of the slot from the key's home slot. */
  datatype Bkt<K, V> = Bkt(key: K, psl: nat, val: V)

  // ---- circular slots

  function Next(i: nat, n: nat): nat {
    if i + 1 == n then 0 else i + 1
  }

  function Prev(i: nat, n: nat): int {
    if i == 0 then n - 1 else i - 1
  }

  /** The slot d steps after slot h, for h < n and d < n. */
  function Fwd(h: nat, d: nat, n: nat): int {
    if h + d < n then h + d else h + d - n
  }

  /** The number of steps from slot a forward to slot b. */
  function Dist(a: nat, b: nat, n: nat): int {
    if a <= b then b - a else b - a + n
  }

  // ---- tables

  /** Bucket b may sit in slot i: i is its psl steps from its home, and the slot before is at least as deep less one. */
  ghost predicate FitsIn<K, V>(home: K -> nat, bkts: seq<Bkt<K, V>>, full: seq<bool>, b: Bkt<K, V>, i: nat)
    requires |bkts| == |full|
  {
    var n := |bkts|;
    && i < n && home(b.key) < n && b.psl < n && Fwd(home(b.key), b.psl, n) == i
    && (b.psl > 0 ==> full[Prev(i, n)] && bkts[Prev(i, n)].psl + 1 >= b.psl)
  }

  ghost predicate WellPlaced<K, V>(home: K -> nat, bkts: seq<Bkt<K, V>>, full: seq<bool>) {
    && |bkts| == |full| > 0
    && forall i {:trigger FitsIn(home, bkts, full, bkts[i], i)} ::
         0 <= i < |bkts| && full[i] ==> FitsIn(home, bkts, full, bkts[i], i)
  }

  /** loc says in which slot each stored key is; hence no key is stored twice. */
  ghost predicate Locates<K, V>(bkts: seq<Bkt<K, V>>, full: seq<bool>, loc: map<K, nat>) {
    && |bkts| == |full|
    && (forall k :: k in loc ==> loc[k] < |bkts| && full[loc[k]] && bkts[loc[k]].key == k)
    && (forall i :: 0 <= i < |bkts| && full[i] ==> bkts[i].key in loc && loc[bkts[i].key] == i)
  }

  /** The map stored in the full slots. */
  ghost function Stored<K, V>(bkts: seq<Bkt<K, V>>, full: seq<bool>, loc: map<K, nat>): map<K, V>
    requires Locates(bkts, full, loc)
  {
    map k | k in loc :: bkts[loc[k]].val
  }

  /**
   The buckets of a hash table, which slots are full, the home slot of every key, what an unused bucket
   looks like, and in which slot each stored key is.
   */
  datatype Table<!K, V> = Table(home: K -> nat, zero: Bkt<K, V>, bkts: seq<Bkt<K, V>>, full: seq<bool>, loc: map<K, nat>)
  {
    ghost predicate Fits(b: Bkt<K, V>, i: nat)
      requires |bkts| == |full|
    {
      FitsIn(home, bkts, full, b, i)
    }

    ghost predicate Placed() {
      WellPlaced(home, bkts, full)
    }

    ghost predicate Indexed() {
      Locates(bkts, full, loc)
    }

    /** Slots without a key are zeroed. */
    ghost predicate Zeroed() {
      && |bkts| == |full| && zero.psl == 0
      && forall i :: 0 <= i < |bkts| && !full[i] ==> bkts[i] == zero
    }

    ghost function Contents(): map<K, V>
      requires Indexed()
    {
      Stored(bkts, full, loc)
    }

    /** A well-formed table standing for m. */
    ghost predicate Holds(m: map<K, V>) {
      Placed() && Indexed() && Zeroed() && Contents() == m
    }

    /** The part of the map stored in the first i slots. */
    ghost function Prefix(i: nat): map<K, V>
      requires Indexed()
    {
      map k | k in loc && loc[k] < i :: bkts[loc[k]].val
    }
  }

  // ---- counting

  ghost function Count(full: seq<bool>): nat {
    if full == [] then 0 else (if full[0] then 1 else 0) + Count(full[1..])
  }

  lemma {:induction false} CountUpdate(full: seq<bool>, i: nat, b: bool)
    requires i < |full|
    ensures Count(full[i := b]) == Count(full) + (if b then 1 else 0) - if full[i] then 1 else 0
  {
    if i == 0 {
      assert full[0 := b][1..] == full[1..];
    } else {
      CountUpdate(full[1..], i - 1, b);
      assert full[i := b][1..] == full[1..][i - 1 := b];
    }
  }

  lemma {:induction false} CountAll(full: seq<bool>)
    requires forall i :: 0 <= i < |full| ==> full[i]
    ensures Count(full) == |full|
  {
    if full != [] {
      CountAll(full[1..]);
    }
  }

  lemma {:induction false} CountNone(full: seq<bool>)
    requires forall i :: 0 <= i < |full| ==> !full[i]
    ensures Count(full) == 0
  {
    if full != [] {
      CountNone(full[1..]);
    }
  }

  lemma {:induction false} CountAtMost(full: seq<bool>)
    ensures Count(full) <= |full|
  {
    if full != [] {
      CountAtMost(full[1..]);
    }
  }

  /** The total distance of all buckets from their home slots. */
  ghost function TotalPsl<K, V>(bkts: seq<Bkt<K, V>>): nat {
    if bkts == [] then 0 else bkts[0].psl + TotalPsl(bkts[1..])
  }

  lemma {:induction false} TotalPslUpdate<K, V>(bkts: seq<Bkt<K, V>>, i: nat, b: Bkt<K, V>)
    requires i < |bkts|
    ensures TotalPsl(bkts[i := b]) == TotalPsl(bkts) + b.psl - bkts[i].psl
  {
    if i == 0 {
      assert bkts[0 := b][1..] == bkts[1..];
    } else {
      TotalPslUpdate(bkts[1..], i - 1, b);
      assert bkts[i := b][1..] == bkts[1..][i - 1 := b];
    }
  }

  lemma {:induction false} SubsetSize<K>(a: set<K>, b: set<K>)
    requires a <= b
    ensures |a| <= |b|
  {
    if a != {} {
      var x :| x in a;
      SubsetSize(a - {x}, b - {x});
    }
  }

  // ---- the probe invariant

  /**
   Every slot between the home of a stored key and the slot that holds it is full,
   with a psl of at least its own offset.
   */
  lemma {:induction false} PathIsFull<K, V>(t: Table<K, V>, i: nat, d: nat)
    requires t.Placed() && i < |t.bkts| && t.full[i] && d <= t.bkts[i].psl
    ensures t.home(t.bkts[i].key) < |t.bkts|
    ensures var s := Fwd(t.home(t.bkts[i].key), d, |t.bkts|); 0 <= s < |t.bkts| && t.full[s] && t.bkts[s].psl >= d
    decreases t.bkts[i].psl - d
  {
    var n, h := |t.bkts|, t.home(t.bkts[i].key);
    if d < t.bkts[i].psl {
      PathIsFull(t, i, d + 1);
      var s := Fwd(h, d + 1, n);
      assert t.Fits(t.bkts[s], s);
      assert Prev(s, n) == Fwd(h, d, n);
    } else {
      assert t.Fits(t.bkts[i], i);
    }
  }

  // ---- one step of insertion

  /** The bucket in hand displaces the one in slot p, which had travelled less. */
  lemma Displace<K, V>(home: K -> nat, bkts: seq<Bkt<K, V>>, full: seq<bool>, p: nat, b: Bkt<K, V>)
    requires WellPlaced(home, bkts, full) && p < |bkts| && full[p]
    requires FitsIn(home, bkts, full, b, p) && b.psl > bkts[p].psl
    ensures WellPlaced(home, bkts[p := b], full)
  {
    var bkts' := bkts[p := b];
    forall i | 0 <= i < |bkts| && full[i] ensures FitsIn(home, bkts', full, bkts'[i], i) {
      assert FitsIn(home, bkts, full, bkts[i], i);
    }
  }

  lemma DisplaceIndex<K, V>(bkts: seq<Bkt<K, V>>, full: seq<bool>, loc: map<K, nat>, p: nat, b: Bkt<K, V>)
    returns (loc': map<K, nat>)
    requires Locates(bkts, full, loc) && p < |bkts| && full[p] && b.key !in loc
    ensures Locates(bkts[p := b], full, loc')
    ensures bkts[p].key !in loc' && |loc'| == |loc|
    ensures Stored(bkts[p := b], full, loc')[bkts[p].key := bkts[p].val] == Stored(bkts, full, loc)[b.key := b.val]
  {
    loc' := (loc - {bkts[p].key})[b.key := p];
    assert loc'.Keys == loc.Keys - {bkts[p].key} + {b.key};
  }

  lemma OccupyIndex<K, V>(bkts: seq<Bkt<K, V>>, full: seq<bool>, loc: map<K, nat>, p: nat, b: Bkt<K, V>)
    requires Locates(bkts, full, loc) && p < |bkts| && !full[p] && b.key !in loc
    ensures Locates(bkts[p := b], full[p := true], loc[b.key := p]) && |loc[b.key := p]| == |loc| + 1
    ensures Stored(bkts[p := b], full[p := true], loc[b.key := p]) == Stored(bkts, full, loc)[b.key := b.val]
  {}

  /** A bucket in hand that moves past slot p, whose bucket is at least as deep, may sit in the next slot. */
  lemma PassOver<K, V>(home: K -> nat, bkts: seq<Bkt<K, V>>, full: seq<bool>, p: nat, b: Bkt<K, V>)
    requires |bkts| == |full| && p < |bkts| && full[p]
    requires home(b.key) < |bkts| && b.psl + 1 < |bkts|
    requires Fwd(home(b.key), b.psl, |bkts|) == p && b.psl <= bkts[p].psl
    ensures FitsIn(home, bkts, full, b.(psl := b.psl + 1), Next(p, |bkts|))
  {
    assert Prev(Next(p, |bkts|), |bkts|) == p;
  }

  /** The bucket in hand is put into an empty slot. */
  lemma Occupy<K, V>(home: K -> nat, bkts: seq<Bkt<K, V>>, full: seq<bool>, p: nat, b: Bkt<K, V>)
    requires WellPlaced(home, bkts, full) && p < |bkts| && !full[p]
    requires FitsIn(home, bkts, full, b, p)
    ensures WellPlaced(home, bkts[p := b], full[p := true])
  {
    var bkts', full' := bkts[p := b], full[p := true];
    forall i | 0 <= i < |bkts| && full'[i] ensures FitsIn(home, bkts', full', bkts'[i], i) {
      if i != p {
        assert FitsIn(home, bkts, full, bkts[i], i);
      }
    }
  }

  /** Overwriting a value moves nothing. */
  lemma Overwrite<K, V>(home: K -> nat, bkts: seq<Bkt<K, V>>, full: seq<bool>, loc: map<K, nat>, p: nat, v: V)
    requires WellPlaced(home, bkts, full) && Locates(bkts, full, loc) && p < |bkts| && full[p]
    ensures var bkts' := bkts[p := bkts[p].(val := v)];
            && WellPlaced(home, bkts', full) && Locates(bkts', full, loc)
            && Stored(bkts', full, loc) == Stored(bkts, full, loc)[bkts[p].key := v]
  {
    var bkts' := bkts[p := bkts[p].(val := v)];
    forall i | 0 <= i < |bkts| && full[i] ensures FitsIn(home, bkts', full, bkts'[i], i) {
      assert FitsIn(home, bkts, full, bkts[i], i);
    }
  }

  // ---- the search loop

  /** Slot s steps from the key's home is full, with a psl of at least s. */
  ghost predicate DeepAt<K, V>(t: Table<K, V>, k: K, s: nat)
    requires |t.bkts| == |t.full| && t.home(k) < |t.bkts| && s < |t.bkts|
  {
    t.full[Fwd(t.home(k), s, |t.bkts|)] && t.bkts[Fwd(t.home(k), s, |t.bkts|)].psl >= s
  }

  /**
   The first d probes for k did not end the search, so k is not stored less than d steps from its home;
   the next probe is of slot p.
   */
  ghost predicate Probing<K, V>(t: Table<K, V>, k: K, d: nat, p: nat) {
    && t.Placed() && t.Indexed()
    && t.home(k) < |t.bkts| && p < |t.bkts| && d <= |t.bkts|
    && (d < |t.bkts| ==> Fwd(t.home(k), d, |t.bkts|) == p)
    && (k in t.loc ==> t.bkts[t.loc[k]].psl >= d)
    && forall s :: 0 <= s < d ==> DeepAt(t, k, s)
  }

  lemma ProbeOn<K, V>(t: Table<K, V>, k: K, d: nat, p: nat)
    requires Probing(t, k, d, p) && d < |t.bkts|
    requires t.full[p] && t.bkts[p].key != k && t.bkts[p].psl >= d
    ensures Probing(t, k, d + 1, Next(p, |t.bkts|))
  {
    if k in t.loc {
      assert t.Fits(t.bkts[t.loc[k]], t.loc[k]);
    }
  }

  /** Stopping at an empty slot, or at a bucket less deep than the probe, is sound. */
  lemma ProbeStops<K, V>(t: Table<K, V>, k: K, d: nat, p: nat)
    requires Probing(t, k, d, p) && d < |t.bkts|
    requires !t.full[p] || t.bkts[p].psl < d
    ensures k !in t.loc
    ensures ReachesEmpty(t, k) <==> !t.full[p]
  {
    if k in t.loc {
      PathIsFull(t, t.loc[k], d);
      assert false;
    }
    forall u: nat | u < |t.bkts| && u != d ensures !EmptyAfter(t, k, u) {
      if u < d {
        assert DeepAt(t, k, u);
      } else {
        assert !DeepAt(t, k, d);
      }
    }
    assert EmptyAfter(t, k, d) <==> !t.full[p];
  }

  /** A search that is still going after as many probes as there are slots has seen them all full. */
  lemma ProbedAll<K, V>(t: Table<K, V>, k: K, p: nat)
    requires Probing(t, k, |t.bkts|, p)
    ensures k !in t.loc && Count(t.full) == |t.full|
    ensures !ReachesEmpty(t, k)
  {
    forall i | 0 <= i < |t.full| ensures t.full[i] {
      assert DeepAt(t, k, Dist(t.home(k), i, |t.bkts|));
    }
    CountAll(t.full);
    forall k' | k' in t.loc ensures t.bkts[t.loc[k']].psl < |t.bkts| {
      assert t.Fits(t.bkts[t.loc[k']], t.loc[k']);
    }
  }

  /** Probing for k runs into an empty slot before it meets a bucket less deep than itself. */
  ghost predicate ReachesEmpty<K, V>(t: Table<K, V>, k: K)
    requires |t.bkts| == |t.full| && t.home(k) < |t.bkts|
  {
    exists d: nat :: d < |t.bkts| && EmptyAfter(t, k, d)
  }

  ghost predicate EmptyAfter<K, V>(t: Table<K, V>, k: K, d: nat)
    requires |t.bkts| == |t.full| && t.home(k) < |t.bkts| && d < |t.bkts|
  {
    && !t.full[Fwd(t.home(k), d, |t.bkts|)]
    && forall s :: 0 <= s < d ==> DeepAt(t, k, s)
  }

  // ---- the insertion loop

  /** After d probes from slot `start`, all of full slots, the bucket in hand may go into slot p; its key is not stored. */
  ghost predicate Carrying<K, V>(t: Table<K, V>, b: Bkt<K, V>, start: nat, d: nat, p: nat) {
    && t.Placed() && t.Indexed() && b.key !in t.loc
    && start < |t.bkts| && p < |t.bkts| && d <= |t.bkts| && b.psl <= d
    && (d < |t.bkts| ==> p == Fwd(start, d, |t.bkts|) && t.Fits(b, p))
    && forall s :: 0 <= s < d ==> t.full[Fwd(start, s, |t.bkts|)]
  }

  /** A search for k that has found it absent carries a bucket for k. */
  lemma StartCarrying<K, V>(t: Table<K, V>, k: K, v: V, d: nat, p: nat)
    requires Probing(t, k, d, p) && d < |t.bkts| && k !in t.loc
    ensures Carrying(t, Bkt(k, d, v), t.home(k), d, p)
  {
    forall s | 0 <= s < d ensures t.full[Fwd(t.home(k), s, |t.bkts|)] {
      assert DeepAt(t, k, s);
    }
    if d > 0 {
      assert DeepAt(t, k, d - 1);
      assert Prev(p, |t.bkts|) == Fwd(t.home(k), d - 1, |t.bkts|);
    }
  }

  /** Moving on past a bucket that is at least as deep. */
  lemma CarryOn<K, V>(t: Table<K, V>, b: Bkt<K, V>, start: nat, d: nat, p: nat)
    requires Carrying(t, b, start, d, p) && d < |t.bkts|
    requires t.full[p] && b.psl <= t.bkts[p].psl
    ensures Carrying(t, b.(psl := b.psl + 1), start, d + 1, Next(p, |t.bkts|))
  {
    if d + 1 < |t.bkts| {
      PassOver(t.home, t.bkts, t.full, p, b);
    }
  }

  /** Taking the place of a less deep bucket, and moving on with that one. */
  lemma SwapAndCarryOn<K, V>(t: Table<K, V>, b: Bkt<K, V>, start: nat, d: nat, p: nat) returns (loc: map<K, nat>)
    requires Carrying(t, b, start, d, p) && d < |t.bkts|
    requires t.full[p] && b.psl > t.bkts[p].psl
    ensures |loc| == |t.loc|
    ensures Carrying(t.(bkts := t.bkts[p := b], loc := loc), t.bkts[p].(psl := t.bkts[p].psl + 1), start, d + 1, Next(p, |t.bkts|))
    ensures t.(bkts := t.bkts[p := b], loc := loc).Contents()[t.bkts[p].key := t.bkts[p].val] == t.Contents()[b.key := b.val]
  {
    hide Locates, Stored;
    assert t.Fits(t.bkts[p], p);
    Displace(t.home, t.bkts, t.full, p, b);
    loc := DisplaceIndex(t.bkts, t.full, t.loc, p, b);
    if d + 1 < |t.bkts| {
      PassOver(t.home, t.bkts[p := b], t.full, p, t.bkts[p]);
    }
  }

  lemma CarriedAll<K, V>(t: Table<K, V>, b: Bkt<K, V>, start: nat, p: nat)
    requires Carrying(t, b, start, |t.bkts|, p)
    ensures Count(t.full) == |t.full|
  {
    forall i | 0 <= i < |t.full| ensures t.full[i] {
      assert Fwd(start, Dist(start, i, |t.full|), |t.full|) == i;
    }
    CountAll(t.full);
  }

  /**
   The state of the insertion loop for k and v after d probes, with b the bucket in hand: either the
   table is still untouched, or k is new and table and bucket together make up the map to be reached.
   */
  ghost predicate Inserting<K, V>(t: Table<K, V>, k: K, v: V, m0: map<K, V>, b: Bkt<K, V>, d: nat, p: nat, moved: bool) {
    && t.Zeroed() && d <= |t.bkts| && p < |t.bkts|
    && if moved then
         k !in m0 && Carrying(t, b, t.home(k), d, p) && t.Contents()[b.key := b.val] == m0[k := v]
       else
         Probing(t, k, d, p) && b == Bkt(k, d, v) && m0 == t.Contents()
  }

  lemma Overwritten<K, V>(t: Table<K, V>, p: nat, v: V)
    requires t.Placed() && t.Indexed() && t.Zeroed() && p < |t.bkts| && t.full[p]
    ensures t.(bkts := t.bkts[p := t.bkts[p].(val := v)]).Holds(t.Contents()[t.bkts[p].key := v])
  {
    Overwrite(t.home, t.bkts, t.full, t.loc, p, v);
  }

  lemma InsertMatch<K, V>(t: Table<K, V>, k: K, v: V, m0: map<K, V>, b: Bkt<K, V>, d: nat, p: nat, moved: bool, v': V)
    requires Inserting(t, k, v, m0, b, d, p, moved)
    requires t.full[p] && t.bkts[p].key == b.key
    ensures b.key == k && k in m0 && t.bkts[p].val == m0[k] && b.val == v
    ensures t.(bkts := t.bkts[p := t.bkts[p].(val := v')]).Holds(m0[k := v'])
  {
    assert !moved;
    Overwritten(t, p, v');
  }

  lemma InsertPass<K, V>(t: Table<K, V>, k: K, v: V, m0: map<K, V>, b: Bkt<K, V>, d: nat, p: nat, moved: bool)
    requires Inserting(t, k, v, m0, b, d, p, moved) && d < |t.bkts|
    requires t.full[p] && t.bkts[p].key != b.key && b.psl <= t.bkts[p].psl
    ensures Inserting(t, k, v, m0, b.(psl := b.psl + 1), d + 1, Next(p, |t.bkts|), moved)
  {
    if moved {
      CarryOn(t, b, t.home(k), d, p);
    } else {
      ProbeOn(t, k, d, p);
    }
  }

  lemma InsertCarries<K, V>(t: Table<K, V>, k: K, v: V, m0: map<K, V>, b: Bkt<K, V>, d: nat, p: nat, moved: bool)
    requires Inserting(t, k, v, m0, b, d, p, moved) && d < |t.bkts|
    requires t.full[p] ==> b.psl > t.bkts[p].psl
    ensures k !in m0 && Carrying(t, b, t.home(k), d, p)
    ensures t.Contents()[b.key := b.val] == m0[k := v]
  {
    if !moved {
      ProbeStops(t, k, d, p);
      StartCarrying(t, k, v, d, p);
    }
  }

  lemma InsertSwap<K, V>(t: Table<K, V>, k: K, v: V, m0: map<K, V>, b: Bkt<K, V>, d: nat, p: nat, moved: bool)
    returns (loc: map<K, nat>)
    requires Inserting(t, k, v, m0, b, d, p, moved) && d < |t.bkts|
    requires t.full[p] && b.psl > t.bkts[p].psl
    ensures |loc| == |t.loc|
    ensures Inserting(t.(bkts := t.bkts[p := b], loc := loc), k, v, m0, t.bkts[p].(psl := t.bkts[p].psl + 1), d + 1, Next(p, |t.bkts|), true)
  {
    InsertCarries(t, k, v, m0, b, d, p, moved);
    loc := SwapAndCarryOn(t, b, t.home(k), d, p);
  }

  /** Putting the bucket in hand into an empty slot completes the insertion. */
  lemma InsertSettle<K, V>(t: Table<K, V>, k: K, v: V, m0: map<K, V>, b: Bkt<K, V>, d: nat, p: nat, moved: bool)
    requires Inserting(t, k, v, m0, b, d, p, moved) && d < |t.bkts| && !t.full[p]
    ensures k !in m0 && Count(t.full) < |t.full|
    ensures Count(t.full[p := true]) == Count(t.full) + 1 && |t.loc[b.key := p]| == |t.loc| + 1
    ensures Table(t.home, t.zero, t.bkts[p := b], t.full[p := true], t.loc[b.key := p]).Holds(m0[k := v])
  {
    InsertCarries(t, k, v, m0, b, d, p, moved);
    Occupy(t.home, t.bkts, t.full, p, b);
    OccupyIndex(t.bkts, t.full, t.loc, p, b);
    CountUpdate(t.full, p, true);
    CountAtMost(t.full[p := true]);
  }

  lemma InsertExhausted<K, V>(t: Table<K, V>, k: K, v: V, m0: map<K, V>, b: Bkt<K, V>, p: nat, moved: bool)
    requires Inserting(t, k, v, m0, b, |t.bkts|, p, moved)
    ensures k !in m0 && Count(t.full) == |t.full|
    ensures t.Holds(m0[k := v] - {b.key})
  {
    if moved {
      CarriedAll(t, b, t.home(k), p);
    } else {
      ProbedAll(t, k, p);
    }
  }

  // ---- the deletion loop

  /**
   A hole in slot p, left by a bucket of depth d: everything is well placed except that the bucket
   after the hole may rely on the bucket that is gone.
   */
  ghost predicate Holed<K, V>(home: K -> nat, bkts: seq<Bkt<K, V>>, full: seq<bool>, p: nat, d: nat) {
    var n := |bkts|;
    && n == |full| && p < n && !full[p]
    && (forall i {:trigger FitsIn(home, bkts, full, bkts[i], i)} ::
          0 <= i < n && full[i] && i != Next(p, n) ==> FitsIn(home, bkts, full, bkts[i], i))
    && (full[Next(p, n)] ==>
          var q := bkts[Next(p, n)];
          home(q.key) < n && q.psl < n && Fwd(home(q.key), q.psl, n) == Next(p, n) && q.psl <= d + 1)
    && (d > 0 ==> full[Prev(p, n)] && bkts[Prev(p, n)].psl + 1 >= d)
  }

  lemma MakeHole<K, V>(home: K -> nat, bkts: seq<Bkt<K, V>>, full: seq<bool>, p: nat, zero: Bkt<K, V>)
    requires WellPlaced(home, bkts, full) && p < |bkts| && full[p]
    ensures Holed(home, bkts[p := zero], full[p := false], p, bkts[p].psl)
  {
    var bkts', full', n := bkts[p := zero], full[p := false], |bkts|;
    assert FitsIn(home, bkts, full, bkts[p], p);
    forall i | 0 <= i < n && full'[i] && i != Next(p, n) ensures FitsIn(home, bkts', full', bkts'[i], i) {
      assert FitsIn(home, bkts, full, bkts[i], i);
    }
    if full[Next(p, n)] {
      assert FitsIn(home, bkts, full, bkts[Next(p, n)], Next(p, n));
      assert Prev(Next(p, n), n) == p;
    }
  }

  /** Moving the bucket behind the hole back by one slot moves the hole on. */
  lemma ShiftBack<K, V>(home: K -> nat, bkts: seq<Bkt<K, V>>, full: seq<bool>, p: nat, d: nat, b: Bkt<K, V>, zero: Bkt<K, V>)
    requires Holed(home, bkts, full, p, d)
    requires full[Next(p, |bkts|)] && bkts[Next(p, |bkts|)].psl > 0
    requires b == bkts[Next(p, |bkts|)].(psl := bkts[Next(p, |bkts|)].psl - 1)
    ensures var q := Next(p, |bkts|);
            Holed(home, bkts[p := b][q := zero], full[p := true][q := false], q, bkts[q].psl)
  {
    var n, q := |bkts|, Next(p, |bkts|);
    var bkts', full' := bkts[p := b][q := zero], full[p := true][q := false];
    assert Prev(q, n) == p && Prev(Next(q, n), n) == q && (n > 2 ==> Next(q, n) != p);
    forall i | 0 <= i < n && full'[i] && i != Next(q, n) ensures FitsIn(home, bkts', full', bkts'[i], i) {
      if i != p {
        assert FitsIn(home, bkts, full, bkts[i], i);
        assert Prev(i, n) != p && Prev(i, n) != q;
      }
    }
    if n > 2 && full[Next(q, n)] {
      assert FitsIn(home, bkts, full, bkts[Next(q, n)], Next(q, n));
    }
  }

  lemma UnIndex<K, V>(bkts: seq<Bkt<K, V>>, full: seq<bool>, loc: map<K, nat>, p: nat, zero: Bkt<K, V>)
    requires Locates(bkts, full, loc) && p < |bkts| && full[p]
    ensures var k := bkts[p].key;
            && k in loc && |loc - {k}| == |loc| - 1
            && Locates(bkts[p := zero], full[p := false], loc - {k})
            && Stored(bkts[p := zero], full[p := false], loc - {k}) == Stored(bkts, full, loc) - {k}
  {
    assert (loc - {bkts[p].key}).Keys == loc.Keys - {bkts[p].key};
  }

  lemma ShiftIndex<K, V>(bkts: seq<Bkt<K, V>>, full: seq<bool>, loc: map<K, nat>, p: nat, q: nat, b: Bkt<K, V>, zero: Bkt<K, V>)
    requires Locates(bkts, full, loc) && p < |bkts| && q < |bkts| && p != q && !full[p] && full[q]
    requires b.key == bkts[q].key && b.val == bkts[q].val
    ensures var bkts', full', loc' := bkts[p := b][q := zero], full[p := true][q := false], loc[b.key := p];
            && Locates(bkts', full', loc') && |loc'| == |loc|
            && Stored(bkts', full', loc') == Stored(bkts, full, loc)
  {
    assert loc[b.key := p].Keys == loc.Keys;
  }

  /** The table with a hole in slot p still stands for m. */
  ghost predicate Shifting<K, V>(t: Table<K, V>, m: map<K, V>, p: nat, d: nat) {
    Holed(t.home, t.bkts, t.full, p, d) && t.Indexed() && t.Zeroed() && t.Contents() == m
  }

  lemma StartShifting<K, V>(t: Table<K, V>, p: nat)
    requires t.Placed() && t.Indexed() && t.Zeroed() && p < |t.bkts| && t.full[p]
    ensures t.bkts[p].key in t.loc && |t.loc - {t.bkts[p].key}| == |t.loc| - 1
    ensures Count(t.full[p := false]) == Count(t.full) - 1
    ensures Shifting(Table(t.home, t.zero, t.bkts[p := t.zero], t.full[p := false], t.loc - {t.bkts[p].key}),
                     t.Contents() - {t.bkts[p].key}, p, t.bkts[p].psl)
  {
    MakeHole(t.home, t.bkts, t.full, p, t.zero);
    UnIndex(t.bkts, t.full, t.loc, p, t.zero);
    CountUpdate(t.full, p, false);
  }

  lemma ShiftCounts<K, V>(bkts: seq<Bkt<K, V>>, full: seq<bool>, p: nat, q: nat, b: Bkt<K, V>, zero: Bkt<K, V>)
    requires |bkts| == |full| && p < |bkts| && q < |bkts| && p != q && !full[p] && full[q]
    requires bkts[p].psl == 0 == zero.psl && b.psl == bkts[q].psl - 1
    ensures Count(full[p := true][q := false]) == Count(full)
    ensures TotalPsl(bkts[p := b][q := zero]) == TotalPsl(bkts) - 1
  {
    CountUpdate(full, p, true);
    CountUpdate(full[p := true], q, false);
    TotalPslUpdate(bkts, p, b);
    TotalPslUpdate(bkts[p := b], q, zero);
  }

  /** Moving bucket q behind the hole, one step less deep, to the hole. */
  lemma ShiftOn<K, V>(t: Table<K, V>, m: map<K, V>, p: nat, d: nat, q: nat, b: Bkt<K, V>)
    requires Shifting(t, m, p, d) && q == Next(p, |t.bkts|)
    requires t.full[q] && t.bkts[q].psl > 0 && b == t.bkts[q].(psl := t.bkts[q].psl - 1)
    ensures Shifting(Table(t.home, t.zero, t.bkts[p := b][q := t.zero], t.full[p := true][q := false], t.loc[b.key := p]),
                     m, q, t.bkts[q].psl)
    ensures Count(t.full[p := true][q := false]) == Count(t.full) && |t.loc[b.key := p]| == |t.loc|
    ensures TotalPsl(t.bkts[p := b][q := t.zero]) < TotalPsl(t.bkts)
  {
    hide FitsIn, Locates, Stored, Count, TotalPsl;
    ShiftBack(t.home, t.bkts, t.full, p, d, b, t.zero);
    ShiftIndex(t.bkts, t.full, t.loc, p, q, b, t.zero);
    ShiftCounts(t.bkts, t.full, p, q, b, t.zero);
  }

  /** The shift stops at an empty slot or at a bucket in its home slot: nothing relies on the hole any more. */
  lemma StopShifting<K, V>(t: Table<K, V>, m: map<K, V>, p: nat, d: nat)
    requires Shifting(t, m, p, d)
    requires !t.full[Next(p, |t.bkts|)] || t.bkts[Next(p, |t.bkts|)].psl == 0
    ensures t.Holds(m)
  {}

  // ---- walking over all slots

  lemma PrefixStep<K, V>(t: Table<K, V>, i: nat)
    requires t.Indexed() && i < |t.bkts|
    ensures !t.full[i] ==> t.Prefix(i + 1) == t.Prefix(i)
    ensures t.full[i] ==> t.bkts[i].key !in t.Prefix(i) && |t.Prefix(i)| < |t.loc|
    ensures t.full[i] ==> t.Prefix(i + 1) == t.Prefix(i)[t.bkts[i].key := t.bkts[i].val]
  {
    if t.full[i] {
      PrefixSmaller(t, i);
    }
  }

  lemma PrefixSmaller<K, V>(t: Table<K, V>, i: nat)
    requires t.Indexed() && i < |t.bkts| && t.full[i]
    ensures |t.Prefix(i)| < |t.loc|
  {
    var keys := t.Prefix(i).Keys;
    assert keys <= t.loc.Keys - {t.bkts[i].key};
    SubsetSize(keys, t.loc.Keys - {t.bkts[i].key});
    assert |keys| == |t.Prefix(i)|;
  }

  lemma PrefixWithin<K, V>(t: Table<K, V>, i: nat)
    requires t.Indexed()
    ensures forall k :: k in t.Prefix(i) ==> k in t.Contents() && t.Prefix(i)[k] == t.Contents()[k]
  {}

  lemma PrefixAll<K, V>(t: Table<K, V>)
    requires t.Indexed()
    ensures t.Prefix(0) == map[]
    ensures t.Prefix(|t.bkts|) == t.Contents()
  {}
}
