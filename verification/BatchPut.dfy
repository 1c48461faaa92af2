/**
 hmap_mput: a batch of puts, done in chunks. In each chunk the keys are looked up first, then the keys
 found are updated by several threads, and the keys not found are put one after the other.
 */
module BatchPut {
  import FastDiv
  import opened RobinHood
  import opened HashMap

  // ---- what the batch means

  /** Puts the pairs from lo up to hi, one by one, into m. */
  ghost function PutAll<K, V>(c: Combine<V>, m: map<K, V>, keys: seq<K>, vals: seq<V>, lo: nat, hi: nat): map<K, V>
    requires lo <= hi <= |keys| == |vals|
  {
    if lo == hi then m else PutInto(c, PutAll(c, m, keys, vals, lo, hi - 1), keys[hi - 1], vals[hi - 1])
  }

  lemma {:induction false} PutAllSplit<K, V>(c: Combine<V>, m: map<K, V>, keys: seq<K>, vals: seq<V>, lo: nat, mid: nat, hi: nat)
    requires lo <= mid <= hi <= |keys| == |vals|
    ensures PutAll(c, PutAll(c, m, keys, vals, lo, mid), keys, vals, mid, hi) == PutAll(c, m, keys, vals, lo, hi)
    decreases hi
  {
    if mid < hi {
      PutAllSplit(c, m, keys, vals, lo, mid, hi - 1);
    }
  }

  lemma {:induction false} PutAllKeys<K, V>(c: Combine<V>, m: map<K, V>, keys: seq<K>, vals: seq<V>, lo: nat, hi: nat)
    requires lo <= hi <= |keys| == |vals|
    ensures m.Keys <= PutAll(c, m, keys, vals, lo, hi).Keys
    ensures PutAll(c, m, keys, vals, lo, hi).Keys <= m.Keys + set k | k in keys
    decreases hi
  {
    if lo < hi {
      PutAllKeys(c, m, keys, vals, lo, hi - 1);
    }
  }

  /** The value of k after the updates from lo up to hi that are for k. */
  ghost function Updates<K, V>(c: Combine<V>, v: V, keys: seq<K>, vals: seq<V>, k: K, lo: nat, hi: nat): V
    requires lo <= hi <= |keys| == |vals|
  {
    if lo == hi then v
    else if keys[hi - 1] == k then c.update(Updates(c, v, keys, vals, k, lo, hi - 1), vals[hi - 1])
    else Updates(c, v, keys, vals, k, lo, hi - 1)
  }

  /** A stored key sees just its own updates, in batch order. */
  lemma {:induction false} PutAllOnStoredKey<K, V>(c: Combine<V>, m: map<K, V>, keys: seq<K>, vals: seq<V>, k: K, lo: nat, hi: nat)
    requires lo <= hi <= |keys| == |vals| && k in m
    ensures k in PutAll(c, m, keys, vals, lo, hi)
    ensures PutAll(c, m, keys, vals, lo, hi)[k] == Updates(c, m[k], keys, vals, k, lo, hi)
    decreases hi
  {
    if lo < hi {
      PutAllOnStoredKey(c, m, keys, vals, k, lo, hi - 1);
    }
  }

  // ---- the threads

  /** A thread number is stored in eight bits. */
  function Int8(x: int): int { (x + 128) % 256 - 128 }

  /** The thread that is given a stored key: its hash modulo the number of processors, as an int8_t. */
  function TidFn<K>(setHash: (K, nat) -> uint32, seed: nat, nP: nat): K -> int {
    if nP == 0 then _ => -1 else (k: K) => Int8(Slot(setHash(k, seed), nP))
  }

  /** Thread t is one of a team: threads are numbered from 0. */
  predicate InTeam(t: int, team: nat) { 0 <= t < team }

  /**
   Every key of m has seen the updates that its thread has got to, where thread t has got to pcs[t];
   keys whose thread is not part of the team have seen none.
   */
  ghost predicate Progress<K, V>(c: Combine<V>, m0: map<K, V>, m: map<K, V>, keys: seq<K>, vals: seq<V>,
                                 tid: K -> int, lo: nat, pcs: seq<nat>)
    requires |keys| == |vals|
  {
    && (forall t :: 0 <= t < |pcs| ==> lo <= pcs[t] <= |keys|)
    && m.Keys == m0.Keys
    && forall k :: k in m0 ==> m[k] == if InTeam(tid(k), |pcs|) then Updates(c, m0[k], keys, vals, k, lo, pcs[tid(k)]) else m0[k]
  }

  lemma ThreadsStart<K, V>(c: Combine<V>, m0: map<K, V>, keys: seq<K>, vals: seq<V>, tid: K -> int, lo: nat, pcs: seq<nat>)
    requires lo <= |keys| == |vals|
    requires forall t :: 0 <= t < |pcs| ==> pcs[t] == lo
    ensures Progress(c, m0, m0, keys, vals, tid, lo, pcs)
  {}

  /** Thread t skips an item that is another thread's, or that is for a new key. */
  lemma SkipStep<K, V>(c: Combine<V>, m0: map<K, V>, m: map<K, V>, keys: seq<K>, vals: seq<V>,
                       tid: K -> int, lo: nat, pcs: seq<nat>, t: nat)
    requires |keys| == |vals| && Progress(c, m0, m, keys, vals, tid, lo, pcs)
    requires t < |pcs| && pcs[t] < |keys| && (keys[pcs[t]] in m0 ==> tid(keys[pcs[t]]) != t)
    ensures Progress(c, m0, m, keys, vals, tid, lo, pcs[t := pcs[t] + 1])
  {}

  /** Thread t applies an update. */
  lemma UpdateStep<K, V>(c: Combine<V>, m0: map<K, V>, m: map<K, V>, keys: seq<K>, vals: seq<V>,
                         tid: K -> int, lo: nat, pcs: seq<nat>, t: nat)
    requires |keys| == |vals| && Progress(c, m0, m, keys, vals, tid, lo, pcs)
    requires t < |pcs| && pcs[t] < |keys| && keys[pcs[t]] in m0 && tid(keys[pcs[t]]) == t
    ensures var k := keys[pcs[t]];
            k in m && Progress(c, m0, m[k := c.update(m[k], vals[pcs[t]])], keys, vals, tid, lo, pcs[t := pcs[t] + 1])
  {}

  /** What the threads leave when all are through: the updates of the keys whose thread is in the team. */
  ghost function AllUpdates<K, V>(c: Combine<V>, m0: map<K, V>, keys: seq<K>, vals: seq<V>,
                                  tid: K -> int, team: nat, lo: nat, hi: nat): map<K, V>
    requires lo <= hi <= |keys| == |vals|
  {
    map k | k in m0 :: if InTeam(tid(k), team) then Updates(c, m0[k], keys, vals, k, lo, hi) else m0[k]
  }

  lemma ThreadsDone<K, V>(c: Combine<V>, m0: map<K, V>, m: map<K, V>, keys: seq<K>, vals: seq<V>,
                          tid: K -> int, lo: nat, hi: nat, pcs: seq<nat>)
    requires lo <= hi <= |keys| == |vals| && Progress(c, m0, m, keys, vals, tid, lo, pcs)
    requires forall t :: 0 <= t < |pcs| ==> pcs[t] == hi
    ensures m == AllUpdates(c, m0, keys, vals, tid, |pcs|, lo, hi)
  {}

  // ---- the sequential loop

  /** After the updates made u of the keys of m0, the new keys from lo up to j are put in order. */
  ghost function WithNewKeys<K, V>(c: Combine<V>, m0: map<K, V>, u: map<K, V>, keys: seq<K>, vals: seq<V>, lo: nat, j: nat): map<K, V>
    requires lo <= j <= |keys| == |vals| && m0.Keys <= u.Keys
  {
    var p := PutAll(c, m0, keys, vals, lo, j);
    map k | k in p :: if k in m0 then u[k] else p[k]
  }

  lemma NewKeyStep<K, V>(c: Combine<V>, m0: map<K, V>, u: map<K, V>, keys: seq<K>, vals: seq<V>, lo: nat, j: nat)
    requires lo <= j < |keys| == |vals| && u.Keys == m0.Keys
    ensures WithNewKeys(c, m0, u, keys, vals, lo, lo) == u
    ensures WithNewKeys(c, m0, u, keys, vals, lo, j + 1) ==
      if keys[j] in m0 then WithNewKeys(c, m0, u, keys, vals, lo, j)
      else PutInto(c, WithNewKeys(c, m0, u, keys, vals, lo, j), keys[j], vals[j])
  {
    PutAllKeys(c, m0, keys, vals, lo, j);
  }

  /** What one chunk does to the map, with `team` threads at work. */
  ghost function ChunkResult<K, V>(c: Combine<V>, m0: map<K, V>, keys: seq<K>, vals: seq<V>,
                                   tid: K -> int, team: nat, lo: nat, hi: nat): map<K, V>
    requires lo <= hi <= |keys| == |vals|
  {
    WithNewKeys(c, m0, AllUpdates(c, m0, keys, vals, tid, team, lo, hi), keys, vals, lo, hi)
  }

  /** A chunk equals putting its pairs one by one, when every stored key's thread is in the team. */
  lemma ChunkIsPutAll<K, V>(c: Combine<V>, m0: map<K, V>, keys: seq<K>, vals: seq<V>,
                            tid: K -> int, team: nat, lo: nat, hi: nat)
    requires lo <= hi <= |keys| == |vals|
    requires forall j :: lo <= j < hi && keys[j] in m0 ==> InTeam(tid(keys[j]), team)
    ensures ChunkResult(c, m0, keys, vals, tid, team, lo, hi) == PutAll(c, m0, keys, vals, lo, hi)
  {
    var p := PutAll(c, m0, keys, vals, lo, hi);
    PutAllKeys(c, m0, keys, vals, lo, hi);
    forall k | k in m0 ensures k in p && AllUpdates(c, m0, keys, vals, tid, team, lo, hi)[k] == p[k] {
      PutAllOnStoredKey(c, m0, keys, vals, k, lo, hi);
      if !InTeam(tid(k), team) {
        NoUpdates(c, m0[k], keys, vals, k, lo, hi);
      }
    }
  }

  lemma {:induction false} NoUpdates<K, V>(c: Combine<V>, v: V, keys: seq<K>, vals: seq<V>, k: K, lo: nat, hi: nat)
    requires lo <= hi <= |keys| == |vals|
    requires forall j :: lo <= j < hi ==> keys[j] != k
    ensures Updates(c, v, keys, vals, k, lo, hi) == v
    decreases hi
  {
    if lo < hi {
      NoUpdates(c, v, keys, vals, k, lo, hi - 1);
    }
  }

  /** Adding ones counts the updates of a key. */
  lemma {:induction false} CountedUpdates<K>(c: Combine<int>, v: int, keys: seq<K>, vals: seq<int>, k: K, lo: nat, hi: nat, at: nat)
    requires lo <= at < hi <= |keys| == |vals| && keys[at] == k
    requires forall j :: lo <= j < hi ==> vals[j] == 1
    requires forall a, b :: c.update(a, b) == a + b
    ensures Updates(c, v, keys, vals, k, lo, hi) > v
    decreases hi
  {
    if at < hi - 1 {
      CountedUpdates(c, v, keys, vals, k, lo, hi - 1, at);
    } else {
      AtLeast(c, v, keys, vals, k, lo, hi - 1);
    }
  }

  lemma {:induction false} AtLeast<K>(c: Combine<int>, v: int, keys: seq<K>, vals: seq<int>, k: K, lo: nat, hi: nat)
    requires lo <= hi <= |keys| == |vals|
    requires forall j :: lo <= j < hi ==> vals[j] == 1
    requires forall a, b :: c.update(a, b) == a + b
    ensures Updates(c, v, keys, vals, k, lo, hi) >= v
    decreases hi
  {
    if lo < hi {
      AtLeast(c, v, keys, vals, k, lo, hi - 1);
    }
  }

  /**
   For which teams a chunk is the same as one-by-one puts, whatever the values and the update function:
   exactly those that have the thread of every stored key of the chunk, none of whose numbers is negative.
   */
  lemma TeamMustCoverThreads<K>(m0: map<K, int>, keys: seq<K>, tid: K -> int, team: nat)
    ensures (forall c: Combine<int>, vals: seq<int> :: |vals| == |keys| ==>
               ChunkResult(c, m0, keys, vals, tid, team, 0, |keys|) == PutAll(c, m0, keys, vals, 0, |keys|))
            <==> (forall j :: 0 <= j < |keys| && keys[j] in m0 ==> InTeam(tid(keys[j]), team))
  {
    if forall j :: 0 <= j < |keys| && keys[j] in m0 ==> InTeam(tid(keys[j]), team) {
      forall c: Combine<int>, vals: seq<int> | |vals| == |keys|
        ensures ChunkResult(c, m0, keys, vals, tid, team, 0, |keys|) == PutAll(c, m0, keys, vals, 0, |keys|)
      {
        ChunkIsPutAll(c, m0, keys, vals, tid, team, 0, |keys|);
      }
    } else {
      var j :| 0 <= j < |keys| && keys[j] in m0 && !InTeam(tid(keys[j]), team);
      var c, vals := Combine((a, b) => a + b, v => v), seq(|keys|, _ => 1);
      PutAllOnStoredKey(c, m0, keys, vals, keys[j], 0, |keys|);
      CountedUpdates(c, m0[keys[j]], keys, vals, keys[j], 0, |keys|, j);
      assert ChunkResult(c, m0, keys, vals, tid, team, 0, |keys|)[keys[j]] == m0[keys[j]];
    }
  }

  /**
   Every hash names a thread of the team exactly when there are at most 128 processors and at least as
   many threads. From 129 processors on, hash 128 goes to thread -128.
   */
  lemma ThreadNumbersFit(nP: nat, team: nat)
    requires 1 <= nP < FastDiv.TWO32
    ensures (forall hash: uint32 :: InTeam(Int8(Slot(hash, nP)), team)) <==> nP <= 128 && nP <= team
  {
    if nP <= 128 {
      if team < nP {
        var hash: uint32 := nP - 1;
        assert !InTeam(Int8(Slot(hash, nP)), team);
      }
    } else {
      var hash: uint32 := 128;
      assert Int8(Slot(hash, nP)) == -128;
    }
  }

  /** With 200 processors and as many threads, the updates of a stored key whose hash is 150 are lost. */
  lemma UpdateLost<K>(c: Combine<int>, m: map<K, int>, k: K, v: int, hash: uint32)
    requires k in m && c.update(m[k], v) != m[k] && hash == 150
    ensures Int8(Slot(hash, 200)) == -106
    ensures ChunkResult(c, m, [k], [v], _ => Int8(Slot(hash, 200)), 200, 0, 1) == m != PutAll(c, m, [k], [v], 0, 1)
  {
    assert PutAll(c, m, [k], [v], 0, 0) == m;
    assert PutAll(c, m, [k], [v], 0, 1) == m[k := c.update(m[k], v)];
    assert m[k := c.update(m[k], v)][k] != m[k];
  }

  // ---- hmap_mput

  /** The chunks of at most `step` items from lo up to hi, one after the other. */
  ghost function InChunks<K, V>(c: Combine<V>, m: map<K, V>, keys: seq<K>, vals: seq<V>,
                                tid: K -> int, team: nat, step: nat, lo: nat, hi: nat): map<K, V>
    requires lo <= hi <= |keys| == |vals| && step > 0
    decreases hi - lo
  {
    var ub := if lo + step > hi then hi else lo + step;
    var m' := ChunkResult(c, m, keys, vals, tid, team, lo, ub);
    if ub >= hi then m' else InChunks(c, m', keys, vals, tid, team, step, ub, hi)
  }

  lemma {:induction false} ChunksArePutAll<K, V>(c: Combine<V>, m: map<K, V>, keys: seq<K>, vals: seq<V>,
                                                 tid: K -> int, team: nat, step: nat, lo: nat, hi: nat)
    requires lo <= hi <= |keys| == |vals| && step > 0
    requires forall k :: InTeam(tid(k), team)
    ensures InChunks(c, m, keys, vals, tid, team, step, lo, hi) == PutAll(c, m, keys, vals, lo, hi)
    decreases hi - lo
  {
    var ub := if lo + step > hi then hi else lo + step;
    ChunkIsPutAll(c, m, keys, vals, tid, team, lo, ub);
    if ub < hi {
      ChunksArePutAll(c, PutAll(c, m, keys, vals, lo, ub), keys, vals, tid, team, step, ub, hi);
      PutAllSplit(c, m, keys, vals, lo, ub, hi);
    }
  }

  /** The result of looking up the items of a chunk: where each stored key is, and whose it is to update. */
  datatype Lookup = Lookup(hashes: seq<uint32>, exists_: seq<bool>, idxs: seq<nat>, tids: seq<int>)

  ghost predicate LookedUp<K, V>(h: HMap<K, V>, keys: seq<K>, lo: nat, hi: nat, tid: K -> int, l: Lookup, m0: map<K, V>)
    requires lo <= hi <= |keys|
    reads h, h.bkts, h.bktFull
  {
    && |l.hashes| == |l.exists_| == |l.idxs| == |l.tids| == hi - lo
    && forall j :: 0 <= j < hi - lo ==>
         && l.hashes[j] == h.setHash(keys[lo + j], h.hashkey)
         && (l.exists_[j] <==> keys[lo + j] in m0)
         && l.tids[j] == (if l.exists_[j] then tid(keys[lo + j]) else -1)
         && (l.exists_[j] ==> l.idxs[j] < h.bkts.Length == h.bktFull.Length && h.bktFull[l.idxs[j]]
                              && h.bkts[l.idxs[j]].key == keys[lo + j])
  }

  /** The first loop of a chunk: hash, look up, and give each stored key to a thread by its hash. */
  method LookUpChunk<K(==), V>(h: HMap<K, V>, keys: seq<K>, lo: nat, hi: nat, nP: nat) returns (status: int, l: Lookup)
    requires h.Valid() && lo <= hi <= |keys| && 1 <= nP < FastDiv.TWO32
    requires h.nitems < h.size && h.zero.key !in keys
    ensures status == 0 && LookedUp(h, keys, lo, hi, TidFn(h.setHash, h.hashkey, nP), l, h.M())
  {
    hide FastDiv.Init, FastDiv.Rem, Slot, HMap.Valid, HMap.Sound, HMap.M, HMap.T, HMap.FalseHit, HMap.Dimensions;
    OpenForLookUp(h);
    l := Lookup([], [], [], []);
    status := 0;
    for i := lo to hi
      invariant status == 0 && LookedUp(h, keys, lo, i, TidFn(h.setHash, h.hashkey, nP), l, h.M())
    {
      var hash := h.setHash(keys[i], h.hashkey);
      var s, found, v, at := h.Get(keys[i]);
      if s != 0 { status := s; }
      SlotIsRemainder(hash, nP);
      var tid: int := if found then Int8(FastDiv.Rem(hash, nP, FastDiv.Init(nP))) else -1;
      l := Lookup(l.hashes + [hash], l.exists_ + [found], l.idxs + [at], l.tids + [tid]);
    }
  }

  lemma OpenForLookUp<K, V>(h: HMap<K, V>)
    requires h.Valid()
    ensures h.Sound() && h.size == h.bkts.Length == h.bktFull.Length && h.nitems == |h.M()| <= HighWater(h.size) + 1
    ensures forall k, n :: n > 0 ==> TidFn(h.setHash, h.hashkey, n)(k) == Int8(Slot(h.setHash(k, h.hashkey), n))
  {
    h.Opened();
  }

  /** The steps the threads still have to take. */
  ghost function StepsLeft(pcs: seq<nat>, hi: nat): int {
    if pcs == [] then 0 else hi - pcs[0] + StepsLeft(pcs[1..], hi)
  }

  lemma {:induction false} StepTaken(pcs: seq<nat>, hi: nat, t: nat)
    requires t < |pcs|
    ensures StepsLeft(pcs[t := pcs[t] + 1], hi) == StepsLeft(pcs, hi) - 1
  {
    if t == 0 {
      assert pcs[0 := pcs[0] + 1][1..] == pcs[1..];
    } else {
      StepTaken(pcs[1..], hi, t - 1);
      assert pcs[t := pcs[t] + 1][1..] == pcs[1..][t - 1 := pcs[t] + 1];
    }
  }

  lemma {:induction false} StepsNonNegative(pcs: seq<nat>, hi: nat)
    requires forall t :: 0 <= t < |pcs| ==> pcs[t] <= hi
    ensures StepsLeft(pcs, hi) >= 0
  {
    if pcs != [] {
      StepsNonNegative(pcs[1..], hi);
    }
  }

  /**
   The parallel loop of a chunk. Thread t goes through all items in order, and updates those that are
   its own. Which thread takes the next step is left open.
   */
  method RunThreads<K(==), V>(h: HMap<K, V>, keys: seq<K>, vals: seq<V>, lo: nat, hi: nat, l: Lookup, team: nat, ghost tid: K -> int)
    requires h.Valid() && lo <= hi <= |keys| == |vals|
    requires LookedUp(h, keys, lo, hi, tid, l, h.M())
    modifies h.bkts
    ensures h.Valid() && h.M() == AllUpdates(h.combine, old(h.M()), keys, vals, tid, team, lo, hi)
  {
    hide HMap.Valid, HMap.Sound, HMap.M, HMap.T, HMap.Dimensions, Progress, AllUpdates, Updates, StepsLeft;
    OpenForLookUp(h);
    ghost var m0 := h.M();
    var pcs: seq<nat> := seq(team, _ => lo);
    ThreadsStart(h.combine, m0, keys, vals, tid, lo, pcs);
    while exists t :: 0 <= t < team && pcs[t] < hi
      invariant |pcs| == team && forall t :: 0 <= t < team ==> lo <= pcs[t] <= hi
      invariant h.Valid() && h.Sound() && h.size == h.bkts.Length && LookedUp(h, keys, lo, hi, tid, l, m0)
      invariant Progress(h.combine, m0, h.M(), keys, vals, tid, lo, pcs)
      decreases StepsLeft(pcs, hi)
    {
      var t: nat :| 0 <= t < team && pcs[t] < hi;
      var i := pcs[t];
      if l.tids[i - lo] == t {
        UpdateStep(h.combine, m0, h.M(), keys, vals, tid, lo, pcs, t);
        h.UpdateAt(l.idxs[i - lo], vals[i]);
        OpenForLookUp(h);
      } else {
        SkipStep(h.combine, m0, h.M(), keys, vals, tid, lo, pcs, t);
      }
      StepTaken(pcs, hi, t);
      StepsNonNegative(pcs, hi);
      pcs := pcs[t := i + 1];
    }
    ThreadsDone(h.combine, m0, h.M(), keys, vals, tid, lo, hi, pcs);
  }

  /** The sequential loop of a chunk: put the keys that were not found, in order. Nothing is resized, so the hashes still hold. */
  method PutNewKeys<K(==), V>(h: HMap<K, V>, keys: seq<K>, vals: seq<V>, lo: nat, hi: nat, l: Lookup,
                              ghost m0: map<K, V>, ghost all: set<K>)
    returns (status: int)
    requires h.Valid() && lo <= hi <= |keys| == |vals| && h.M().Keys == m0.Keys
    requires |l.hashes| == |l.exists_| == hi - lo
    requires forall j :: 0 <= j < hi - lo ==> (l.exists_[j] <==> keys[lo + j] in m0) && l.hashes[j] == h.setHash(keys[lo + j], h.hashkey)
    requires m0.Keys <= all && (forall k :: k in keys ==> k in all) && |all| <= HighWater(h.size)
    modifies h, h.bkts, h.bktFull
    ensures h.Valid() && status == 0 && h.size == old(h.size) && h.hashkey == old(h.hashkey)
    ensures h.bkts == old(h.bkts) && h.bktFull == old(h.bktFull)
    ensures h.M() == WithNewKeys(h.combine, m0, old(h.M()), keys, vals, lo, hi) && h.M().Keys <= all
  {
    hide HMap.Valid, HMap.Sound, HMap.M, HMap.T, HMap.Dimensions, WithNewKeys, PutAll, PutInto, FastDiv.Init, HighWater;
    OpenForLookUp(h);
    ghost var u := h.M();
    status := 0;
    NewKeysStart(h.combine, m0, u, keys, vals, lo);
    for i := lo to hi
      invariant h.Valid() && h.Sound() && h.size == old(h.size) && h.hashkey == old(h.hashkey) && status == 0
      invariant h.bkts == old(h.bkts) && h.bktFull == old(h.bktFull)
      invariant h.M() == WithNewKeys(h.combine, m0, u, keys, vals, lo, i) && h.M().Keys <= all
    {
      NewKeyStep(h.combine, m0, u, keys, vals, lo, i);
      if !l.exists_[i - lo] {
        assert l.hashes[i - lo] == h.setHash(keys[i], h.hashkey);
        SubsetSize(h.M().Keys, all);
        OpenForLookUp(h);
        PutIntoKeys(h.combine, h.M(), keys[i], vals[i]);
        status := h.Put(keys[i], vals[i]);
        OpenForLookUp(h);
      }
    }
  }

  lemma PutIntoKeys<K, V>(c: Combine<V>, m: map<K, V>, k: K, v: V)
    ensures PutInto(c, m, k, v).Keys == m.Keys + {k}
  {}

  lemma NewKeysStart<K, V>(c: Combine<V>, m0: map<K, V>, u: map<K, V>, keys: seq<K>, vals: seq<V>, lo: nat)
    requires lo <= |keys| == |vals| && u.Keys == m0.Keys
    ensures WithNewKeys(c, m0, u, keys, vals, lo, lo) == u
  {}

  /** hmap_mput: chunk by chunk, look up, update in parallel, and put what is new. */
  method MPut<K(==), V>(h: HMap<K, V>, keys: seq<K>, vals: seq<V>, numAtOnce: nat, nP: nat, team: nat) returns (status: int)
    requires h.Valid() && |keys| == |vals| && numAtOnce > 0 && 1 <= nP < FastDiv.TWO32 && h.zero.key !in keys
    requires |h.M().Keys + set k | k in keys| <= HighWater(h.size)
    modifies h, h.bkts, h.bktFull
    ensures h.Valid() && status == 0
    ensures h.M() == if keys == [] then old(h.M()) else
      InChunks(h.combine, old(h.M()), keys, vals, TidFn(h.setHash, old(h.hashkey), nP), team, numAtOnce, 0, |keys|)
    ensures nP <= 128 && nP <= team ==> h.M() == PutAll(h.combine, old(h.M()), keys, vals, 0, |keys|)
  {
    hide HMap.Valid, HMap.Sound, HMap.M, HMap.T, HMap.Dimensions, WithNewKeys, PutAll, PutInto, FastDiv.Init, HighWater,
      InChunks, ChunkResult, AllUpdates, LookedUp, Slot, TidFn, InTeam;
    OpenForLookUp(h);
    status := 0;
    ghost var m0, tid := h.M(), TidFn(h.setHash, h.hashkey, nP);
    ghost var all := h.M().Keys + set k | k in keys;
    if nP <= 128 && nP <= team {
      TidsInTeam(h.setHash, h.hashkey, nP, team);
      PutNothing(h.combine, m0, keys, vals);
      ChunksArePutAll(h.combine, m0, keys, vals, tid, team, numAtOnce, 0, |keys|);
    }
    if keys == [] {
      return;
    }
    var lb := 0;
    while true
      invariant lb < |keys| && h.Valid() && h.Sound() && status == 0
      invariant h.size == old(h.size) && h.hashkey == old(h.hashkey) && h.bkts == old(h.bkts) && h.bktFull == old(h.bktFull)
      invariant h.M().Keys <= all
      invariant InChunks(h.combine, h.M(), keys, vals, tid, team, numAtOnce, lb, |keys|)
             == InChunks(h.combine, m0, keys, vals, tid, team, numAtOnce, 0, |keys|)
      decreases |keys| - lb
    {
      var ub := lb + numAtOnce;
      if ub > |keys| { ub := |keys|; }
      ChunkStep(h.combine, h.M(), keys, vals, tid, team, numAtOnce, lb, |keys|);
      status := MPutChunk(h, keys, vals, lb, ub, nP, team, all);
      OpenForLookUp(h);
      if ub >= |keys| { break; }
      lb := lb + numAtOnce;
    }
  }

  /** One round of the loop over the chunks. */
  method MPutChunk<K(==), V>(h: HMap<K, V>, keys: seq<K>, vals: seq<V>, lo: nat, hi: nat, nP: nat, team: nat, ghost all: set<K>)
    returns (status: int)
    requires h.Valid() && lo <= hi <= |keys| == |vals| && 1 <= nP < FastDiv.TWO32 && h.zero.key !in keys
    requires h.M().Keys <= all && (forall k :: k in keys ==> k in all) && |all| <= HighWater(h.size)
    modifies h, h.bkts, h.bktFull
    ensures h.Valid() && status == 0 && h.size == old(h.size) && h.hashkey == old(h.hashkey)
    ensures h.bkts == old(h.bkts) && h.bktFull == old(h.bktFull) && h.M().Keys <= all
    ensures h.M() == ChunkResult(h.combine, old(h.M()), keys, vals, TidFn(h.setHash, h.hashkey, nP), team, lo, hi)
  {
    hide HMap.Valid, HMap.Sound, HMap.M, HMap.T, HMap.Dimensions, WithNewKeys, PutAll, PutInto, FastDiv.Init, Slot, TidFn, Updates;
    OpenForLookUp(h);
    HighWaterBelow(h);
    SubsetSize(h.M().Keys, all);
    ghost var m0, tid := h.M(), TidFn(h.setHash, h.hashkey, nP);
    var l;
    status, l := LookUpChunk(h, keys, lo, hi, nP);
    RunThreads(h, keys, vals, lo, hi, l, team, tid);
    status := PutNewKeys(h, keys, vals, lo, hi, l, m0, all);
  }

  lemma HighWaterBelow<K, V>(h: HMap<K, V>)
    requires h.Valid()
    ensures HighWater(h.size) < h.size
  {}

  lemma TidsInTeam<K>(setHash: (K, nat) -> uint32, seed: nat, nP: nat, team: nat)
    requires 0 < nP <= 128 && nP <= team
    ensures forall k :: InTeam(TidFn(setHash, seed, nP)(k), team)
  {
    forall k ensures InTeam(TidFn(setHash, seed, nP)(k), team) {
      assert TidFn(setHash, seed, nP)(k) == Int8(Slot(setHash(k, seed), nP));
    }
  }

  lemma PutNothing<K, V>(c: Combine<V>, m: map<K, V>, keys: seq<K>, vals: seq<V>)
    requires |keys| == |vals|
    ensures PutAll(c, m, keys, vals, 0, 0) == m
  {}

  lemma ChunkStep<K, V>(c: Combine<V>, m: map<K, V>, keys: seq<K>, vals: seq<V>,
                        tid: K -> int, team: nat, step: nat, lo: nat, hi: nat)
    requires lo <= hi <= |keys| == |vals| && step > 0
    ensures var ub := if lo + step > hi then hi else lo + step;
            InChunks(c, m, keys, vals, tid, team, step, lo, hi) ==
            if ub >= hi then ChunkResult(c, m, keys, vals, tid, team, lo, ub)
            else InChunks(c, ChunkResult(c, m, keys, vals, tid, team, lo, ub), keys, vals, tid, team, step, ub, hi)
  {}
}
