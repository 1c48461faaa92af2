/**
  * Connected components: hooking and pointer jumping over an edge list
  * (GRAPH/CONN_COMP/src/conn.c) and parallel least-label propagation over
  * adjacency lists (GRAPH/CONN_COMP/src/conn_comp.c).
  */
module Graphs {
  type Edges = set<(nat, nat)>

  predicate Adjacent(edges: Edges, a: nat, b: nat) { (a, b) in edges || (b, a) in edges }

  ghost predicate Path(edges: Edges, p: seq<nat>, a: nat, b: nat) {
    && p != [] && p[0] == a && p[|p| - 1] == b
    && forall i :: 0 <= i < |p| - 1 ==> Adjacent(edges, p[i], p[i + 1])
  }

  ghost predicate Connected(edges: Edges, a: nat, b: nat) {
    exists p: seq<nat> :: Path(edges, p, a, b)
  }

  lemma SelfConnected(edges: Edges, a: nat)
    ensures Connected(edges, a, a)
  {
    assert Path(edges, [a], a, a);
  }

  lemma ConnectedOn(edges: Edges, a: nat, b: nat, c: nat)
    requires Connected(edges, a, b) && Connected(edges, b, c)
    ensures Connected(edges, a, c)
  {
    var p: seq<nat> :| Path(edges, p, a, b);
    var q: seq<nat> :| Path(edges, q, b, c);
    var r := p + q[1..];
    forall i | 0 <= i < |r| - 1
      ensures Adjacent(edges, r[i], r[i + 1])
    {
      if i >= |p| - 1 {
        assert r[i] == q[i - |p| + 1] && r[i + 1] == q[i - |p| + 2];
        assert Adjacent(edges, q[i - |p| + 1], q[i - |p| + 2]);
      } else {
        assert r[i] == p[i] && r[i + 1] == p[i + 1];
      }
    }
    assert Path(edges, r, a, c);
  }

  lemma EdgeConnects(edges: Edges, a: nat, b: nat)
    requires Adjacent(edges, a, b)
    ensures Connected(edges, a, b) && Connected(edges, b, a)
  {
    assert Path(edges, [a, b], a, b) && Path(edges, [b, a], b, a);
  }

  /** Every vertex is labelled with a vertex of its component that is not above it. */
  ghost predicate Sound(edges: Edges, rep: seq<nat>) {
    forall v: nat :: v < |rep| ==> rep[v] <= v && Connected(edges, v, rep[v])
  }

  /** Labels agree across every edge. */
  ghost predicate Settled(edges: Edges, rep: seq<nat>) {
    forall a: nat, b: nat :: (a, b) in edges ==> a < |rep| && b < |rep| && rep[a] == rep[b]
  }

  lemma {:induction false} SettledOnPath(edges: Edges, rep: seq<nat>, p: seq<nat>, a: nat, b: nat)
    requires Settled(edges, rep) && Path(edges, p, a, b) && a < |rep|
    ensures b < |rep| && rep[b] == rep[a]
    decreases |p|
  {
    var n := |p| - 1;
    if n > 0 {
      assert Adjacent(edges, p[n - 1], p[n - 1 + 1]);
      PathBefore(edges, p, a, b);
      SettledOnPath(edges, rep, p[..n], a, p[n - 1]);
    }
  }

  lemma PathBefore(edges: Edges, p: seq<nat>, a: nat, b: nat)
    requires Path(edges, p, a, b) && |p| > 1
    ensures Path(edges, p[..|p| - 1], a, p[|p| - 2])
  {
    var q := p[..|p| - 1];
    forall i | 0 <= i < |q| - 1
      ensures Adjacent(edges, q[i], q[i + 1])
    {
      assert q[i] == p[i] && q[i + 1] == p[i + 1];
    }
  }

  /** rep[v] is the least vertex of v's component. */
  ghost predicate Least(edges: Edges, rep: seq<nat>) {
    forall v: nat :: v < |rep| ==>
      Connected(edges, v, rep[v]) && forall u: nat :: Connected(edges, v, u) ==> rep[v] <= u
  }

  lemma SettledIsLeast(edges: Edges, rep: seq<nat>)
    requires Settled(edges, rep) && Sound(edges, rep)
    ensures Least(edges, rep)
  {
    forall v: nat, u: nat | v < |rep| && Connected(edges, v, u)
      ensures rep[v] <= u
    {
      var p: seq<nat> :| Path(edges, p, v, u);
      SettledOnPath(edges, rep, p, v, u);
    }
  }

  lemma EveryoneAlone(edges: Edges, rep: seq<nat>)
    requires forall v :: 0 <= v < |rep| ==> rep[v] == v
    ensures Sound(edges, rep)
  {
    forall v: nat | v < |rep|
      ensures Connected(edges, v, rep[v])
    {
      SelfConnected(edges, v);
    }
  }

  function Sum(rep: seq<nat>): nat {
    if rep == [] then 0 else Sum(rep[..|rep| - 1]) + rep[|rep| - 1]
  }

  /** Lowering labels lowers the sum. */
  lemma {:induction false} SumDrops(rep: seq<nat>, rep': seq<nat>)
    requires |rep| == |rep'| && forall v :: 0 <= v < |rep| ==> rep'[v] <= rep[v]
    ensures Sum(rep') <= Sum(rep)
    ensures rep != rep' ==> Sum(rep') < Sum(rep)
  {
    if rep != [] {
      var n := |rep| - 1;
      assert forall v :: 0 <= v < n ==> rep'[..n][v] <= rep[..n][v];
      SumDrops(rep[..n], rep'[..n]);
      assert rep == rep[..n] + [rep[n]] && rep' == rep'[..n] + [rep'[n]];
    }
  }
}

module Hooking {
  import opened Graphs

  ghost predicate Downward(rep: seq<nat>) {
    forall v: nat :: v < |rep| ==> rep[v] <= v
  }

  /** Where following rep from v ends. */
  function Root(rep: seq<nat>, v: nat): (r: nat)
    requires v < |rep| && Downward(rep)
    ensures r <= v
    decreases v
  {
    if rep[v] == v then v else Root(rep, rep[v])
  }

  lemma {:induction false} RootFacts(edges: Edges, rep: seq<nat>, v: nat)
    requires v < |rep| && Sound(edges, rep)
    ensures Downward(rep) && Root(rep, v) <= rep[v] && rep[Root(rep, v)] == Root(rep, v)
    ensures Connected(edges, v, Root(rep, v))
    decreases v
  {
    if rep[v] != v {
      RootFacts(edges, rep, rep[v]);
      ConnectedOn(edges, v, rep[v], Root(rep, v));
    }
  }

  /** Pointing x straight at its root changes nobody's root. */
  lemma {:induction false} RootKept(rep: seq<nat>, x: nat, v: nat)
    requires Downward(rep) && x < |rep| && v < |rep| && rep[Root(rep, x)] == Root(rep, x) <= x
    ensures Downward(rep[x := Root(rep, x)]) && Root(rep[x := Root(rep, x)], v) == Root(rep, v)
    decreases v
  {
    var rep' := rep[x := Root(rep, x)];
    if v == x {
      assert Root(rep, x) != x ==> Root(rep', Root(rep, x)) == Root(rep, x);
    } else if rep[v] != v {
      RootKept(rep, x, rep[v]);
    }
  }

  /** State of the jumping pass: all roots are as they were, and the first i vertices point at theirs. */
  ghost predicate Jumping(rep0: seq<nat>, rep: seq<nat>, i: nat) {
    && |rep| == |rep0| && Downward(rep0) && Downward(rep)
    && (forall v: nat :: v < |rep| ==> rep[v] <= rep0[v] && Root(rep, v) == Root(rep0, v))
    && (forall v: nat :: v < i && v < |rep| ==> rep[v] == Root(rep0, v))
  }

  lemma JumpOne(edges: Edges, rep0: seq<nat>, rep: seq<nat>, i: nat, x: nat)
    requires Sound(edges, rep0) && Jumping(rep0, rep, i) && x < |rep|
    ensures Jumping(rep0, rep[x := Root(rep0, x)], i)
    ensures x == i ==> Jumping(rep0, rep[x := Root(rep0, x)], i + 1)
  {
    var r := Root(rep0, x);
    RootFacts(edges, rep0, x);
    assert rep[r] <= rep0[r] == r;
    RootIsFixed(rep, x);
    var rep' := rep[x := r];
    forall v: nat | v < |rep|
      ensures Downward(rep') && Root(rep', v) == Root(rep0, v) && rep'[v] <= rep0[v]
    {
      RootKept(rep, x, v);
    }
  }

  lemma {:induction false} RootIsFixed(rep: seq<nat>, v: nat)
    requires Downward(rep) && v < |rep|
    ensures Root(rep, v) <= v && rep[Root(rep, v)] == Root(rep, v)
    decreases v
  {
    if rep[v] != v {
      RootIsFixed(rep, rep[v]);
    }
  }

  /** One link of the chain: the same root, further down; the chain ends at the root. */
  lemma ChainOn(rep0: seq<nat>, rep: seq<nat>, i: nat, me: nat)
    requires Jumping(rep0, rep, i) && me < |rep|
    ensures rep[me] < |rep| && rep[rep[me]] <= rep[me] && Root(rep0, rep[me]) == Root(rep0, me)
    ensures rep[me] == me ==> Root(rep0, me) == me
  {
    assert Root(rep, rep[me]) == Root(rep, me);
  }

  /** Along the chain from i: every vertex seen has i's root, and me follows i. */
  method Jump(rep: array<nat>, i: nat, ghost edges: Edges, ghost rep0: seq<nat>, maxChain: nat)
    requires i < rep.Length && Sound(edges, rep0) && Jumping(rep0, rep[..], i)
    modifies rep
    ensures Jumping(rep0, rep[..], i + 1)
  {
    ghost var r := Root(rep0, i);
    var me: nat, parent: nat := i, rep[i];
    var chain: seq<nat> := [];
    while me != parent
      invariant me < rep.Length && parent == rep[me] && parent <= me && Root(rep0, me) == r
      invariant forall j :: 0 <= j < |chain| ==> chain[j] < rep.Length && Root(rep0, chain[j]) == r
      invariant Jumping(rep0, rep[..], i)
      decreases me
      modifies {}
    {
      if |chain| < maxChain {
        chain := chain + [parent];
      }
      ChainOn(rep0, rep[..], i, me);
      me, parent := parent, rep[parent];
    }
    ChainOn(rep0, rep[..], i, me);
    if parent != i {
      JumpOne(edges, rep0, rep[..], i, i);
      rep[i] := parent;
      var j := 0;
      while j < |chain|
        invariant 0 <= j <= |chain| && Jumping(rep0, rep[..], i + 1)
      {
        JumpOne(edges, rep0, rep[..], i + 1, chain[j]);
        rep[chain[j]] := parent;
        j := j + 1;
      }
    } else {
      JumpOne(edges, rep0, rep[..], i, i);
      assert rep[..][i := r] == rep[..];
    }
  }

  method JumpAll(rep: array<nat>, ghost edges: Edges, maxChain: nat)
    requires Sound(edges, rep[..])
    modifies rep
    ensures Jumping(old(rep[..]), rep[..], rep.Length)
  {
    hide Sound, Jumping, Downward;
    ghost var rep0 := rep[..];
    NothingJumped(edges, rep0);
    var i := 0;
    while i < rep.Length
      invariant 0 <= i <= rep.Length && Jumping(rep0, rep[..], i)
    {
      Jump(rep, i, edges, rep0, maxChain);
      i := i + 1;
    }
  }

  lemma NothingJumped(edges: Edges, rep: seq<nat>)
    requires Sound(edges, rep)
    ensures Jumping(rep, rep, 0)
  {}

  // ---------------------------------------------------------------------------
  // Blocks of the edge list

  /** The edge list: vertex pairs one after the other. */
  function EdgesOf(e: seq<nat>): Edges { set i: nat | i < |e| && 2 * i + 1 < |e| :: (e[2 * i], e[2 * i + 1]) }

  function BlockCount(nE: nat, nV: nat): nat
    requires nV > 0
  {
    (nE / nV) / 4
  }

  /** The size of a block, where there is one. */
  function BlockSize(nE: nat, nV: nat): nat
    requires nV > 0
  {
    if BlockCount(nE, nV) == 0 then 0 else nE / BlockCount(nE, nV)
  }

  /** Blocks have n / blocks entries; the last one goes on to the end. */
  function BlockStart(size: nat, b: nat): nat { b * size }

  function BlockEnd(n: nat, blocks: nat, size: nat, b: nat): nat {
    if b + 1 == blocks then n else BlockStart(size, b) + size
  }

  /** Block b reads a pair at i: every other entry from its start. */
  predicate ReadBy(n: nat, blocks: nat, size: nat, b: nat, i: nat) {
    b < blocks && BlockStart(size, b) <= i < BlockEnd(n, blocks, size, b) && (i - BlockStart(size, b)) % 2 == 0
  }

  ghost predicate StartsPair(n: nat, blocks: nat, size: nat, i: nat) {
    exists b: nat :: ReadBy(n, blocks, size, b, i)
  }

  /** Where pairs are read. */
  ghost function PairStarts(n: nat, blocks: nat, size: nat): set<nat> {
    set i: nat | i < n && StartsPair(n, blocks, size, i)
  }

  ghost function PairsAt(e: seq<nat>, at: set<nat>): Edges {
    set i: nat | i in at && i + 1 < |e| :: (e[i], e[i + 1])
  }

  predicate Within(n: nat, i: nat) { i + 1 < n }

  /** Both entries of every pair are in the list. */
  ghost predicate Inside(n: nat, at: set<nat>) {
    forall i: nat :: i in at ==> Within(n, i)
  }

  predicate Blocks(n: nat, blocks: nat, size: nat) { blocks > 0 && size > 0 && size == n / blocks && n % 2 == 0 }

  lemma {:induction false} Starts(size: nat, b: nat, c: nat)
    requires b < c
    ensures BlockStart(size, b + 1) == BlockStart(size, b) + size <= BlockStart(size, c)
  {
    assert BlockStart(size, b + 1) == BlockStart(size, b) + size;
    if b + 1 < c {
      Starts(size, b, c - 1);
      assert BlockStart(size, c) == BlockStart(size, c - 1) + size;
    }
  }

  lemma LastBlock(n: nat, blocks: nat, size: nat)
    requires Blocks(n, blocks, size)
    ensures BlockStart(size, blocks) <= n && BlockStart(size, 0) == 0
  {}

  /** There is no block at all - and the block size divides by zero - exactly for fewer than two edges per vertex. */
  lemma NoBlocks(nE: nat, nV: nat)
    requires nV > 0
    ensures BlockCount(nE, nV) == 0 <==> nE < 4 * nV
    ensures BlockCount(nE, nV) <= nE
  {
    var q := nE / nV;
    QuotientBounds(nE, nV, q, nE % nV);
  }

  lemma QuotientBounds(n: nat, v: nat, q: nat, r: nat)
    requires n == v * q + r && r < v
    ensures q <= n && (q >= 4 <==> n >= 4 * v)
  {
    assert v * q == q + (v - 1) * q;
    if q >= 4 {
      assert v * q == v * 4 + v * (q - 4);
    } else {
      assert v * q == v * 3 - v * (3 - q);
    }
  }

  lemma SomeEntry(n: nat, blocks: nat)
    requires 0 < blocks <= n
    ensures n / blocks > 0
  {}

  lemma NoStart(size: nat)
    ensures BlockStart(size, 0) == 0
  {}

  lemma SumParity(x: nat, y: nat)
    ensures (x + y) % 2 == if x % 2 == y % 2 then 0 else 1
  {}

  lemma {:induction false} Parity(b: nat, size: nat)
    ensures BlockStart(size, b) % 2 == if size % 2 == 0 then 0 else b % 2
  {
    hide BlockStart;
    if b == 0 {
      NoStart(size);
    } else {
      Parity(b - 1, size);
      Starts(size, b - 1, b);
      SumParity(BlockStart(size, b - 1), size);
      SumParity(b - 1, 1);
    }
  }

  lemma BlockInside(n: nat, blocks: nat, size: nat, b: nat)
    requires Blocks(n, blocks, size) && b < blocks
    ensures BlockStart(size, b) < BlockEnd(n, blocks, size, b) <= n && BlockStart(size, b + 1) == BlockStart(size, b) + size <= n
    ensures b + 1 < blocks ==> BlockEnd(n, blocks, size, b) < n
  {
    hide BlockStart;
    LastBlock(n, blocks, size);
    Starts(size, b, blocks);
    if b + 1 < blocks {
      Starts(size, b + 1, blocks);
    }
  }

  /** Every entry belongs to one block. */
  lemma {:induction false} BlockOf(n: nat, blocks: nat, size: nat, i: nat, below: nat) returns (b: nat)
    requires Blocks(n, blocks, size) && i < n && below <= blocks && (below == blocks || i < BlockStart(size, below))
    ensures b < blocks && BlockStart(size, b) <= i < BlockEnd(n, blocks, size, b)
    decreases below
  {
    hide BlockStart;
    LastBlock(n, blocks, size);
    if below > 0 {
      Starts(size, below - 1, below);
      if i >= BlockStart(size, below - 1) {
        b := below - 1;
      } else {
        b := BlockOf(n, blocks, size, i, below - 1);
      }
    }
  }

  lemma OneBlock(n: nat, blocks: nat, size: nat, b: nat, c: nat, i: nat)
    requires Blocks(n, blocks, size) && b < blocks && c < blocks
    requires BlockStart(size, b) <= i < BlockEnd(n, blocks, size, b) && BlockStart(size, c) <= i < BlockEnd(n, blocks, size, c)
    ensures b == c
  {
    hide BlockStart;
    if b < c {
      Starts(size, b, c);
    } else if c < b {
      Starts(size, c, b);
    }
  }

  lemma StartsInBlock(n: nat, blocks: nat, size: nat, b: nat)
    requires Blocks(n, blocks, size) && b < blocks
    ensures forall i: nat :: BlockStart(size, b) <= i < BlockEnd(n, blocks, size, b) ==>
              (i in PairStarts(n, blocks, size) <==> (i - BlockStart(size, b)) % 2 == 0)
  {
    hide BlockEnd, BlockStart;
    BlockInside(n, blocks, size, b);
    forall i: nat | BlockStart(size, b) <= i < BlockEnd(n, blocks, size, b)
      ensures i in PairStarts(n, blocks, size) <==> (i - BlockStart(size, b)) % 2 == 0
    {
      if i in PairStarts(n, blocks, size) {
        var c: nat :| ReadBy(n, blocks, size, c, i);
        OneBlock(n, blocks, size, b, c, i);
      } else {
        assert !ReadBy(n, blocks, size, b, i);
      }
    }
  }

  /** Blocks of even size read at the even entries, blocks of odd size at those of their number's parity. */
  lemma StartParity(n: nat, blocks: nat, size: nat, i: nat) returns (b: nat)
    requires Blocks(n, blocks, size) && i < n
    ensures b < blocks && BlockStart(size, b) <= i < BlockEnd(n, blocks, size, b)
    ensures i in PairStarts(n, blocks, size) <==> i % 2 == if size % 2 == 0 then 0 else b % 2
  {
    hide PairStarts, BlockEnd, BlockStart;
    b := BlockOf(n, blocks, size, i, blocks);
    StartsInBlock(n, blocks, size, b);
    Parity(b, size);
    EvenDistance(i, BlockStart(size, b));
  }

  lemma EvenDistance(i: nat, start: nat)
    ensures (i - start) % 2 == 0 <==> i % 2 == start % 2
  {}

  /** Nothing beyond the list is read, exactly if the last block starts at an even entry. */
  lemma ReadsInside(n: nat, blocks: nat, size: nat)
    requires Blocks(n, blocks, size)
    ensures Inside(n, PairStarts(n, blocks, size)) <==> size % 2 == 0 || blocks % 2 == 1
  {
    hide PairStarts, BlockStart, Blocks;
    var at := PairStarts(n, blocks, size);
    Reblock(n, blocks, size);
    assert forall i :: i in at ==> i < n by {
      StartsBelow(n, blocks, size);
    }
    BlockInside(n, blocks, size, blocks - 1);
    if size % 2 == 0 || blocks % 2 == 1 {
      forall i | i in at
        ensures i + 1 < n
      {
        var b := StartParity(n, blocks, size, i);
        BlockInside(n, blocks, size, b);
      }
    } else {
      var b := StartParity(n, blocks, size, n - 1);
      OneBlock(n, blocks, size, b, blocks - 1, n - 1);
      assert n - 1 in at;
    }
  }

  lemma Reblock(n: nat, blocks: nat, size: nat)
    requires Blocks(n, blocks, size)
    ensures n % 2 == 0 && blocks > 0 && size > 0 && (blocks == 1 ==> size == n)
  {}

  lemma StartsBelow(n: nat, blocks: nat, size: nat)
    ensures forall i :: i in PairStarts(n, blocks, size) ==> i < n
  {}

  /** Blocks of even size read the edges of the list. */
  lemma EvenBlocks(e: seq<nat>, blocks: nat, size: nat)
    requires Blocks(|e|, blocks, size) && size % 2 == 0
    ensures PairsAt(e, PairStarts(|e|, blocks, size)) == EdgesOf(e)
  {
    hide PairStarts, Blocks;
    var at := PairStarts(|e|, blocks, size);
    StartsBelow(|e|, blocks, size);
    forall a: nat, b: nat
      ensures (a, b) in PairsAt(e, at) <==> (a, b) in EdgesOf(e)
    {
      if (a, b) in PairsAt(e, at) {
        var i: nat :| i in at && i + 1 < |e| && (a, b) == (e[i], e[i + 1]);
        var c := StartParity(|e|, blocks, size, i);
        assert i == 2 * (i / 2);
      }
      if (a, b) in EdgesOf(e) {
        var k: nat :| 2 * k + 1 < |e| && (a, b) == (e[2 * k], e[2 * k + 1]);
        var c := StartParity(|e|, blocks, size, 2 * k);
        assert 2 * k in at;
      }
    }
  }

  ghost predicate SameComponents(e: seq<nat>, at: set<nat>) {
    forall a: nat, b: nat :: Connected(PairsAt(e, at), a, b) <==> Connected(EdgesOf(e), a, b)
  }

  ghost predicate EdgeList(e: seq<nat>, n: nat, nV: nat) {
    |e| == n && forall v :: v in e ==> v < nV
  }

  /** An edge list that blocks of odd size misread: loops at 0, then loops at 1. */
  function Loops(n: nat, size: nat): seq<nat> { seq(n, i => if i <= size then 0 else 1) }

  lemma OddBlocksMisread(n: nat, blocks: nat, size: nat)
    requires Blocks(n, blocks, size) && size % 2 == 1 && Inside(n, PairStarts(n, blocks, size))
    ensures !SameComponents(Loops(n, size), PairStarts(n, blocks, size))
  {
    hide PairStarts, Connected;
    var e, at := Loops(n, size), PairStarts(n, blocks, size);
    if blocks == 1 {
      assert false;
    } else {
      BlockInside(n, blocks, size, 1);
      StartsInBlock(n, blocks, size, 1);
      assert size in at;
      assert (e[size], e[size + 1]) in PairsAt(e, at);
      EdgeConnects(PairsAt(e, at), 0, 1);
      LoopsApart(n, size);
    }
  }

  lemma LoopsApart(n: nat, size: nat)
    requires size % 2 == 1
    ensures !Connected(EdgesOf(Loops(n, size)), 0, 1)
  {
    var e := Loops(n, size);
    if p: seq<nat> :| Path(EdgesOf(e), p, 0, 1) {
      assert Settled(EdgesOf(e), [0, 1]);
      SettledOnPath(EdgesOf(e), [0, 1], p, 0, 1);
    }
  }

  /** The pairs read have the components of the graph, for every edge list of n entries, exactly for blocks of even size. */
  lemma BlocksAligned(n: nat, blocks: nat, size: nat, nV: nat)
    requires Blocks(n, blocks, size) && nV >= 2 && Inside(n, PairStarts(n, blocks, size))
    ensures (forall e :: EdgeList(e, n, nV) ==> SameComponents(e, PairStarts(n, blocks, size))) <==> size % 2 == 0
  {
    hide PairStarts, Connected;
    if size % 2 == 0 {
      forall e | EdgeList(e, n, nV)
        ensures SameComponents(e, PairStarts(n, blocks, size))
      {
        EvenBlocks(e, blocks, size);
      }
    } else {
      OddBlocksMisread(n, blocks, size);
      assert EdgeList(Loops(n, size), n, nV);
    }
  }

  // ---------------------------------------------------------------------------
  // Hooking

  ghost predicate EdgeAgrees(e: seq<nat>, rep: seq<nat>, i: nat) {
    i + 1 < |e| && e[i] < |rep| && e[i + 1] < |rep| && rep[e[i]] == rep[e[i + 1]]
  }

  /** The pairs read below `to` agree. */
  ghost predicate Checked(e: seq<nat>, at: set<nat>, rep: seq<nat>, to: nat) {
    forall i :: i in at && i < to ==> EdgeAgrees(e, rep, i)
  }

  /** A whole jumping pass keeps labels sound, lowers none of the sums' promises and keeps pairs that agree in agreement. */
  lemma JumpKeeps(edges: Edges, e: seq<nat>, at: set<nat>, rep0: seq<nat>, rep: seq<nat>, to: nat)
    requires Sound(edges, rep0) && Jumping(rep0, rep, |rep0|)
    ensures Sound(edges, rep) && Sum(rep) <= Sum(rep0)
    ensures Checked(e, at, rep0, to) ==> Checked(e, at, rep, to)
  {
    forall v: nat | v < |rep|
      ensures rep[v] <= v && Connected(edges, v, rep[v])
    {
      RootFacts(edges, rep0, v);
    }
    SumDrops(rep0, rep);
    if Checked(e, at, rep0, to) {
      forall i | i in at && i < to
        ensures EdgeAgrees(e, rep, i)
      {
        assert EdgeAgrees(e, rep0, i);
        assert Root(rep0, e[i]) == Root(rep0, rep0[e[i]]) == Root(rep0, e[i + 1]);
      }
    }
  }

  lemma SumOne(rep: seq<nat>, v: nat, r: nat)
    requires v < |rep| && r < rep[v]
    ensures Sum(rep[v := r]) < Sum(rep)
  {
    SumDrops(rep, rep[v := r]);
  }

  /** Hooking one end of an edge to the smaller label at the other end. */
  lemma Hook(edges: Edges, rep: seq<nat>, a: nat, b: nat)
    requires Sound(edges, rep) && a < |rep| && b < |rep| && Adjacent(edges, a, b) && rep[a] < rep[b]
    ensures Sound(edges, rep[b := rep[a]]) && Sum(rep[b := rep[a]]) < Sum(rep)
  {
    EdgeConnects(edges, a, b);
    ConnectedOn(edges, b, a, rep[a]);
    SumOne(rep, b, rep[a]);
  }

  method HookBlock(e: seq<nat>, ghost at: set<nat>, rep: array<nat>, lb: nat, ub: nat) returns (changes: nat)
    requires lb <= ub <= |e| && Inside(|e|, at) && forall v :: v in e ==> v < rep.Length
    requires forall i: nat :: lb <= i < ub ==> (i in at <==> (i - lb) % 2 == 0)
    requires Sound(PairsAt(e, at), rep[..])
    modifies rep
    ensures Sound(PairsAt(e, at), rep[..]) && Sum(rep[..]) + changes <= Sum(old(rep[..]))
    ensures changes == 0 ==> rep[..] == old(rep[..]) && (Checked(e, at, rep[..], lb) ==> Checked(e, at, rep[..], ub))
  {
    hide Sound, Sum, PairsAt;
    changes := 0;
    var i := lb;
    while i < ub
      invariant lb <= i && (i - lb) % 2 == 0
      invariant Sound(PairsAt(e, at), rep[..]) && Sum(rep[..]) + changes <= Sum(old(rep[..]))
      invariant changes == 0 ==> rep[..] == old(rep[..])
      invariant changes == 0 && Checked(e, at, old(rep[..]), lb) ==> Checked(e, at, rep[..], if i < ub then i else ub)
    {
      assert i in at;
      var from, to := e[i], e[i + 1];
      assert e[i] in e && e[i + 1] in e;
      var fromRep, toRep := rep[from], rep[to];
      PairAt(e, at, i);
      if fromRep < toRep {
        Hook(PairsAt(e, at), rep[..], from, to);
        rep[to] := fromRep;
        changes := changes + 1;
      } else if toRep < fromRep {
        Hook(PairsAt(e, at), rep[..], to, from);
        rep[from] := toRep;
        changes := changes + 1;
      } else {
        assert EdgeAgrees(e, rep[..], i);
      }
      i := i + 2;
    }
  }

  lemma PairAt(e: seq<nat>, at: set<nat>, i: nat)
    requires i in at && i + 1 < |e|
    ensures Adjacent(PairsAt(e, at), e[i], e[i + 1]) && Adjacent(PairsAt(e, at), e[i + 1], e[i])
  {
    assert (e[i], e[i + 1]) in PairsAt(e, at);
  }

  lemma AllChecked(e: seq<nat>, at: set<nat>, rep: seq<nat>)
    requires Checked(e, at, rep, |e|)
    ensures Settled(PairsAt(e, at), rep)
  {
    forall a: nat, b: nat | (a, b) in PairsAt(e, at)
      ensures a < |rep| && b < |rep| && rep[a] == rep[b]
    {
      var i :| i in at && i + 1 < |e| && (a, b) == (e[i], e[i + 1]);
      assert EdgeAgrees(e, rep, i);
    }
  }

  /** One pass over all blocks of edges, each followed by a jumping pass. */
  method Pass(e: seq<nat>, rep: array<nat>, nBlocks: nat, blockSize: nat, maxChain: nat) returns (changes: nat)
    requires Blocks(|e|, nBlocks, blockSize) && forall v :: v in e ==> v < rep.Length
    requires Inside(|e|, PairStarts(|e|, nBlocks, blockSize))
    requires Sound(PairsAt(e, PairStarts(|e|, nBlocks, blockSize)), rep[..])
    modifies rep
    ensures Sound(PairsAt(e, PairStarts(|e|, nBlocks, blockSize)), rep[..])
    ensures Sum(rep[..]) + changes <= Sum(old(rep[..]))
    ensures changes == 0 ==> Checked(e, PairStarts(|e|, nBlocks, blockSize), rep[..], |e|)
  {
    hide Sound, Sum, PairsAt, PairStarts, Checked, Jumping, Inside, BlockStart, Blocks;
    Reblock(|e|, nBlocks, blockSize);
    LastBlock(|e|, nBlocks, blockSize);
    ghost var at := PairStarts(|e|, nBlocks, blockSize);
    changes := 0;
    NothingChecked(e, at, rep[..]);
    var b, lb := 0, 0;
    while b < nBlocks
      invariant 0 <= b <= nBlocks && lb == (if b == nBlocks then |e| else BlockStart(blockSize, b))
      invariant Sound(PairsAt(e, at), rep[..]) && Sum(rep[..]) + changes <= Sum(old(rep[..]))
      invariant changes == 0 ==> Checked(e, at, rep[..], lb)
    {
      BlockInside(|e|, nBlocks, blockSize, b);
      StartsInBlock(|e|, nBlocks, blockSize, b);
      var ub := lb + blockSize;
      if b == nBlocks - 1 {
        ub := |e|;
      }
      var n := HookBlock(e, at, rep, lb, ub);
      changes := changes + n;
      ghost var hooked := rep[..];
      JumpAll(rep, PairsAt(e, at), maxChain);
      JumpKeeps(PairsAt(e, at), e, at, hooked, rep[..], ub);
      lb := ub;
      b := b + 1;
    }
  }

  /** How the program ends: it traps, it reads beyond the edge list, or it labels the vertices. */
  datatype Outcome = DividesByZero | ReadsOutside | Labelled

  /**
    * The main loop.  The block count divides by zero on graphs with fewer than two
    * edges per vertex, and blocks of odd size, if even in number, lead beyond the
    * edge list.  Otherwise it ends with the least vertex of its component as every
    * vertex's label - in the graph of the pairs that are read, which for blocks of
    * even size are the edges.
    */
  method ConnectedComponents(e: seq<nat>, nV: nat, maxChain: nat) returns (out: Outcome, rep: array<nat>)
    requires nV > 0 && |e| % 2 == 0 && forall v :: v in e ==> v < nV
    ensures rep.Length == nV
    ensures out.DividesByZero? <==> |e| < 4 * nV
    ensures out.ReadsOutside? <==> |e| >= 4 * nV && BlockSize(|e|, nV) % 2 == 1 && BlockCount(|e|, nV) % 2 == 0
    ensures out.Labelled? ==> Least(PairsAt(e, PairStarts(|e|, BlockCount(|e|, nV), BlockSize(|e|, nV))), rep[..])
    ensures out.Labelled? && BlockSize(|e|, nV) % 2 == 0 ==> Least(EdgesOf(e), rep[..])
  {
    hide Sound, Sum, EdgesOf, PairsAt, PairStarts, Checked, Least, Settled, BlockCount, Inside;
    rep := new nat[nV](i => i);
    NoBlocks(|e|, nV);
    var nBlocks := BlockCount(|e|, nV);
    if nBlocks == 0 {
      return DividesByZero, rep;
    }
    SomeEntry(|e|, nBlocks);
    var blockSize := |e| / nBlocks;
    assert blockSize == BlockSize(|e|, nV);
    ReadsInside(|e|, nBlocks, blockSize);
    if blockSize % 2 == 1 && nBlocks % 2 == 0 {
      return ReadsOutside, rep;
    }
    ghost var at := PairStarts(|e|, nBlocks, blockSize);
    EveryoneAlone(PairsAt(e, at), rep[..]);
    var changes := 1;
    while changes != 0
      invariant Sound(PairsAt(e, at), rep[..])
      invariant changes == 0 ==> Checked(e, at, rep[..], |e|)
      decreases Sum(rep[..]) + if changes != 0 then 1 else 0
    {
      changes := Pass(e, rep, nBlocks, blockSize, maxChain);
    }
    AllChecked(e, at, rep[..]);
    SettledIsLeast(PairsAt(e, at), rep[..]);
    if blockSize % 2 == 0 {
      EvenBlocks(e, nBlocks, blockSize);
    }
    out := Labelled;
  }

  lemma NothingChecked(e: seq<nat>, at: set<nat>, rep: seq<nat>)
    ensures Checked(e, at, rep, 0)
  {}
}

/** GRAPH/CONN_COMP/src/conn_comp.c: every pass gives each node the least label around it, nodes in parallel. */
module LabelPropagation {
  import opened Graphs

  /** The neighbours of node i are to[lb[i]], ..., to[ub[i] - 1]. */
  datatype Graph = Graph(lb: seq<nat>, ub: seq<nat>, to: seq<nat>)
  {
    ghost predicate Valid() {
      && |lb| == |ub|
      && (forall i :: 0 <= i < |ub| ==> lb[i] < ub[i] ==> ub[i] <= |to|)
      && (forall j :: 0 <= j < |to| ==> to[j] < |lb|)
    }

    predicate Lists(i: nat, j: nat) {
      i < |lb| == |ub| && lb[i] <= j < ub[i] && j < |to|
    }

    ghost function Pairs(): Edges {
      set i: nat, j: nat | i < |lb| && j < |to| && Lists(i, j) :: (i, to[j])
    }

    /** Every edge is listed at both of its ends. */
    ghost predicate Symmetric() {
      forall a: nat, b: nat :: (a, b) in Pairs() ==> (b, a) in Pairs()
    }
  }

  /** One node's work in a pass: not begun, having read neighbours below j, or written back. */
  datatype Pc = Waiting | Scanning(j: nat, minval: nat) | Finished

  datatype State = State(lbl: seq<nat>, pcs: seq<Pc>, changed: bool)

  function Min(a: nat, b: nat): nat { if a < b then a else b }

  /** The next read or write of node i. */
  function Step(g: Graph, s: State, i: nat): State
    requires g.Valid() && |s.lbl| == |s.pcs| == |g.lb| && i < |s.pcs| && s.pcs[i] != Finished
    requires forall k :: 0 <= k < |s.pcs| && s.pcs[k].Scanning? ==> g.lb[k] < g.ub[k]
  {
    match s.pcs[i]
    case Waiting =>
      s.(pcs := s.pcs[i := if g.ub[i] <= g.lb[i] then Finished else Scanning(g.lb[i], s.lbl[i])])
    case Scanning(j, minval) =>
      if j < g.ub[i] then s.(pcs := s.pcs[i := Scanning(j + 1, Min(minval, s.lbl[g.to[j]]))])
      else if s.lbl[i] != minval then State(s.lbl[i := minval], s.pcs[i := Finished], true)
      else s.(pcs := s.pcs[i := Finished])
    case Finished => s
  }

  /** What is known of node i, in a pass that began with the labels lbl0. */
  ghost predicate NodeOk(g: Graph, lbl0: seq<nat>, s: State, i: nat)
    requires g.Valid() && |lbl0| == |s.lbl| == |s.pcs| == |g.lb| && i < |s.pcs|
  {
    match s.pcs[i]
    case Waiting => s.lbl[i] == lbl0[i]
    case Scanning(j, minval) =>
      && g.lb[i] < g.ub[i] && g.lb[i] <= j <= g.ub[i]
      && s.lbl[i] == lbl0[i] && minval <= s.lbl[i] && Connected(g.Pairs(), i, minval)
      && (!s.changed ==> forall k: nat :: g.lb[i] <= k < j ==> minval <= lbl0[g.to[k]])
    case Finished =>
      s.lbl[i] <= lbl0[i]
      && (!s.changed ==> forall k: nat :: g.Lists(i, k) ==> lbl0[i] <= lbl0[g.to[k]])
  }

  ghost predicate Inv(g: Graph, lbl0: seq<nat>, s: State) {
    && g.Valid() && |lbl0| == |s.lbl| == |s.pcs| == |g.lb|
    && Sound(g.Pairs(), s.lbl)
    && (if s.changed then Sum(s.lbl) < Sum(lbl0) else s.lbl == lbl0)
    && (forall i :: 0 <= i < |s.pcs| ==> NodeOk(g, lbl0, s, i))
  }

  lemma BeginPass(g: Graph, lbl: seq<nat>)
    requires g.Valid() && |lbl| == |g.lb| && Sound(g.Pairs(), lbl)
    ensures Inv(g, lbl, State(lbl, seq(|lbl|, i => Waiting), false))
  {}

  lemma NeighbourConnects(g: Graph, lbl: seq<nat>, i: nat, j: nat)
    requires g.Valid() && |lbl| == |g.lb| && Sound(g.Pairs(), lbl) && g.Lists(i, j)
    ensures Connected(g.Pairs(), i, lbl[g.to[j]])
  {
    hide Connected;
    assert (i, g.to[j]) in g.Pairs();
    EdgeConnects(g.Pairs(), i, g.to[j]);
    ConnectedOn(g.Pairs(), i, g.to[j], lbl[g.to[j]]);
  }

  lemma StepInv(g: Graph, lbl0: seq<nat>, s: State, i: nat)
    requires Inv(g, lbl0, s) && i < |s.pcs| && s.pcs[i] != Finished
    ensures forall k :: 0 <= k < |s.pcs| && s.pcs[k].Scanning? ==> g.lb[k] < g.ub[k]
    ensures Inv(g, lbl0, Step(g, s, i))
  {
    hide Connected, Sum, Graph.Pairs;
    assert forall k :: 0 <= k < |s.pcs| && s.pcs[k].Scanning? ==> NodeOk(g, lbl0, s, k);
    assert NodeOk(g, lbl0, s, i);
    var s' := Step(g, s, i);
    match s.pcs[i] {
      case Waiting =>
        assert Connected(g.Pairs(), i, s.lbl[i]);
      case Scanning(j, minval) =>
        if j < g.ub[i] {
          NeighbourConnects(g, s.lbl, i, j);
        } else if s.lbl[i] != minval {
          SumDrops(s.lbl, s'.lbl);
        }
      case Finished =>
    }
    forall k | 0 <= k < |s'.pcs|
      ensures NodeOk(g, lbl0, s', k)
    {
      assert NodeOk(g, lbl0, s, k);
    }
  }

  /** Steps node i still has to make. */
  function Left(g: Graph, pc: Pc, i: nat): nat
    requires i < |g.lb| == |g.ub|
  {
    match pc
    case Waiting => if g.lb[i] < g.ub[i] then g.ub[i] - g.lb[i] + 2 else 1
    case Scanning(j, _) => if j < g.ub[i] then g.ub[i] - j + 1 else 1
    case Finished => 0
  }

  function Work(g: Graph, pcs: seq<Pc>): nat
    requires |pcs| <= |g.lb| == |g.ub|
  {
    if pcs == [] then 0 else Work(g, pcs[..|pcs| - 1]) + Left(g, pcs[|pcs| - 1], |pcs| - 1)
  }

  lemma {:induction false} WorkDrops(g: Graph, pcs: seq<Pc>, i: nat, pc: Pc)
    requires i < |pcs| <= |g.lb| == |g.ub| && Left(g, pc, i) < Left(g, pcs[i], i)
    ensures Work(g, pcs[i := pc]) < Work(g, pcs)
    decreases |pcs|
  {
    var n := |pcs| - 1;
    if i < n {
      WorkDrops(g, pcs[..n], i, pc);
      assert pcs[i := pc][..n] == pcs[..n][i := pc];
    } else {
      assert pcs[i := pc][..n] == pcs[..n];
    }
  }

  lemma StepWorks(g: Graph, lbl0: seq<nat>, s: State, i: nat)
    requires Inv(g, lbl0, s) && i < |s.pcs| && s.pcs[i] != Finished
    requires forall k :: 0 <= k < |s.pcs| && s.pcs[k].Scanning? ==> g.lb[k] < g.ub[k]
    ensures Work(g, Step(g, s, i).pcs) < Work(g, s.pcs)
  {
    assert NodeOk(g, lbl0, s, i);
    WorkDrops(g, s.pcs, i, Step(g, s, i).pcs[i]);
  }

  /** A pass: as long as somebody is not finished, anybody who is not may take the next step. */
  method Pass(g: Graph, lbl: seq<nat>) returns (lbl': seq<nat>, changed: bool)
    requires g.Valid() && |lbl| == |g.lb| && Sound(g.Pairs(), lbl)
    ensures |lbl'| == |lbl| && Sound(g.Pairs(), lbl')
    ensures changed ==> Sum(lbl') < Sum(lbl)
    ensures !changed ==> lbl' == lbl && forall i: nat, k: nat :: g.Lists(i, k) ==> lbl[i] <= lbl[g.to[k]]
  {
    hide Inv, Sound, Sum, Work, NodeOk, Step, Graph.Lists, Graph.Pairs;
    var s := State(lbl, seq(|lbl|, i => Waiting), false);
    BeginPass(g, lbl);
    Sizes(g, lbl, s);
    while exists i :: 0 <= i < |s.pcs| && s.pcs[i] != Finished
      invariant Inv(g, lbl, s) && |s.lbl| == |s.pcs| == |lbl|
      decreases Work(g, s.pcs)
    {
      var i: nat :| i < |s.pcs| && s.pcs[i] != Finished;
      Sizes(g, lbl, s);
      StepInv(g, lbl, s, i);
      StepWorks(g, lbl, s, i);
      s := Step(g, s, i);
      Sizes(g, lbl, s);
    }
    PassOver(g, lbl, s);
    lbl', changed := s.lbl, s.changed;
  }

  lemma Sizes(g: Graph, lbl0: seq<nat>, s: State)
    requires Inv(g, lbl0, s)
    ensures g.Valid() && |lbl0| == |s.lbl| == |s.pcs| == |g.lb| == |g.ub|
  {}

  lemma PassOver(g: Graph, lbl0: seq<nat>, s: State)
    requires Inv(g, lbl0, s) && forall i :: 0 <= i < |s.pcs| ==> s.pcs[i] == Finished
    ensures Sound(g.Pairs(), s.lbl) && (s.changed ==> Sum(s.lbl) < Sum(lbl0))
    ensures !s.changed ==> s.lbl == lbl0 && forall i: nat, k: nat :: g.Lists(i, k) ==> lbl0[i] <= lbl0[g.to[k]]
  {
    if !s.changed {
      forall i: nat, k: nat | g.Lists(i, k)
        ensures lbl0[i] <= lbl0[g.to[k]]
      {
        assert NodeOk(g, lbl0, s, i);
      }
    }
  }

  lemma SettledWhenQuiet(g: Graph, lbl: seq<nat>)
    requires g.Valid() && g.Symmetric() && |lbl| == |g.lb|
    requires forall i: nat, k: nat :: g.Lists(i, k) ==> lbl[i] <= lbl[g.to[k]]
    ensures Settled(g.Pairs(), lbl)
  {
    forall a: nat, b: nat | (a, b) in g.Pairs()
      ensures a < |lbl| && b < |lbl| && lbl[a] == lbl[b]
    {
      var k: nat :| g.Lists(a, k) && b == g.to[k];
      assert (b, a) in g.Pairs();
      var l: nat :| g.Lists(b, l) && a == g.to[l];
    }
  }

  /** The main loop: for a symmetric graph every node ends with the least node of its component. */
  method ConnComp(g: Graph) returns (lbl: seq<nat>)
    requires g.Valid() && g.Symmetric()
    ensures |lbl| == |g.lb| && Least(g.Pairs(), lbl)
  {
    hide Sound, Sum, Least, Settled, Graph.Pairs, Graph.Symmetric;
    lbl := seq(|g.lb|, i => i);
    EveryoneAlone(g.Pairs(), lbl);
    var changed := true;
    while changed
      invariant |lbl| == |g.lb| && Sound(g.Pairs(), lbl)
      invariant !changed ==> forall i: nat, k: nat :: g.Lists(i, k) ==> lbl[i] <= lbl[g.to[k]]
      decreases Sum(lbl) + if changed then 1 else 0
    {
      lbl, changed := Pass(g, lbl);
    }
    SettledWhenQuiet(g, lbl);
    SettledIsLeast(g.Pairs(), lbl);
  }
}
