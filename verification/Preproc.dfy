/**
  * From raw feature values to a presorted, rank-encoded column and its inverse
  * (DT/src/preproc_j.c).
  */
module Preproc {
  import opened Columns

  datatype Key = Key(xval: real, idx: nat, g: nat)

  /** order is a permutation of 0..n-1. */
  ghost predicate Permutation(order: seq<nat>, n: nat) {
    && |order| == n
    && (forall i :: 0 <= i < n ==> order[i] < n)
    && (forall i, j :: 0 <= i < j < n ==> order[i] != order[j])
    && (forall r :: 0 <= r < n ==> r in order)
  }

  ghost predicate SortedKeys(c: seq<Key>) {
    forall i, j :: 0 <= i < j < |c| ==> c[i].xval <= c[j].xval
  }

  lemma {:induction false} SmallestKey(c: seq<Key>, rest: set<nat>) returns (i: nat)
    requires rest != {} && forall r :: r in rest ==> r < |c|
    ensures i in rest && forall r :: r in rest ==> c[i].xval <= c[r].xval
    decreases |rest|
  {
    i :| i in rest;
    if rest != {i} {
      var k := SmallestKey(c, rest - {i});
      if c[k].xval < c[i].xval {
        i := k;
      }
      assert forall r :: r in rest ==> r == i || r == k || r in rest - {i} || c[k].xval <= c[r].xval;
    }
  }

  /** The first |order| places hold the smallest keys, in order; the others are still to be placed. */
  ghost predicate Selecting(keys: seq<Key>, c: seq<Key>, order: seq<nat>, rest: set<nat>) {
    && |order| <= |keys| == |c|
    && (forall r :: r in rest ==> r < |keys|)
    && (forall r: nat :: r < |keys| ==> (r in rest <==> r !in order))
    && (forall k :: 0 <= k < |order| ==> order[k] < |keys| && c[k] == keys[order[k]])
    && (forall k, l :: 0 <= k < l < |order| ==> order[k] != order[l])
    && (forall k, l :: 0 <= k < l < |order| ==> c[k].xval <= c[l].xval)
    && (forall k, r :: 0 <= k < |order| && r in rest ==> c[k].xval <= keys[r].xval)
  }

  lemma SelectOn(keys: seq<Key>, c: seq<Key>, order: seq<nat>, rest: set<nat>, next: nat)
    requires Selecting(keys, c, order, rest) && next in rest
    requires forall r :: r in rest ==> keys[next].xval <= keys[r].xval
    ensures |order| < |c|
    ensures Selecting(keys, c[|order| := keys[next]], order + [next], rest - {next})
  {
    Pigeonhole(order + [next], 0, |c|);
  }

  /**
    * Stands for the C library's qsort with sortfn: it may leave keys of equal
    * value in any order, and nothing below depends on which one it picks.
    */
  method QSortKeys(c: array<Key>) returns (ghost order: seq<nat>)
    modifies c
    ensures Permutation(order, c.Length)
    ensures forall i :: 0 <= i < c.Length ==> c[i] == old(c[..])[order[i]]
    ensures SortedKeys(c[..])
  {
    hide Permutation, SortedKeys, Selecting;
    var keys := c[..];
    var rest := Upto(c.Length);
    order := [];
    var i := 0;
    SelectNone(keys);
    while rest != {}
      invariant 0 <= i == |order|
      invariant Selecting(keys, c[..], order, rest)
      decreases rest
    {
      SelectRange(keys, c[..], order, rest);
      ghost var least := SmallestKey(keys, rest);
      var next: nat :| next in rest && forall r :: r in rest ==> keys[next].xval <= keys[r].xval;
      SelectOn(keys, c[..], order, rest, next);
      c[i] := keys[next];
      order := order + [next];
      rest := rest - {next};
      i := i + 1;
    }
    AllSelected(keys, c[..], order);
  }

  function Upto(n: nat): (s: set<nat>)
    ensures forall r: nat :: r in s <==> r < n
  {
    if n == 0 then {} else Upto(n - 1) + {n - 1}
  }

  lemma SelectNone(keys: seq<Key>)
    ensures Selecting(keys, keys, [], Upto(|keys|))
  {}

  lemma SelectRange(keys: seq<Key>, c: seq<Key>, order: seq<nat>, rest: set<nat>)
    requires Selecting(keys, c, order, rest)
    ensures forall r :: r in rest ==> r < |keys|
  {}

  lemma AllSelected(keys: seq<Key>, c: seq<Key>, order: seq<nat>)
    requires Selecting(keys, c, order, {})
    ensures Permutation(order, |c|) && SortedKeys(c)
    ensures forall i :: 0 <= i < |c| ==> c[i] == keys[order[i]]
  {
    Covers(order, |c|);
  }

  lemma {:induction false} Covers(order: seq<nat>, n: nat)
    requires forall r: nat :: r < n ==> r in order
    ensures n <= |order|
    decreases n
  {
    if n > 0 {
      assert n - 1 in order;
      var i :| 0 <= i < |order| && order[i] == n - 1;
      var fewer := order[..i] + order[i + 1..];
      forall r: nat | r < n - 1
        ensures r in fewer
      {
        assert r in order;
        var j :| 0 <= j < |order| && order[j] == r;
        assert fewer[if j < i then j else j - 1] == r;
      }
      Covers(fewer, n - 1);
    }
  }

  /** Ranks start at 1, grow by at most 1 from cell to cell, and order cells as their values do. */
  ghost predicate RanksFollow(y: seq<Cell>, c: seq<Key>, n: nat)
    requires n <= |y| && n <= |c|
  {
    && (n > 0 ==> y[0].yval == 1)
    && (forall k :: 0 < k < n ==> y[k].yval == y[k - 1].yval || y[k].yval == y[k - 1].yval + 1)
    && (forall k :: 0 <= k < n ==> 1 <= y[k].yval <= k + 1)
    && (forall k, l :: 0 <= k < l < n ==>
          y[k].yval <= y[l].yval && (y[k].yval == y[l].yval <==> c[k].xval == c[l].xval))
  }

  /** Ranks compare exactly as the raw values do. */
  ghost predicate RanksCompare(x: seq<real>, y: seq<Cell>, to: seq<nat>) {
    && |x| == |to|
    && (forall r :: 0 <= r < |to| ==> to[r] < |y|)
    && forall r, q :: 0 <= r < |x| && 0 <= q < |x| ==> (y[to[r]].yval < y[to[q]].yval <==> x[r] < x[q])
  }

  /** The cell at i continues the ranks when it repeats the last rank for the same value, else starts the next. */
  lemma RankOn(y: seq<Cell>, c: seq<Key>, i: nat, cell: Cell)
    requires 1 <= i < |y| == |c| && SortedKeys(c) && RanksFollow(y, c, i)
    requires cell.yval == y[i - 1].yval + if c[i].xval != c[i - 1].xval then 1 else 0
    ensures RanksFollow(y[i := cell], c, i + 1)
  {
    var y' := y[i := cell];
    forall k | 0 <= k < i
      ensures y'[k].yval <= y'[i].yval && (y'[k].yval == y'[i].yval <==> c[k].xval == c[i].xval)
    {
      assert c[k].xval <= c[i - 1].xval <= c[i].xval;
      assert k < i - 1 ==> y[k].yval <= y[i - 1].yval && (y[k].yval == y[i - 1].yval <==> c[k].xval == c[i - 1].xval);
    }
  }

  method RankCells(c: array<Key>) returns (yj: array<Cell>)
    requires c.Length > 0 && SortedKeys(c[..])
    ensures fresh(yj) && yj.Length == c.Length
    ensures RanksFollow(yj[..], c[..], c.Length)
    ensures forall k :: 0 <= k < c.Length ==> yj[k].from == c[k].idx && yj[k].goal == c[k].g
  {
    hide RanksFollow, SortedKeys;
    var n := c.Length;
    yj := new Cell[n](_ => Cell(0, 0, 0));
    var xval, yval := c[0].xval, 1;
    yj[0] := Cell(c[0].idx, c[0].g, yval);
    RankFirst(yj[..], c[..]);
    var i := 1;
    while i < n
      invariant 1 <= i <= n
      invariant xval == c[i - 1].xval && yval == yj[i - 1].yval
      invariant forall k :: 0 <= k < i ==> yj[k].from == c[k].idx && yj[k].goal == c[k].g
      invariant RanksFollow(yj[..], c[..], i)
    {
      ghost var y := yj[..];
      if c[i].xval != xval {
        xval := c[i].xval;
        yval := yval + 1;
      }
      yj[i] := Cell(c[i].idx, c[i].g, yval);
      RankOn(y, c[..], i, yj[i]);
      assert yj[..] == y[i := yj[i]];
      i := i + 1;
    }
  }

  lemma RankFirst(y: seq<Cell>, c: seq<Key>)
    requires 0 < |y| && 0 < |c| && y[0].yval == 1
    ensures RanksFollow(y, c, 1)
  {}

  method PreprocJ(xj: seq<real>, g: seq<nat>) returns (yj: array<Cell>, to: array<nat>)
    requires 0 < |xj| == |g| < 0x8000_0000
    requires forall i :: 0 <= i < |g| ==> g[i] < 2
    ensures fresh(yj) && fresh(to) && yj.Length == to.Length == |xj|
    ensures forall i :: 0 <= i < |xj| ==> yj[i].InRange()
    ensures Inverse(yj[..], to[..])
    ensures GoalsMatch(yj[..], g)
    ensures Ranked(yj[..], 0, |xj|)
    ensures RanksCompare(xj, yj[..], to[..])
    ensures yj[0].yval == 1
    ensures forall k :: 0 < k < |xj| ==> yj[k].yval == yj[k - 1].yval || yj[k].yval == yj[k - 1].yval + 1
  {
    hide *;
    var n := |xj|;
    var c := new Key[n](i requires 0 <= i < n => Key(xj[i], i, g[i]));
    ghost var keys := c[..];
    ghost var order := QSortKeys(c);
    OrderInRange(order, n);
    assert forall k :: 0 <= k < n ==> c[k] == Key(xj[order[k]], order[k], g[order[k]]) by {
      assert forall k :: 0 <= k < n ==> keys[k] == Key(xj[k], k, g[k]);
    }
    ghost var sorted := c[..];
    yj := RankCells(c);
    assert c[..] == sorted;
    ghost var cells := yj[..];
    to := PlacesOf(yj, order);
    assert yj[..] == cells;
    RowsRanked(xj, g, order, cells, to[..], sorted);
  }

  method PlacesOf(yj: array<Cell>, ghost order: seq<nat>) returns (to: array<nat>)
    requires |order| == yj.Length
    requires forall k :: 0 <= k < yj.Length ==> yj[k].from == order[k] < yj.Length
    requires forall k, l :: 0 <= k < l < yj.Length ==> order[k] != order[l]
    ensures fresh(to) && to.Length == yj.Length
    ensures forall k :: 0 <= k < yj.Length ==> to[order[k]] == k
  {
    var n := yj.Length;
    to := new nat[n];
    var i := 0;
    while i < n
      invariant 0 <= i <= n
      invariant forall k :: 0 <= k < i ==> to[order[k]] == k
    {
      var pos := yj[i].from;
      to[pos] := i;
      i := i + 1;
    }
  }

  lemma OrderInRange(order: seq<nat>, n: nat)
    requires Permutation(order, n)
    ensures |order| == n
    ensures forall i :: 0 <= i < n ==> order[i] < n
    ensures forall i, j :: 0 <= i < j < n ==> order[i] != order[j]
  {}

  lemma RowsRanked(x: seq<real>, g: seq<nat>, order: seq<nat>, y: seq<Cell>, to: seq<nat>, c: seq<Key>)
    requires Permutation(order, |x|) && |x| == |g| == |y| == |to| == |c|
    requires forall k :: 0 <= k < |x| ==> c[k] == Key(x[order[k]], order[k], g[order[k]])
    requires forall k :: 0 <= k < |x| ==> y[k].from == order[k] && y[k].goal == g[order[k]] && to[order[k]] == k
    requires SortedKeys(c) && RanksFollow(y, c, |x|)
    requires |x| < 0x8000_0000 && forall r :: 0 <= r < |g| ==> g[r] < 2
    ensures Inverse(y, to) && GoalsMatch(y, g) && Ranked(y, 0, |x|) && RanksCompare(x, y, to)
    ensures forall i :: 0 <= i < |y| ==> y[i].InRange()
    ensures y != [] ==> y[0].yval == 1
    ensures forall k :: 0 < k < |y| ==> y[k].yval == y[k - 1].yval || y[k].yval == y[k - 1].yval + 1
  {
    forall r | 0 <= r < |x|
      ensures to[r] < |y| && order[to[r]] == r
    {
      assert r in order;
    }
    forall r, q | 0 <= r < |x| && 0 <= q < |x|
      ensures y[to[r]].yval < y[to[q]].yval <==> x[r] < x[q]
    {
      assert c[to[r]].xval == x[r] && c[to[q]].xval == x[q];
    }
  }
}
