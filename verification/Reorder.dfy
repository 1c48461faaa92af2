/**
  * Bringing one column into the order of the split: the scalar loop
  * (DT/src/reorder.c) and its gang form (DT/src/reorder_isp.c).
  */
module Reorder {
  import opened Columns

  /**
    * What both forms owe their caller: the segment holds the left cells and then
    * the right cells, each in their old order, and `to` names the new places.
    */
  ghost predicate Parted(y: seq<Cell>, toSplit: seq<nat>, lb: nat, at: nat, ub: nat,
                         tmp: seq<Cell>, to: seq<nat>, tmp': seq<Cell>, to': seq<nat>)
  {
    && lb <= at <= ub <= |y| == |tmp| == |tmp'| == |to| == |to'|
    && tmp'[lb..ub] == Partition(y[lb..ub], toSplit, at)
    && tmp'[..lb] == tmp[..lb] && tmp'[ub..] == tmp[ub..]
    && (forall k :: lb <= k < ub ==> tmp'[k].from < |to'| && to'[tmp'[k].from] == k)
    && (forall r :: 0 <= r < |to| && !InSegment(to, r, lb, ub) ==> to'[r] == to[r])
  }

  /** Column y, with inverse to, is to be brought into the order of another column. */
  ghost predicate Ready(y: seq<Cell>, to: seq<nat>, ySplit: seq<Cell>, toSplit: seq<nat>, lb: nat, at: nat, ub: nat) {
    && lb <= at <= ub <= |y|
    && Inverse(y, to) && Inverse(ySplit, toSplit)
    && SameRows(to, toSplit, lb, ub)
  }

  /** The cells below i that belong to one side stand, in order, from base up to end. */
  ghost predicate Placed(y: seq<Cell>, to: seq<nat>, toSplit: seq<nat>, lb: nat, at: nat, left: bool,
                         i: nat, base: nat, end: nat, tmp: seq<Cell>, to': seq<nat>)
  {
    && lb <= i <= |y| && base <= end <= |tmp|
    && tmp[base..end] == Side(y[lb..i], toSplit, at, left)
    && forall k :: base <= k < end ==>
         && GoesLeft(tmp[k], toSplit, at) == left
         && tmp[k].from < |to'| == |to| && to'[tmp[k].from] == k
         && lb <= to[tmp[k].from] < i
  }

  /** Left cells below i and right cells below j have been placed; nothing else has changed. */
  ghost predicate Placing(y: seq<Cell>, to: seq<nat>, toSplit: seq<nat>, lb: nat, at: nat, ub: nat, tmp: seq<Cell>,
                          i: nat, j: nat, l: nat, r: nat, tmp': seq<Cell>, to': seq<nat>)
  {
    && lb <= at <= ub <= |y| == |tmp| == |tmp'| == |to| == |to'|
    && i <= ub && j <= ub && l <= at && r <= ub
    && Placed(y, to, toSplit, lb, at, true, i, lb, l, tmp', to')
    && Placed(y, to, toSplit, lb, at, false, j, at, r, tmp', to')
    && tmp'[..lb] == tmp[..lb] && tmp'[ub..] == tmp[ub..]
    && (forall q :: 0 <= q < |to| && !InSegment(to, q, lb, ub) ==> to'[q] == to[q])
  }

  lemma StartPlacing(y: seq<Cell>, to: seq<nat>, ySplit: seq<Cell>, toSplit: seq<nat>, lb: nat, at: nat, ub: nat, tmp: seq<Cell>)
    requires Ready(y, to, ySplit, toSplit, lb, at, ub) && |tmp| == |y|
    ensures Placing(y, to, toSplit, lb, at, ub, tmp, lb, lb, lb, at, tmp, to)
  {
    assert y[lb..lb] == [] && tmp[lb..lb] == [] && tmp[at..at] == [];
  }

  /** There is room for the next cell of a side, inside its own half. */
  lemma RoomForCell(y: seq<Cell>, to: seq<nat>, ySplit: seq<Cell>, toSplit: seq<nat>, lb: nat, at: nat, ub: nat,
                    left: bool, i: nat, base: nat, end: nat, tmp: seq<Cell>, to': seq<nat>)
    requires Ready(y, to, ySplit, toSplit, lb, at, ub)
    requires Placed(y, to, toSplit, lb, at, left, i, base, end, tmp, to')
    requires base == if left then lb else at
    requires i < ub && GoesLeft(y[i], toSplit, at) == left
    ensures end < if left then at else ub
  {
    HalvesFill(y, to, ySplit, toSplit, lb, at, ub);
    SideOfPrefix(y[lb..ub], i - lb, toSplit, at, left);
    assert y[lb..ub][..i - lb] == y[lb..i] && y[lb..ub][i - lb] == y[i];
    assert |tmp[base..end]| == end - base;
  }

  lemma PlacedOn(y: seq<Cell>, to: seq<nat>, toSplit: seq<nat>, lb: nat, at: nat, left: bool,
                 i: nat, base: nat, end: nat, tmp: seq<Cell>, to': seq<nat>)
    requires Inverse(y, to) && i < |y| && end < |tmp|
    requires Placed(y, to, toSplit, lb, at, left, i, base, end, tmp, to')
    requires GoesLeft(y[i], toSplit, at) == left && |to'| == |to|
    ensures Placed(y, to, toSplit, lb, at, left, i + 1, base, end + 1, tmp[end := y[i]], to'[y[i].from := end])
  {
    var tmp1 := tmp[end := y[i]];
    SideOn(y, lb, i, toSplit, at, left);
    assert tmp1[base..end + 1] == tmp[base..end] + [y[i]];
  }

  lemma PlacedOther(y: seq<Cell>, to: seq<nat>, toSplit: seq<nat>, lb: nat, at: nat, left: bool,
                    i: nat, base: nat, end: nat, tmp: seq<Cell>, to': seq<nat>, c: Cell, idx: nat)
    requires Placed(y, to, toSplit, lb, at, left, i, base, end, tmp, to')
    requires GoesLeft(c, toSplit, at) != left && c.from < |to'| && idx < |tmp| && !(base <= idx < end)
    ensures Placed(y, to, toSplit, lb, at, left, i, base, end, tmp[idx := c], to'[c.from := idx])
  {
    assert tmp[idx := c][base..end] == tmp[base..end];
    assert forall k :: base <= k < end ==> tmp[k].from != c.from && tmp[idx := c][k] == tmp[k];
  }

  lemma PlacedSkip(y: seq<Cell>, to: seq<nat>, toSplit: seq<nat>, lb: nat, at: nat, left: bool,
                   i: nat, base: nat, end: nat, tmp: seq<Cell>, to': seq<nat>)
    requires Placed(y, to, toSplit, lb, at, left, i, base, end, tmp, to')
    requires i < |y| && GoesLeft(y[i], toSplit, at) != left
    ensures Placed(y, to, toSplit, lb, at, left, i + 1, base, end, tmp, to')
  {
    SideOn(y, lb, i, toSplit, at, left);
  }

  /** Placing the next cell of the left side. */
  lemma PlaceLeft(y: seq<Cell>, to: seq<nat>, ySplit: seq<Cell>, toSplit: seq<nat>, lb: nat, at: nat, ub: nat, tmp: seq<Cell>,
                  i: nat, j: nat, l: nat, r: nat, tmp': seq<Cell>, to': seq<nat>)
    requires Ready(y, to, ySplit, toSplit, lb, at, ub) && i < ub
    requires Placing(y, to, toSplit, lb, at, ub, tmp, i, j, l, r, tmp', to')
    ensures y[i].from < |to'| && (GoesLeft(y[i], toSplit, at) <==> toSplit[y[i].from] < at)
    ensures GoesLeft(y[i], toSplit, at) ==>
              && l < at
              && Placing(y, to, toSplit, lb, at, ub, tmp, i + 1, j, l + 1, r, tmp'[l := y[i]], to'[y[i].from := l])
    ensures !GoesLeft(y[i], toSplit, at) ==>
              Placing(y, to, toSplit, lb, at, ub, tmp, i + 1, j, l, r, tmp', to')
  {
    if GoesLeft(y[i], toSplit, at) {
      RoomForCell(y, to, ySplit, toSplit, lb, at, ub, true, i, lb, l, tmp', to');
      PlacedOn(y, to, toSplit, lb, at, true, i, lb, l, tmp', to');
      PlacedOther(y, to, toSplit, lb, at, false, j, at, r, tmp', to', y[i], l);
    } else {
      PlacedSkip(y, to, toSplit, lb, at, true, i, lb, l, tmp', to');
    }
  }

  /** Placing the next cell of the right side. */
  lemma PlaceRight(y: seq<Cell>, to: seq<nat>, ySplit: seq<Cell>, toSplit: seq<nat>, lb: nat, at: nat, ub: nat, tmp: seq<Cell>,
                   i: nat, j: nat, l: nat, r: nat, tmp': seq<Cell>, to': seq<nat>)
    requires Ready(y, to, ySplit, toSplit, lb, at, ub) && j < ub
    requires Placing(y, to, toSplit, lb, at, ub, tmp, i, j, l, r, tmp', to')
    ensures y[j].from < |to'| && (GoesLeft(y[j], toSplit, at) <==> toSplit[y[j].from] < at)
    ensures !GoesLeft(y[j], toSplit, at) ==>
              && r < ub
              && Placing(y, to, toSplit, lb, at, ub, tmp, i, j + 1, l, r + 1, tmp'[r := y[j]], to'[y[j].from := r])
    ensures GoesLeft(y[j], toSplit, at) ==>
              Placing(y, to, toSplit, lb, at, ub, tmp, i, j + 1, l, r, tmp', to')
  {
    if !GoesLeft(y[j], toSplit, at) {
      RoomForCell(y, to, ySplit, toSplit, lb, at, ub, false, j, at, r, tmp', to');
      PlacedOn(y, to, toSplit, lb, at, false, j, at, r, tmp', to');
      PlacedOther(y, to, toSplit, lb, at, true, i, lb, l, tmp', to', y[j], r);
    } else {
      PlacedSkip(y, to, toSplit, lb, at, false, j, at, r, tmp', to');
    }
  }

  /** When every cell is placed the two cursors have met the ends of their halves. */
  lemma AllPlaced(y: seq<Cell>, to: seq<nat>, ySplit: seq<Cell>, toSplit: seq<nat>, lb: nat, at: nat, ub: nat, tmp: seq<Cell>,
                  l: nat, r: nat, tmp': seq<Cell>, to': seq<nat>)
    requires Ready(y, to, ySplit, toSplit, lb, at, ub)
    requires Placing(y, to, toSplit, lb, at, ub, tmp, ub, ub, l, r, tmp', to')
    ensures l == at && r == ub
    ensures Parted(y, toSplit, lb, at, ub, tmp, to, tmp', to')
  {
    HalvesFill(y, to, ySplit, toSplit, lb, at, ub);
    assert |tmp'[lb..l]| == l - lb && |tmp'[at..r]| == r - at;
    assert tmp'[lb..ub] == tmp'[lb..at] + tmp'[at..ub];
  }

  /**
    * The contract leaves no choice: any two runs that meet it, scalar or gang of
    * any width, agree on the output segment and on the whole of `to`.
    */
  lemma PartedOnce(y: seq<Cell>, to: seq<nat>, ySplit: seq<Cell>, toSplit: seq<nat>, lb: nat, at: nat, ub: nat, tmp: seq<Cell>,
                   tmp1: seq<Cell>, to1: seq<nat>, tmp2: seq<Cell>, to2: seq<nat>)
    requires Ready(y, to, ySplit, toSplit, lb, at, ub)
    requires Parted(y, toSplit, lb, at, ub, tmp, to, tmp1, to1)
    requires Parted(y, toSplit, lb, at, ub, tmp, to, tmp2, to2)
    ensures tmp1 == tmp2 && to1 == to2
  {
    assert tmp1 == tmp1[..lb] + tmp1[lb..ub] + tmp1[ub..];
    assert tmp2 == tmp2[..lb] + tmp2[lb..ub] + tmp2[ub..];
    forall r | 0 <= r < |to|
      ensures to1[r] == to2[r]
    {
      if InSegment(to, r, lb, ub) {
        var k := PartitionHas(y, to, toSplit, lb, at, ub, to[r]);
        assert tmp1[lb + k] == tmp1[lb..ub][k];
      }
    }
  }

  lemma PartitionHas(y: seq<Cell>, to: seq<nat>, toSplit: seq<nat>, lb: nat, at: nat, ub: nat, i: nat) returns (k: nat)
    requires lb <= i < ub <= |y|
    ensures k < |Partition(y[lb..ub], toSplit, at)| && Partition(y[lb..ub], toSplit, at)[k] == y[i]
    ensures k < |Side(y[lb..ub], toSplit, at, true)| <==> GoesLeft(y[i], toSplit, at)
  {
    var s := y[lb..ub];
    var left := GoesLeft(y[i], toSplit, at);
    assert s[i - lb] == y[i];
    k := SideHas(s, toSplit, at, left, i - lb);
    if !left {
      k := k + |Side(s, toSplit, at, true)|;
    }
  }

  // ---------------------------------------------------------------------------
  // What the column is once the output segment has been copied back into it

  function CopyBack(y: seq<Cell>, tmp: seq<Cell>, lb: nat, ub: nat): (r: seq<Cell>)
    requires lb <= ub <= |y| == |tmp|
    ensures |r| == |y|
  {
    y[..lb] + tmp[lb..ub] + y[ub..]
  }

  /** Row r still has the cell it had; only the cell's place may differ. */
  ghost predicate KeepsCells(y: seq<Cell>, to: seq<nat>, y': seq<Cell>, to': seq<nat>) {
    && |to| == |to'|
    && forall r :: 0 <= r < |to| ==> to[r] < |y| && to'[r] < |y'| && y'[to'[r]] == y[to[r]]
  }

  /** Where each cell of the output came from, and which half it is in. */
  lemma PartedFrom(y: seq<Cell>, toSplit: seq<nat>, lb: nat, at: nat, ub: nat, left: bool, k: nat) returns (i: nat)
    requires lb <= at <= ub <= |y|
    requires |Side(y[lb..ub], toSplit, at, true)| == at - lb && |Side(y[lb..ub], toSplit, at, false)| == ub - at
    requires if left then lb <= k < at else at <= k < ub
    ensures lb <= i < ub && Partition(y[lb..ub], toSplit, at)[k - lb] == y[i]
    ensures GoesLeft(y[i], toSplit, at) == left
  {
    var idx := SideFrom(y[lb..ub], toSplit, at, left);
    i := lb + idx[k - if left then lb else at];
  }

  lemma PartedCells(y: seq<Cell>, to: seq<nat>, ySplit: seq<Cell>, toSplit: seq<nat>, lb: nat, at: nat, ub: nat,
                    tmp: seq<Cell>, tmp': seq<Cell>, to': seq<nat>)
    requires Ready(y, to, ySplit, toSplit, lb, at, ub) && Parted(y, toSplit, lb, at, ub, tmp, to, tmp', to')
    ensures forall k :: lb <= k < ub ==>
              var r := tmp'[k].from;
              && r < |to| && lb <= to[r] < ub && y[to[r]] == tmp'[k] && to'[r] == k
              && (GoesLeft(tmp'[k], toSplit, at) <==> k < at)
  {
    HalvesFill(y, to, ySplit, toSplit, lb, at, ub);
    forall k | lb <= k < ub
      ensures
        var r := tmp'[k].from;
        && r < |to| && lb <= to[r] < ub && y[to[r]] == tmp'[k] && to'[r] == k
        && (GoesLeft(tmp'[k], toSplit, at) <==> k < at)
    {
      var i := PartedFrom(y, toSplit, lb, at, ub, k < at, k);
      assert tmp'[k] == tmp'[lb..ub][k - lb];
    }
  }

  /** Every row of the segment has a place in the output. */
  lemma PartedRows(y: seq<Cell>, to: seq<nat>, ySplit: seq<Cell>, toSplit: seq<nat>, lb: nat, at: nat, ub: nat,
                   tmp: seq<Cell>, tmp': seq<Cell>, to': seq<nat>)
    requires Ready(y, to, ySplit, toSplit, lb, at, ub) && Parted(y, toSplit, lb, at, ub, tmp, to, tmp', to')
    ensures forall r :: 0 <= r < |to| && InSegment(to, r, lb, ub) ==>
              lb <= to'[r] < ub && tmp'[to'[r]] == y[to[r]]
  {
    forall r | 0 <= r < |to| && InSegment(to, r, lb, ub)
      ensures lb <= to'[r] < ub && tmp'[to'[r]] == y[to[r]]
    {
      var k := PartitionHas(y, to, toSplit, lb, at, ub, to[r]);
      assert |tmp'[lb..ub]| == ub - lb && tmp'[lb + k] == tmp'[lb..ub][k];
    }
  }

  /**
    * The reordered column: still a permutation with its inverse, still the same
    * cell for every row, the same rows as the splitting column in either half,
    * and nothing outside the segment has moved.
    */
  lemma PartedColumn(y: seq<Cell>, to: seq<nat>, ySplit: seq<Cell>, toSplit: seq<nat>, lb: nat, at: nat, ub: nat,
                     tmp: seq<Cell>, tmp': seq<Cell>, to': seq<nat>)
    requires Ready(y, to, ySplit, toSplit, lb, at, ub) && Parted(y, toSplit, lb, at, ub, tmp, to, tmp', to')
    ensures var y' := CopyBack(y, tmp', lb, ub);
            && Inverse(y', to') && KeepsCells(y, to, y', to')
            && SameRows(to', toSplit, lb, at) && SameRows(to', toSplit, at, ub)
            && y'[..lb] == y[..lb] && y'[ub..] == y[ub..]
  {
    PartedCells(y, to, ySplit, toSplit, lb, at, ub, tmp, tmp', to');
    PartedRows(y, to, ySplit, toSplit, lb, at, ub, tmp, tmp', to');
    var y' := CopyBack(y, tmp', lb, ub);
    forall i | 0 <= i < |y'|
      ensures y'[i].from < |to'| && to'[y'[i].from] == i
    {
      if lb <= i < ub {
        assert y'[i] == tmp'[i];
      } else {
        assert y'[i] == y[i];
      }
    }
    forall r | 0 <= r < |to|
      ensures to[r] < |y| && to'[r] < |y'| && y'[to'[r]] == y[to[r]]
    {
      if InSegment(to, r, lb, ub) {
        assert y'[to'[r]] == tmp'[to'[r]];
      } else {
        assert y'[to'[r]] == y[to[r]];
      }
    }
    forall r | 0 <= r < |to|
      ensures InSegment(to', r, lb, at) <==> InSegment(toSplit, r, lb, at)
      ensures InSegment(to', r, at, ub) <==> InSegment(toSplit, r, at, ub)
    {
      assert InSegment(to, r, lb, ub) <==> InSegment(toSplit, r, lb, ub);
      assert InSegment(to, r, lb, ub) ==> tmp'[to'[r]].from == r;
    }
  }

  /** Stability: a column in rank order stays in rank order in either half. */
  lemma PartedRanked(y: seq<Cell>, to: seq<nat>, ySplit: seq<Cell>, toSplit: seq<nat>, lb: nat, at: nat, ub: nat,
                     tmp: seq<Cell>, tmp': seq<Cell>, to': seq<nat>)
    requires Ready(y, to, ySplit, toSplit, lb, at, ub) && Parted(y, toSplit, lb, at, ub, tmp, to, tmp', to')
    requires Ranked(y, lb, ub)
    ensures var y' := CopyBack(y, tmp', lb, ub); Ranked(y', lb, at) && Ranked(y', at, ub)
  {
    HalvesFill(y, to, ySplit, toSplit, lb, at, ub);
    SideRanked(y, lb, at, ub, toSplit, true);
    SideRanked(y, lb, at, ub, toSplit, false);
    var y' := CopyBack(y, tmp', lb, ub);
    var p := Partition(y[lb..ub], toSplit, at);
    assert forall k :: lb <= k < ub ==> y'[k] == p[k - lb];
  }

  lemma SideRanked(y: seq<Cell>, lb: nat, at: nat, ub: nat, toSplit: seq<nat>, left: bool)
    requires lb <= ub <= |y| && Ranked(y, lb, ub)
    ensures var p := Side(y[lb..ub], toSplit, at, left);
            forall k, l :: 0 <= k < l < |p| ==> p[k].yval <= p[l].yval
  {
    var idx := SideFrom(y[lb..ub], toSplit, at, left);
    var p := Side(y[lb..ub], toSplit, at, left);
    forall k, l | 0 <= k < l < |p|
      ensures p[k].yval <= p[l].yval
    {
      assert p[k] == y[lb + idx[k]] && p[l] == y[lb + idx[l]];
    }
  }

  /** And its rows stay in the order in which they were. */
  lemma PartedOrdered(y: seq<Cell>, to: seq<nat>, ySplit: seq<Cell>, toSplit: seq<nat>, lb: nat, at: nat, ub: nat,
                      tmp: seq<Cell>, tmp': seq<Cell>, to': seq<nat>, pos: seq<nat>)
    requires Ready(y, to, ySplit, toSplit, lb, at, ub) && Parted(y, toSplit, lb, at, ub, tmp, to, tmp', to')
    requires Ordered(y, pos, lb, ub)
    ensures var y' := CopyBack(y, tmp', lb, ub); Ordered(y', pos, lb, at) && Ordered(y', pos, at, ub)
  {
    hide Ordered, Side, SameRows, Inverse;
    HalvesFill(y, to, ySplit, toSplit, lb, at, ub);
    SideOrdered(y, lb, at, ub, toSplit, true, pos);
    SideOrdered(y, lb, at, ub, toSplit, false, pos);
    var y' := CopyBack(y, tmp', lb, ub);
    var l, r := Side(y[lb..ub], toSplit, at, true), Side(y[lb..ub], toSplit, at, false);
    assert forall k :: lb <= k < ub ==> y'[k] == (l + r)[k - lb];
    OrderedAt(l, y', pos, lb);
    OrderedAt(r, y', pos, at);
  }

  lemma OrderedAt(s: seq<Cell>, y: seq<Cell>, pos: seq<nat>, a: nat)
    requires Ordered(s, pos, 0, |s|) && a + |s| <= |y| && forall k :: a <= k < a + |s| ==> y[k] == s[k - a]
    ensures Ordered(y, pos, a, a + |s|)
  {
    forall i, j | a <= i < j < a + |s|
      ensures y[i].from < |pos| && y[j].from < |pos| && pos[y[i].from] < pos[y[j].from]
    {
      assert y[i] == s[i - a] && y[j] == s[j - a];
    }
  }

  lemma SideOrdered(y: seq<Cell>, lb: nat, at: nat, ub: nat, toSplit: seq<nat>, left: bool, pos: seq<nat>)
    requires lb <= ub <= |y| && Ordered(y, pos, lb, ub)
    ensures var p := Side(y[lb..ub], toSplit, at, left); Ordered(p, pos, 0, |p|)
  {
    var idx := SideFrom(y[lb..ub], toSplit, at, left);
    var p := Side(y[lb..ub], toSplit, at, left);
    forall k, l | 0 <= k < l < |p|
      ensures p[k].from < |pos| && p[l].from < |pos| && pos[p[k].from] < pos[p[l].from]
    {
      assert p[k] == y[lb + idx[k]] && p[l] == y[lb + idx[l]];
    }
  }

  // ---------------------------------------------------------------------------
  // The scalar loop

  method Reorder(yj: array<Cell>, tmpYj: array<Cell>, toJ: array<nat>, toSplitJ: array<nat>,
                 lb: nat, ub: nat, splitYidx: nat, lidx0: nat, ridx0: nat, ghost ySplit: seq<Cell>)
    returns (status: int, lidx: nat, ridx: nat)
    requires lb < ub && lidx0 == lb && ridx0 == splitYidx
    requires tmpYj != yj && toJ != toSplitJ && tmpYj.Length == yj.Length
    requires Ready(yj[..], toJ[..], ySplit, toSplitJ[..], lb, splitYidx, ub)
    modifies tmpYj, toJ
    ensures status == if ub - lb == 1 then -1 else 0
    ensures status == 0 ==>
              && Parted(yj[..], toSplitJ[..], lb, splitYidx, ub, old(tmpYj[..]), old(toJ[..]), tmpYj[..], toJ[..])
              && lidx == splitYidx && ridx == ub
    ensures status != 0 ==>
              tmpYj[..] == old(tmpYj[..]) && toJ[..] == old(toJ[..]) && lidx == lidx0 && ridx == ridx0
  {
    hide *;
    status, lidx, ridx := 0, lidx0, ridx0;
    ghost var y, to, tmp, toSplit := yj[..], toJ[..], tmpYj[..], toSplitJ[..];
    ReadySizes(y, to, ySplit, toSplit, lb, splitYidx, ub);
    if ub - lb > 1 {
      CellsDiffer(y, to, lb, ub - 1);
    }
    if yj[lb] == yj[ub - 1] {
      status := -1;
      return;
    }
    StartPlacing(y, to, ySplit, toSplit, lb, splitYidx, ub, tmp);
    var i := lb;
    while i < ub
      invariant lb <= i <= ub
      invariant Placing(y, to, toSplit, lb, splitYidx, ub, tmp, i, i, lidx, ridx, tmpYj[..], toJ[..])
    {
      PlaceLeft(y, to, ySplit, toSplit, lb, splitYidx, ub, tmp, i, i, lidx, ridx, tmpYj[..], toJ[..]);
      var fromI := yj[i].from;
      var toI := toSplitJ[fromI];
      var idx;
      if toI < splitYidx {
        PlaceRight(y, to, ySplit, toSplit, lb, splitYidx, ub, tmp, i + 1, i, lidx + 1, ridx, tmpYj[..][lidx := y[i]], toJ[..][fromI := lidx]);
        idx := lidx;
        tmpYj[lidx] := yj[i];
        lidx := lidx + 1;
      } else {
        PlaceRight(y, to, ySplit, toSplit, lb, splitYidx, ub, tmp, i + 1, i, lidx, ridx, tmpYj[..], toJ[..]);
        idx := ridx;
        tmpYj[ridx] := yj[i];
        ridx := ridx + 1;
      }
      toJ[fromI] := idx;
      i := i + 1;
    }
    AllPlaced(y, to, ySplit, toSplit, lb, splitYidx, ub, tmp, lidx, ridx, tmpYj[..], toJ[..]);
  }

  lemma ReadySizes(y: seq<Cell>, to: seq<nat>, ySplit: seq<Cell>, toSplit: seq<nat>, lb: nat, at: nat, ub: nat)
    requires Ready(y, to, ySplit, toSplit, lb, at, ub)
    ensures lb <= at <= ub <= |y| == |to| == |toSplit| && Inverse(y, to)
  {}

  // ---------------------------------------------------------------------------
  // The gang form: `width` cells at a time, first the lanes that go left, then
  // the lanes that go right.  A lane's place is the cursor plus the exclusive
  // scan over the active lanes before it.

  method StoreActive(yj: array<Cell>, tmpYj: array<Cell>, toJ: array<nat>, toSplitJ: array<nat>,
                     splitYidx: nat, first: nat, last: nat, left: bool, cursor: nat,
                     ghost to: seq<nat>, ghost tmp: seq<Cell>, ghost lb: nat, ghost ub: nat, ghost ySplit: seq<Cell>,
                     ghost other: nat)
    returns (stored: nat)
    requires tmpYj != yj && toJ != toSplitJ && lb <= first <= last <= ub
    requires Ready(yj[..], to, ySplit, toSplitJ[..], lb, splitYidx, ub)
    requires GangState(yj[..], to, toSplitJ[..], lb, splitYidx, ub, tmp, left, first, if left then first else last, cursor, other, tmpYj[..], toJ[..])
    modifies tmpYj, toJ
    ensures GangState(yj[..], to, toSplitJ[..], lb, splitYidx, ub, tmp, left, last, if left then first else last, cursor + stored, other, tmpYj[..], toJ[..])
  {
    hide *;
    ghost var y, toSplit := yj[..], toSplitJ[..];
    ReadySizes(y, to, ySplit, toSplit, lb, splitYidx, ub);
    ghost var j := if left then first else last;
    stored := 0;
    var lane := first;
    while lane < last
      invariant first <= lane <= last
      invariant GangState(y, to, toSplit, lb, splitYidx, ub, tmp, left, lane, j, cursor + stored, other, tmpYj[..], toJ[..])
    {
      PlaceLane(y, to, ySplit, toSplit, lb, splitYidx, ub, tmp, left, lane, j, cursor + stored, other, tmpYj[..], toJ[..]);
      var fromI := yj[lane].from;
      if (toSplitJ[fromI] < splitYidx) == left {
        toJ[fromI] := cursor + stored;
        tmpYj[cursor + stored] := yj[lane];
        stored := stored + 1;
      }
      lane := lane + 1;
    }
  }

  /** `Placing`, seen from the side being stored: its cell and output cursors come first. */
  ghost predicate GangState(y: seq<Cell>, to: seq<nat>, toSplit: seq<nat>, lb: nat, at: nat, ub: nat, tmp: seq<Cell>,
                            left: bool, i: nat, j: nat, cursor: nat, other: nat, tmp': seq<Cell>, to': seq<nat>)
  {
    if left
    then Placing(y, to, toSplit, lb, at, ub, tmp, i, j, cursor, other, tmp', to')
    else Placing(y, to, toSplit, lb, at, ub, tmp, j, i, other, cursor, tmp', to')
  }

  lemma PlaceLane(y: seq<Cell>, to: seq<nat>, ySplit: seq<Cell>, toSplit: seq<nat>, lb: nat, at: nat, ub: nat, tmp: seq<Cell>,
                  left: bool, i: nat, j: nat, cursor: nat, other: nat, tmp': seq<Cell>, to': seq<nat>)
    requires Ready(y, to, ySplit, toSplit, lb, at, ub) && i < ub
    requires GangState(y, to, toSplit, lb, at, ub, tmp, left, i, j, cursor, other, tmp', to')
    ensures y[i].from < |to'| == |toSplit|
    ensures (toSplit[y[i].from] < at) == left ==>
              && cursor < |tmp'|
              && GangState(y, to, toSplit, lb, at, ub, tmp, left, i + 1, j, cursor + 1, other, tmp'[cursor := y[i]], to'[y[i].from := cursor])
    ensures (toSplit[y[i].from] < at) != left ==>
              GangState(y, to, toSplit, lb, at, ub, tmp, left, i + 1, j, cursor, other, tmp', to')
  {
    hide Placing, Placed, Side;
    if left {
      PlaceLeft(y, to, ySplit, toSplit, lb, at, ub, tmp, i, j, cursor, other, tmp', to');
      PlacingSizes(y, to, toSplit, lb, at, ub, tmp, i, j, cursor, other, tmp', to');
    } else {
      PlaceRight(y, to, ySplit, toSplit, lb, at, ub, tmp, j, i, other, cursor, tmp', to');
      PlacingSizes(y, to, toSplit, lb, at, ub, tmp, j, i, other, cursor, tmp', to');
    }
  }

  lemma PlacingSizes(y: seq<Cell>, to: seq<nat>, toSplit: seq<nat>, lb: nat, at: nat, ub: nat, tmp: seq<Cell>,
                     i: nat, j: nat, l: nat, r: nat, tmp': seq<Cell>, to': seq<nat>)
    requires Placing(y, to, toSplit, lb, at, ub, tmp, i, j, l, r, tmp', to')
    ensures at <= ub <= |y| == |tmp'| == |to'| == |to|
  {}

  lemma SwitchSide(y: seq<Cell>, to: seq<nat>, toSplit: seq<nat>, lb: nat, at: nat, ub: nat, tmp: seq<Cell>,
                   left: bool, i: nat, j: nat, cursor: nat, other: nat, tmp': seq<Cell>, to': seq<nat>)
    requires GangState(y, to, toSplit, lb, at, ub, tmp, left, i, j, cursor, other, tmp', to')
    ensures GangState(y, to, toSplit, lb, at, ub, tmp, !left, j, i, other, cursor, tmp', to')
  {}

  method ReorderGang(yj: array<Cell>, tmpYj: array<Cell>, toJ: array<nat>, toSplitJ: array<nat>,
                     lb: nat, ub: nat, splitYidx: nat, lidx0: nat, ridx0: nat, width: nat, ghost ySplit: seq<Cell>)
    returns (lidx: nat, ridx: nat)
    requires lidx0 == lb && ridx0 == splitYidx && width > 0
    requires tmpYj != yj && toJ != toSplitJ && tmpYj.Length == yj.Length
    requires Ready(yj[..], toJ[..], ySplit, toSplitJ[..], lb, splitYidx, ub)
    modifies tmpYj, toJ
    ensures Parted(yj[..], toSplitJ[..], lb, splitYidx, ub, old(tmpYj[..]), old(toJ[..]), tmpYj[..], toJ[..])
    ensures lidx == splitYidx && ridx == ub
  {
    hide *;
    lidx, ridx := lidx0, ridx0;
    ghost var y, to, tmp, toSplit := yj[..], toJ[..], tmpYj[..], toSplitJ[..];
    ReadySizes(y, to, ySplit, toSplit, lb, splitYidx, ub);
    StartPlacing(y, to, ySplit, toSplit, lb, splitYidx, ub, tmp);
    PlacingIsLeft(y, to, toSplit, lb, splitYidx, ub, tmp, lb, lb, lidx, ridx, tmp, to);
    var i := lb;
    while i < ub
      invariant lb <= i <= ub
      invariant GangState(y, to, toSplit, lb, splitYidx, ub, tmp, true, i, i, lidx, ridx, tmpYj[..], toJ[..])
    {
      var next := if i + width < ub then i + width else ub;
      var stored := StoreActive(yj, tmpYj, toJ, toSplitJ, splitYidx, i, next, true, lidx, to, tmp, lb, ub, ySplit, ridx);
      lidx := lidx + stored;
      SwitchSide(y, to, toSplit, lb, splitYidx, ub, tmp, true, next, i, lidx, ridx, tmpYj[..], toJ[..]);
      stored := StoreActive(yj, tmpYj, toJ, toSplitJ, splitYidx, i, next, false, ridx, to, tmp, lb, ub, ySplit, lidx);
      ridx := ridx + stored;
      SwitchSide(y, to, toSplit, lb, splitYidx, ub, tmp, false, next, next, ridx, lidx, tmpYj[..], toJ[..]);
      i := next;
    }
    PlacingIsLeft(y, to, toSplit, lb, splitYidx, ub, tmp, ub, ub, lidx, ridx, tmpYj[..], toJ[..]);
    AllPlaced(y, to, ySplit, toSplit, lb, splitYidx, ub, tmp, lidx, ridx, tmpYj[..], toJ[..]);
  }

  lemma PlacingIsLeft(y: seq<Cell>, to: seq<nat>, toSplit: seq<nat>, lb: nat, at: nat, ub: nat, tmp: seq<Cell>,
                      i: nat, j: nat, l: nat, r: nat, tmp': seq<Cell>, to': seq<nat>)
    ensures GangState(y, to, toSplit, lb, at, ub, tmp, true, i, j, l, r, tmp', to') <==>
            Placing(y, to, toSplit, lb, at, ub, tmp, i, j, l, r, tmp', to')
  {}
}
