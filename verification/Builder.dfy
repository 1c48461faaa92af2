/**
  * Growing the tree: the recursive in-place split of all presorted columns
  * (DT/src/split.c), from columns made by preproc_j (DT/src/main.c:112-142).
  */
module Builder {
  import opened Columns
  import opened Reorder
  import opened Gini
  import opened Search
  import opened Cuts
  import opened Tree
  import Preproc

  // ---------------------------------------------------------------------------
  // One column and one segment of it

  ghost predicate SameOutside(y: seq<Cell>, y': seq<Cell>, lb: nat, ub: nat) {
    lb <= ub <= |y| == |y'| && y'[..lb] == y[..lb] && y'[ub..] == y[ub..]
  }

  /** What a split does to one column. */
  ghost predicate ColumnSplit(y: seq<Cell>, y': seq<Cell>, to': seq<nat>, g: seq<nat>, f: Feature,
                              lb: nat, at: nat, ub: nat, left: set<nat>, right: set<nat>)
  {
    && ColumnOk(y', to', g, f)
    && ColumnSegment(y', to', f, lb, at, left) && ColumnSegment(y', to', f, at, ub, right)
    && SameOutside(y, y', lb, ub)
  }

  /** Splitting a column and dividing its rows are possible under the same conditions. */
  lemma CanSplitRows(y: seq<Cell>, to: seq<nat>, g: seq<nat>, f: Feature, lb: nat, ub: nat, seg: set<nat>, cfg: Config)
    requires ColumnOk(y, to, g, f) && ColumnSegment(y, to, f, lb, ub, seg)
    ensures CanSplit(y, lb, ub, cfg.minLeafSize, cfg.minPartitionSize, cfg.bufSize) <==> CanDivide(f, seg, cfg)
  {
    hide ColumnOk;
    var q := if cfg.minPartitionSize == 0 then 1 else cfg.minPartitionSize;
    RowCount(y, to, g, f, lb, ub);
    if ub - lb >= 2 * q {
      var above := AboveLeast(f, seg);
      if y[ub - q].yval != y[lb].yval {
        RowCount(y, to, g, f, ub - q, ub);
        LastAbove(y, to, g, f, lb, ub, seg, q);
        Subset(RowsIn(to, ub - q, ub), above);
      } else {
        RowCount(y, to, g, f, ub - q + 1, ub);
        OnlyLastAbove(y, to, g, f, lb, ub, seg, q);
        Subset(above, RowsIn(to, ub - q + 1, ub));
      }
    }
  }

  lemma LastAbove(y: seq<Cell>, to: seq<nat>, g: seq<nat>, f: Feature, lb: nat, ub: nat, seg: set<nat>, q: nat)
    requires ColumnOk(y, to, g, f) && ColumnSegment(y, to, f, lb, ub, seg) && 0 < q && lb + q <= ub
    requires y[ub - q].yval != y[lb].yval
    ensures RowsIn(to, ub - q, ub) <= AboveLeast(f, seg)
  {
    var least := y[lb].from;
    assert to[least] == lb && f.val[least] == y[lb].yval;
    forall r | r in RowsIn(to, ub - q, ub)
      ensures r in AboveLeast(f, seg)
    {
      assert y[to[r]].yval == f.val[r] && y[lb].yval <= y[ub - q].yval <= y[to[r]].yval;
      assert least in seg && f.val[least] < f.val[r];
    }
  }

  lemma OnlyLastAbove(y: seq<Cell>, to: seq<nat>, g: seq<nat>, f: Feature, lb: nat, ub: nat, seg: set<nat>, q: nat)
    requires ColumnOk(y, to, g, f) && ColumnSegment(y, to, f, lb, ub, seg) && 0 < q && lb + q <= ub
    requires y[ub - q].yval == y[lb].yval
    ensures AboveLeast(f, seg) <= RowsIn(to, ub - q + 1, ub)
  {
    assert forall i :: lb <= i <= ub - q ==> y[i].yval <= y[ub - q].yval;
    forall r | r in AboveLeast(f, seg)
      ensures r in RowsIn(to, ub - q + 1, ub)
    {
      var p :| p in seg && p < |f.val| && f.val[p] < f.val[r];
      assert y[to[r]].yval == f.val[r] && y[to[p]].yval == f.val[p] && y[lb].yval <= y[to[p]].yval;
    }
  }

  /** Two columns with the same rows in a segment are ready to be brought into one order. */
  lemma RowsSame(to: seq<nat>, to': seq<nat>, lb: nat, ub: nat)
    requires |to| == |to'| && RowsIn(to, lb, ub) == RowsIn(to', lb, ub)
    ensures SameRows(to, to', lb, ub)
  {
    forall r | 0 <= r < |to|
      ensures InSegment(to, r, lb, ub) <==> InSegment(to', r, lb, ub)
    {
      assert r in RowsIn(to, lb, ub) <==> InSegment(to, r, lb, ub);
      assert r in RowsIn(to', lb, ub) <==> InSegment(to', r, lb, ub);
    }
  }

  lemma SameRowsIn(to: seq<nat>, to': seq<nat>, lb: nat, ub: nat)
    requires SameRows(to, to', lb, ub)
    ensures RowsIn(to, lb, ub) == RowsIn(to', lb, ub)
  {
    forall r: nat
      ensures r in RowsIn(to, lb, ub) <==> r in RowsIn(to', lb, ub)
    {
      if r < |to| {
        assert InSegment(to, r, lb, ub) <==> InSegment(to', r, lb, ub);
      }
    }
  }

  /** A segment that a step leaves alone keeps its order and its rows. */
  lemma SegmentOutside(y: seq<Cell>, to: seq<nat>, y': seq<Cell>, to': seq<nat>, g: seq<nat>, f: Feature,
                       lb: nat, ub: nat, a: nat, b: nat, seg: set<nat>)
    requires ColumnOk(y, to, g, f) && ColumnOk(y', to', g, f) && SameOutside(y, y', lb, ub)
    requires ColumnSegment(y, to, f, a, b, seg) && (b <= lb || ub <= a)
    ensures ColumnSegment(y', to', f, a, b, seg)
  {
    forall i | a <= i < b
      ensures y'[i] == y[i]
    {
      assert i < lb ==> y'[..lb][i] == y[..lb][i];
      assert i >= ub ==> y'[ub..][i - ub] == y[ub..][i - ub];
    }
    forall r: nat
      ensures r in RowsIn(to', a, b) <==> r in seg
    {
      if r < |to| {
        assert a <= to[r] < b ==> to'[y'[to[r]].from] == to[r];
        assert a <= to'[r] < b ==> to[y[to'[r]].from] == to'[r];
      }
    }
  }

  lemma OutsideTwice(y: seq<Cell>, y1: seq<Cell>, y2: seq<Cell>, lb: nat, ub: nat, a: nat, b: nat)
    requires SameOutside(y, y1, lb, ub) && SameOutside(y1, y2, a, b) && lb <= a && b <= ub
    ensures SameOutside(y, y2, lb, ub)
  {
    assert y2[..lb] == y2[..a][..lb] && y1[..lb] == y1[..a][..lb];
    assert y2[ub..] == y2[b..][ub - b..] && y1[ub..] == y1[b..][ub - b..];
  }

  /** The effect of reorder and copy-back on a column other than the splitting one. */
  lemma SplitOther(y: seq<Cell>, to: seq<nat>, ySplit: seq<Cell>, toSplit: seq<nat>, g: seq<nat>, f: Feature,
                   lb: nat, at: nat, ub: nat, tmp: seq<Cell>, tmp': seq<Cell>, to': seq<nat>, seg: set<nat>)
    requires ColumnOk(y, to, g, f) && ColumnSegment(y, to, f, lb, ub, seg)
    requires Ready(y, to, ySplit, toSplit, lb, at, ub) && Parted(y, toSplit, lb, at, ub, tmp, to, tmp', to')
    ensures ColumnSplit(y, CopyBack(y, tmp', lb, ub), to', g, f, lb, at, ub, RowsIn(toSplit, lb, at), RowsIn(toSplit, at, ub))
  {
    hide Parted, Ready, Partition, Ranked, Ordered, RowsIn;
    PartedSizes(y, to, ySplit, toSplit, lb, at, ub, tmp, tmp', to');
    PartedColumn(y, to, ySplit, toSplit, lb, at, ub, tmp, tmp', to');
    PartedRanked(y, to, ySplit, toSplit, lb, at, ub, tmp, tmp', to');
    PartedOrdered(y, to, ySplit, toSplit, lb, at, ub, tmp, tmp', to', f.pos);
    SameRowsIn(to', toSplit, lb, at);
    SameRowsIn(to', toSplit, at, ub);
    var y' := CopyBack(y, tmp', lb, ub);
    forall i | 0 <= i < |y'|
      ensures y'[i].from < |g| && y'[i].goal == g[y'[i].from]
    {
      var r := y'[i].from;
      assert to'[r] == i && y'[to'[r]] == y[to[r]];
    }
    forall r | 0 <= r < |to'|
      ensures y'[to'[r]].yval == f.val[r]
    {
      assert y'[to'[r]] == y[to[r]];
    }
  }

  lemma PartedSizes(y: seq<Cell>, to: seq<nat>, ySplit: seq<Cell>, toSplit: seq<nat>, lb: nat, at: nat, ub: nat,
                    tmp: seq<Cell>, tmp': seq<Cell>, to': seq<nat>)
    requires Ready(y, to, ySplit, toSplit, lb, at, ub) && Parted(y, toSplit, lb, at, ub, tmp, to, tmp', to')
    ensures lb <= at <= ub <= |y| == |to| == |tmp'| == |to'|
  {}

  // ---------------------------------------------------------------------------
  // The builder

  class Builder {
    const cfg: Config
    const g: seq<nat>
    const ys: seq<array<Cell>>
    const tmpYs: seq<array<Cell>>
    const tos: seq<array<nat>>
    const ms: seq<Metrics>
    const tree: array<Node>
    var nTree: nat
    ghost const feats: seq<Feature>
    ghost var rows: seq<set<nat>>

    /** One root, holding all rows; every other slot of the node array is blank. */
    constructor (cfg: Config, g: seq<nat>, ys: seq<array<Cell>>, tmpYs: seq<array<Cell>>, tos: seq<array<nat>>,
                 ms: seq<Metrics>, maxNodes: nat, nT: nat, nH: nat, ghost feats: seq<Feature>)
      requires maxNodes > 0
      ensures this.cfg == cfg && this.g == g && this.ys == ys && this.tmpYs == tmpYs && this.tos == tos && this.ms == ms
      ensures this.feats == feats && fresh(tree) && tree.Length == maxNodes && nTree == 1
      ensures tree[0] == Node(0, -1, -1, -1, nT, nH) && rows == [Preproc.Upto(|g|)]
      ensures forall i :: 1 <= i < tree.Length ==> tree[i] == BLANK
    {
      this.cfg, this.g, this.ys, this.tmpYs, this.tos, this.ms, this.feats := cfg, g, ys, tmpYs, tos, ms, feats;
      var nodes := new Node[maxNodes](_ => BLANK);
      nodes[0] := Node(0, -1, -1, -1, nT, nH);
      tree, nTree := nodes, 1;
      rows := [Preproc.Upto(|g|)];
    }

    /** Sizes agree, and no two of the arrays are the same object. */
    ghost predicate Shape() {
      && |ys| == |tmpYs| == |tos| == |ms| == |feats| && |g| < 0x1_0000_0000
      && (forall j :: 0 <= j < |ys| ==> ys[j].Length == tmpYs[j].Length == tos[j].Length == |g|)
      && (forall j, k :: 0 <= j < k < |ys| ==> ys[j] != ys[k] && tmpYs[j] != tmpYs[k] && tos[j] != tos[k])
      && (forall j, k :: 0 <= j < |ys| && 0 <= k < |ys| ==> ys[j] != tmpYs[k])
      && (forall j :: 0 <= j < |ms| ==> ms[j].Valid() && ms[j].metric.Length == cfg.bufSize)
      && (forall j :: 0 <= j < |tos| ==> tos[j] !in Buffers(ms))
      && cfg.bufSize > 0
    }

    /** What check.c asks of all columns, at every position and for every row. */
    ghost predicate ColumnsOk()
      requires |ys| == |tos| == |feats|
      reads ys, tos
    {
      forall j :: 0 <= j < |ys| ==> ColumnOk(ys[j][..], tos[j][..], g, feats[j])
    }

    /** Every column is in rank order in the segment and holds the rows seg there. */
    ghost predicate Segment(lb: nat, ub: nat, seg: set<nat>)
      requires |ys| == |tos| == |feats|
      reads ys, tos
    {
      lb <= ub <= |g| && forall j :: 0 <= j < |ys| ==> ColumnSegment(ys[j][..], tos[j][..], feats[j], lb, ub, seg)
    }

    ghost predicate Growing()
      reads this, tree
    {
      && nTree <= tree.Length
      && TreeOk(tree[..nTree], rows, g, feats, cfg.minPartitionSize, cfg.maxDepth)
      && forall i :: nTree <= i < tree.Length ==> tree[i].lchild == -1 && tree[i].rchild == -1
    }

    /** Bring column j into the order of column s: reorder (or its gang form), then memcpy. */
    method ReorderColumn(j: nat, s: nat, lb: nat, at: nat, ub: nat, ghost seg: set<nat>)
      requires Shape() && j < |ys| && s < |ys| && j != s && lb < at < ub <= |g|
      requires ColumnOk(ys[j][..], tos[j][..], g, feats[j]) && ColumnSegment(ys[j][..], tos[j][..], feats[j], lb, ub, seg)
      requires ColumnOk(ys[s][..], tos[s][..], g, feats[s]) && ColumnSegment(ys[s][..], tos[s][..], feats[s], lb, ub, seg)
      modifies ys[j], tmpYs[j], tos[j]
      ensures ColumnSplit(old(ys[j][..]), ys[j][..], tos[j][..], g, feats[j], lb, at, ub,
                          RowsIn(tos[s][..], lb, at), RowsIn(tos[s][..], at, ub))
    {
      hide *;
      ShapeOf(j, s);
      ghost var y, to, tmp, ySplit, toSplit := ys[j][..], tos[j][..], tmpYs[j][..], ys[s][..], tos[s][..];
      ReadyToSplit(y, to, feats[j], ySplit, toSplit, feats[s], g, lb, at, ub, seg);
      if cfg.gangWidth == 0 {
        var status, lidx, ridx := Reorder.Reorder(ys[j], tmpYs[j], tos[j], tos[s], lb, ub, at, lb, at, ySplit);
      } else {
        var lidx, ridx := ReorderGang(ys[j], tmpYs[j], tos[j], tos[s], lb, ub, at, lb, at, cfg.gangWidth, ySplit);
      }
      SplitOther(y, to, ySplit, toSplit, g, feats[j], lb, at, ub, tmp, tmpYs[j][..], tos[j][..], seg);
      PartedSizes(y, to, ySplit, toSplit, lb, at, ub, tmp, tmpYs[j][..], tos[j][..]);
      MemCopy(ys[j], tmpYs[j], lb, ub);
    }

    lemma ShapeOf(j: nat, s: nat)
      requires Shape() && j < |ys| && s < |ys| && j != s
      ensures |ys| == |tmpYs| == |tos| == |ms| == |feats|
      ensures tmpYs[j] != ys[j] && tmpYs[j] != ys[s] && tos[j] != tos[s] && ys[j] != ys[s]
      ensures ys[j].Length == tmpYs[j].Length == tos[j].Length == |g|
    {
      assert ys[j] != tmpYs[j];
    }
  
    ghost function Cols(): (c: seq<seq<Cell>>)
      reads ys
      ensures |c| == |ys| && forall j :: 0 <= j < |ys| ==> c[j] == ys[j][..]
    {
      seq(|ys|, j requires 0 <= j < |ys| reads ys => ys[j][..])
    }

    ghost function Inverses(): (c: seq<seq<nat>>)
      reads tos
      ensures |c| == |tos| && forall j :: 0 <= j < |tos| ==> c[j] == tos[j][..]
    {
      seq(|tos|, j requires 0 <= j < |tos| reads tos => tos[j][..])
    }

    lemma ShapeFor(j: nat)
      requires Shape() && j < |ys|
      ensures |ys| == |tmpYs| == |tos| == |ms| == |feats| && ys[j].Length == |g|
      ensures forall k :: 0 <= k < |ys| && k != j ==> ys[k] != ys[j] && ys[k] != tmpYs[j] && tos[k] != tos[j]
    {
      forall k | 0 <= k < |ys| && k != j
        ensures ys[k] != ys[j] && ys[k] != tmpYs[j] && tos[k] != tos[j]
      {
        if k < j {
          assert ys[k] != ys[j] && tos[k] != tos[j];
        } else {
          assert ys[j] != ys[k] && tos[j] != tos[k];
        }
      }
    }

    lemma ColumnsAre(lb: nat, ub: nat, seg: set<nat>)
      requires Shape() && ColumnsOk() && Segment(lb, ub, seg)
      ensures |ys| == |tmpYs| == |tos| == |ms| == |feats| && ub <= |g|
      ensures forall j :: 0 <= j < |ys| ==>
                ColumnOk(ys[j][..], tos[j][..], g, feats[j]) && ColumnSegment(ys[j][..], tos[j][..], feats[j], lb, ub, seg)
    {}

    /** Column j has been split, or, if it is still waiting, is as it was. */
    ghost predicate SplitOrWaiting(j: nat, waiting: bool, y: seq<Cell>, to: seq<nat>,
                                   lb: nat, at: nat, ub: nat, left: set<nat>, right: set<nat>)
      requires j < |ys| == |tos| == |feats|
      reads ys[j], tos[j]
    {
      if waiting then ys[j][..] == y && tos[j][..] == to
      else ColumnSplit(y, ys[j][..], tos[j][..], g, feats[j], lb, at, ub, left, right)
    }

    lemma Waits(j: nat, y: seq<Cell>, to: seq<nat>, lb: nat, at: nat, ub: nat, left: set<nat>, right: set<nat>)
      requires j < |ys| == |tos| == |feats|
      ensures SplitOrWaiting(j, true, y, to, lb, at, ub, left, right) <==> ys[j][..] == y && tos[j][..] == to
      ensures SplitOrWaiting(j, false, y, to, lb, at, ub, left, right) <==>
              ColumnSplit(y, ys[j][..], tos[j][..], g, feats[j], lb, at, ub, left, right)
    {}

    /** The splitting column counts as split without being touched. */
    lemma AllSplit(y: seq<seq<Cell>>, to: seq<seq<nat>>, s: nat, lb: nat, at: nat, ub: nat, seg: set<nat>, left: set<nat>, right: set<nat>)
      requires Shape() && s < |ys| == |y| == |to| && lb <= at <= ub <= |g|
      requires |ys| == |tos| == |feats|
      requires left == RowsIn(to[s], lb, at) && right == RowsIn(to[s], at, ub)
      requires ColumnOk(y[s], to[s], g, feats[s]) && ColumnSegment(y[s], to[s], feats[s], lb, ub, seg)
      requires forall j: nat :: j < |ys| ==> SplitOrWaiting(j, j == s, y[j], to[j], lb, at, ub, left, right)
      ensures ColumnsOk() && Segment(lb, at, left) && Segment(at, ub, right)
      ensures forall j :: 0 <= j < |ys| ==> SameOutside(y[j], ys[j][..], lb, ub)
    {
      hide RowsIn, ColumnOk;
      SplitsBelow(y[s], to[s], g, feats[s], lb, at, ub, seg);
      forall j | 0 <= j < |ys|
        ensures ColumnSplit(y[j], ys[j][..], tos[j][..], g, feats[j], lb, at, ub, left, right)
      {
        assert SplitOrWaiting(j, j == s, y[j], to[j], lb, at, ub, left, right);
      }
    }

    /**
      * The loop over all features, in whatever order the threads take them.  Its
      * quick return compares whole cells, so it is never taken: no two cells agree.
      */
    method SplitColumns(s: nat, lb: nat, at: nat, ub: nat, ghost seg: set<nat>)
      requires Shape() && s < |ys| && lb < at < ub && ColumnsOk() && Segment(lb, ub, seg)
      modifies ys, tmpYs, tos
      ensures ColumnsOk()
      ensures Segment(lb, at, RowsIn(old(tos[s][..]), lb, at)) && Segment(at, ub, RowsIn(old(tos[s][..]), at, ub))
      ensures forall j :: 0 <= j < |ys| ==> SameOutside(old(ys[j][..]), ys[j][..], lb, ub)
    {
      hide *;
      ColumnsAre(lb, ub, seg);
      ghost var y, to := Cols(), Inverses();
      ghost var left, right := RowsIn(to[s], lb, at), RowsIn(to[s], at, ub);
      var todo := Preproc.Upto(|ys|);
      forall j: nat | j < |ys|
        ensures SplitOrWaiting(j, true, y[j], to[j], lb, at, ub, left, right)
      {
        Waits(j, y[j], to[j], lb, at, ub, left, right);
      }
      while todo != {}
        invariant forall j :: j in todo ==> j < |ys|
        invariant forall j: nat :: j < |ys| ==> SplitOrWaiting(j, j in todo || j == s, y[j], to[j], lb, at, ub, left, right)
        decreases todo
      {
        var j: nat :| j in todo;
        ShapeFor(j);
        Waits(j, y[j], to[j], lb, at, ub, left, right);
        Waits(s, y[s], to[s], lb, at, ub, left, right);
        assert SplitOrWaiting(j, true, y[j], to[j], lb, at, ub, left, right);
        assert SplitOrWaiting(s, true, y[s], to[s], lb, at, ub, left, right);
        EndsDiffer(y[j], to[j], g, feats[j], lb, ub);
        if j != s && ys[j][lb] != ys[j][ub - 1] {
          ReorderColumn(j, s, lb, at, ub, seg);
          Waits(j, y[j], to[j], lb, at, ub, left, right);
        }
        todo := todo - {j};
      }
      AllSplit(y, to, s, lb, at, ub, seg, left, right);
    }

    /** Nothing a search writes belongs to a column, to an inverse or to the tree. */
    lemma SearchLeavesAlone(lb: nat, ub: nat, seg: set<nat>)
      requires Shape()
      ensures |ys| == |tmpYs| == |tos| == |ms| == |feats| && cfg.bufSize > 0
      ensures forall j :: 0 <= j < |ys| ==> ys[j] !in Buffers(ms) && tos[j] !in Buffers(ms)
      ensures forall j :: 0 <= j < |ms| ==> ms[j].Valid() && ms[j].metric.Length == cfg.bufSize
      ensures tree !in Buffers(ms) && this !in Buffers(ms)
    {
      forall j | 0 <= j < |ys|
        ensures ys[j] !in Buffers(ms)
      {
        ColumnsApart(ys, ms, j);
      }
    }

    lemma AllSearchable(lb: nat, ub: nat, nT: nat, nH: nat, seg: set<nat>)
      requires Shape() && ColumnsOk() && Segment(lb, ub, seg)
      requires nT == |WithGoal(seg, g, true)| && nH == |WithGoal(seg, g, false)|
      ensures lb <= ub <= |g|
      ensures forall j :: 0 <= j < |ys| ==> Searchable(ys[j][..], lb, ub, nT, nH)
    {
      hide RowsIn, WithGoal, Count, Ranked;
      forall j | 0 <= j < |ys|
        ensures Searchable(ys[j][..], lb, ub, nT, nH)
      {
        CountRows(ys[j][..], tos[j][..], g, feats[j], lb, ub, true);
        CountRows(ys[j][..], tos[j][..], g, feats[j], lb, ub, false);
      }
    }

    /** The best split over all features, and what it means for the rows of the segment. */
    method FindSplit(lb: nat, ub: nat, nT: nat, nH: nat, ghost seg: set<nat>)
      returns (isSplittable: bool, j: nat, at: nat, num4: FourNums, ghost found: seq<Found>)
      requires Shape() && ColumnsOk() && Segment(lb, ub, seg) && nT > 0
      requires nT == |WithGoal(seg, g, true)| && nH == |WithGoal(seg, g, false)|
      modifies Buffers(ms)
      ensures ColumnsOk() && Segment(lb, ub, seg)
      ensures |found| == |ys| && forall k :: 0 <= k < |ys| ==>
                ResultFor(ys[k][..], lb, ub, nT, nH, cfg.gangWidth, cfg.minLeafSize, cfg.minPartitionSize, cfg.bufSize, found[k])
      ensures isSplittable ==> BestFeature(found, j) && j < |found| && at == found[j].yidx + 1
      ensures isSplittable <==> SomeDivides(feats, seg, cfg)
      ensures isSplittable ==> ub - lb >= 2 * cfg.minPartitionSize && ub - lb == |seg|
      ensures isSplittable ==> j < |tos| && lb <= at <= ub && Divides(feats, g, seg, cfg, RowsIn(tos[j][..], lb, at), RowsIn(tos[j][..], at, ub))
      ensures isSplittable ==> j < |ys| == |tos| == |feats| && lb < at < ub
      ensures isSplittable ==>
                var left, right := RowsIn(tos[j][..], lb, at), RowsIn(tos[j][..], at, ub);
                && left !! right && left + right == seg && Below(feats[j], left, right)
                && num4.nTL == |WithGoal(left, g, true)| && num4.nHL == |WithGoal(left, g, false)|
                && num4.nTR == |WithGoal(right, g, true)| && num4.nHR == |WithGoal(right, g, false)|
                && num4.nTL + num4.nHL == at - lb && num4.nTR + num4.nHR == ub - at
    {
      hide *;
      SearchLeavesAlone(lb, ub, seg);
      AllSearchable(lb, ub, nT, nH, seg);
      ghost var y, to := Cols(), Inverses();
      var yval;
      isSplittable, j, yval, at, num4, found := Search.Search(ys, lb, ub, nT, nH, cfg.gangWidth, ms, cfg.minLeafSize, cfg.minPartitionSize, cfg.bufSize);
      ColumnsAre(lb, ub, seg);
      DividesWhenFound(y, to, lb, ub, nT, nH, seg, found);
      if isSplittable {
        IsReported(y, to, lb, ub, nT, nH, seg, found, j);
        BestIsSplit(found, j);
        EnoughRows(y[j], to[j], g, feats[j], lb, ub, seg, nT, nH, cfg, found[j]);
        assert Searchable(y[j], lb, ub, nT, nH) && ys[j][..] == y[j];
        SplitMeans(y[j], to[j], g, feats[j], lb, ub, seg, nT, nH, cfg.gangWidth, cfg.minLeafSize, cfg.minPartitionSize, cfg.bufSize, found[j]);
      }
    }

    lemma IsReported(y: seq<seq<Cell>>, to: seq<seq<nat>>, lb: nat, ub: nat, nT: nat, nH: nat, seg: set<nat>, found: seq<Found>, j: nat)
      requires Shape() && |y| == |to| == |feats| == |found| && nT > 0
      requires nT == |WithGoal(seg, g, true)| && nH == |WithGoal(seg, g, false)|
      requires forall j :: 0 <= j < |y| ==> ColumnOk(y[j], to[j], g, feats[j]) && ColumnSegment(y[j], to[j], feats[j], lb, ub, seg)
      requires forall j :: 0 <= j < |y| ==>
                 ResultFor(y[j], lb, ub, nT, nH, cfg.gangWidth, cfg.minLeafSize, cfg.minPartitionSize, cfg.bufSize, found[j])
      requires BestFeature(found, j)
      ensures j < |found| && Divides(feats, g, seg, cfg, RowsIn(to[j], lb, found[j].yidx + 1), RowsIn(to[j], found[j].yidx + 1, ub))
    {
      hide ColumnOk, ColumnSegment, ResultFor, RowsIn, WithGoal;
      assert Reported(feats, g, seg, cfg, y, to, lb, ub, found, j);
    }

    /** Some feature was found splittable exactly when some feature divides the rows. */
    lemma DividesWhenFound(y: seq<seq<Cell>>, to: seq<seq<nat>>, lb: nat, ub: nat, nT: nat, nH: nat, seg: set<nat>, found: seq<Found>)
      requires |y| == |to| == |feats| == |found|
      requires forall j :: 0 <= j < |y| ==> ColumnOk(y[j], to[j], g, feats[j]) && ColumnSegment(y[j], to[j], feats[j], lb, ub, seg)
      requires forall j :: 0 <= j < |y| ==>
                 ResultFor(y[j], lb, ub, nT, nH, cfg.gangWidth, cfg.minLeafSize, cfg.minPartitionSize, cfg.bufSize, found[j])
      ensures (exists j :: 0 <= j < |found| && found[j].splittable) <==> SomeDivides(feats, seg, cfg)
    {
      hide CanSplit, CanDivide, ChosenBy, ColumnOk, ColumnSegment;
      forall j | 0 <= j < |found|
        ensures found[j].splittable <==> CanDivide(feats[j], seg, cfg)
      {
        CanSplitRows(y[j], to[j], g, feats[j], lb, ub, seg, cfg);
      }
    }

    /** Append a node below the given parent. */
    method AddChild(parent: nat, isLeft: bool, nT: nat, nH: nat, depth: nat, ghost seg: set<nat>)
      requires parent < nTree < tree.Length
      requires tree[nTree].lchild == -1 && tree[nTree].rchild == -1
      modifies this`nTree, this`rows, tree
      ensures nTree == old(nTree) + 1 && rows == old(rows) + [seg]
      ensures tree[..nTree] == if isLeft then WithLeft(old(tree[..nTree]), parent, Child(parent, depth, nT, nH))
                               else WithRight(old(tree[..nTree]), parent, Child(parent, depth, nT, nH))
      ensures forall i :: nTree <= i < tree.Length ==> tree[i] == old(tree[i])
    {
      ghost var t := tree[..nTree];
      if isLeft {
        tree[parent] := tree[parent].(lchild := nTree);
      } else {
        tree[parent] := tree[parent].(rchild := nTree);
      }
      tree[nTree] := tree[nTree].(parent := parent, nT := nT, nH := nH, depth := depth);
      nTree := nTree + 1;
      rows := rows + [seg];
    }

    /** The node about to be split is the last one made, and it is still a leaf. */
    ghost predicate AtLeaf(nT: nat, nH: nat, depth: nat, seg: set<nat>)
      reads this, tree
    {
      && 0 < nTree == |rows| <= tree.Length
      && tree[nTree - 1].lchild == -1 && tree[nTree - 1].rchild == -1
      && tree[nTree - 1].nT == nT && tree[nTree - 1].nH == nH && tree[nTree - 1].depth == depth
      && rows[nTree - 1] == seg
    }

    /** The columns of another segment have not been touched. */
    lemma OtherSegment(y: seq<seq<Cell>>, to: seq<seq<nat>>, lb: nat, ub: nat, a: nat, b: nat, seg: set<nat>)
      requires |y| == |to| == |ys| == |tos| == |feats| && a <= b <= |g| && (b <= lb || ub <= a)
      requires forall j :: 0 <= j < |ys| ==> ColumnOk(y[j], to[j], g, feats[j]) && ColumnSegment(y[j], to[j], feats[j], a, b, seg)
      requires ColumnsOk() && forall j :: 0 <= j < |ys| ==> SameOutside(y[j], ys[j][..], lb, ub)
      ensures Segment(a, b, seg)
    {
      hide ColumnOk, ColumnSegment, SameOutside;
      forall j | 0 <= j < |ys|
        ensures ColumnSegment(ys[j][..], tos[j][..], feats[j], a, b, seg)
      {
        SegmentOutside(y[j], to[j], ys[j][..], tos[j][..], g, feats[j], lb, ub, a, b, seg);
      }
    }

    lemma SegmentSize(lb: nat, ub: nat, seg: set<nat>)
      requires Shape() && ColumnsOk() && Segment(lb, ub, seg) && |ys| > 0
      ensures |seg| == ub - lb
    {
      hide RowsIn;
      RowCount(ys[0][..], tos[0][..], g, feats[0], lb, ub);
    }

    /** Make a child and split it in turn. */
    method GrowChild(parent: nat, isLeft: bool, lb: nat, ub: nat, nT: nat, nH: nat, depth: nat, ghost seg: set<nat>)
      requires Shape() && ColumnsOk() && Segment(lb, ub, seg) && Growing()
      requires parent < nTree < tree.Length && |rows| == nTree && 0 < depth <= cfg.maxDepth
      requires tree[parent].depth == depth - 1 && tree[parent].rchild == -1 && seg <= rows[parent]
      requires isLeft ==> tree[parent].lchild == -1
      requires !isLeft && 0 <= tree[parent].lchild < nTree ==>
                 var left := rows[tree[parent].lchild];
                 left !! seg && left + seg == rows[parent] && Separated(feats, left, seg)
      requires nT == |WithGoal(seg, g, true)| && nH == |WithGoal(seg, g, false)| && nT + nH >= cfg.minPartitionSize
      modifies this`nTree, this`rows, tree, ys, tmpYs, tos, Buffers(ms)
      ensures ColumnsOk() && Growing() && |rows| == nTree
      ensures forall j :: 0 <= j < |ys| ==> SameOutside(old(ys[j][..]), ys[j][..], lb, ub)
      ensures Grown(old(tree[..nTree]), old(rows), tree[..nTree], rows, parent)
      ensures old(nTree) < nTree && rows[old(nTree)] == seg
      ensures forall i :: old(nTree) <= i < nTree ==> Finished(tree[..nTree], rows, g, feats, cfg, tree.Length, i)
      ensures tree[parent] == if isLeft then old(tree[parent]).(lchild := old(nTree)) else old(tree[parent]).(rchild := old(nTree))
      decreases cfg.maxDepth - depth, 1
    {
      hide *;
      ghost var t, rs := tree[..nTree], rows;
      OpenGrowing();
      if isLeft {
        AddLeft(t, rs, g, feats, cfg.minPartitionSize, cfg.maxDepth, parent, depth, nT, nH, seg);
      } else {
        AddRight(t, rs, g, feats, cfg.minPartitionSize, cfg.maxDepth, parent, depth, nT, nH, seg);
      }
      AddChild(parent, isLeft, nT, nH, depth, seg);
      NewLeaf(t, rs, parent, isLeft, nT, nH, depth, seg);
      ghost var t1, rs1 := tree[..nTree], rows;
      Split(lb, ub, nT, nH, depth, seg);
      OpenGrowing();
      GrownTwice(t, rs, t1, rs1, tree[..nTree], rows, parent, |t|);
      GrownSizes(t1, rs1, tree[..nTree], rows, |t|);
    }

    lemma OpenGrowing()
      requires Growing()
      ensures 0 < nTree <= tree.Length && |rows| == nTree
      ensures TreeOk(tree[..nTree], rows, g, feats, cfg.minPartitionSize, cfg.maxDepth)
      ensures forall i :: nTree <= i < tree.Length ==> tree[i].lchild == -1 && tree[i].rchild == -1
    {}

    lemma LeafFacts(nT: nat, nH: nat, depth: nat, seg: set<nat>)
      requires AtLeaf(nT, nH, depth, seg)
      ensures 0 < nTree == |rows| <= tree.Length
      ensures var node := tree[nTree - 1];
              node.lchild == -1 && node.rchild == -1 && node.nT == nT && node.nH == nH && node.depth == depth
      ensures rows[nTree - 1] == seg
      ensures Grown(tree[..nTree], rows, tree[..nTree], rows, nTree - 1)
    {}

    lemma SegmentRange(lb: nat, ub: nat, seg: set<nat>)
      requires Shape() && Segment(lb, ub, seg)
      ensures lb <= ub <= |g| && |ys| == |tos| == |feats|
      ensures forall j :: 0 <= j < |ys| ==> SameOutside(ys[j][..], ys[j][..], lb, ub)
    {}

    /** The node just added is a leaf, ready to be split. */
    lemma NewLeaf(t: seq<Node>, rs: seq<set<nat>>, parent: nat, isLeft: bool, nT: nat, nH: nat, depth: nat, seg: set<nat>)
      requires parent < |t| == |rs| && |t| < tree.Length && nTree == |t| + 1 && rows == rs + [seg]
      requires tree[..nTree] == if isLeft then WithLeft(t, parent, Child(parent, depth, nT, nH))
                                else WithRight(t, parent, Child(parent, depth, nT, nH))
      requires TreeOk(tree[..nTree], rows, g, feats, cfg.minPartitionSize, cfg.maxDepth)
      requires forall i :: nTree <= i < tree.Length ==> tree[i].lchild == -1 && tree[i].rchild == -1
      ensures Growing() && AtLeaf(nT, nH, depth, seg)
      ensures tree[parent] == if isLeft then t[parent].(lchild := |t|) else t[parent].(rchild := |t|)
    {
      hide TreeOk;
      assert tree[..nTree][|t|] == Child(parent, depth, nT, nH);
      assert tree[..nTree][parent] == tree[parent];
    }

    method Split(lb: nat, ub: nat, nT: nat, nH: nat, depth: nat, ghost seg: set<nat>)
      requires Shape() && ColumnsOk() && Segment(lb, ub, seg) && Growing()
      requires AtLeaf(nT, nH, depth, seg) && depth <= cfg.maxDepth
      requires nT == |WithGoal(seg, g, true)| && nH == |WithGoal(seg, g, false)|
      modifies this`nTree, this`rows, tree, ys, tmpYs, tos, Buffers(ms)
      ensures ColumnsOk() && Growing() && |rows| == nTree
      ensures forall j :: 0 <= j < |ys| ==> SameOutside(old(ys[j][..]), ys[j][..], lb, ub)
      ensures 0 < old(nTree) && Grown(old(tree[..nTree]), old(rows), tree[..nTree], rows, old(nTree) - 1)
      ensures forall i :: old(nTree) - 1 <= i < nTree ==> Finished(tree[..nTree], rows, g, feats, cfg, tree.Length, i)
      decreases cfg.maxDepth - depth, 0
    {
      hide *;
      LeafFacts(nT, nH, depth, seg);
      SegmentRange(lb, ub, seg);
      SearchLeavesAlone(lb, ub, seg);
      ghost var t, rs, y := tree[..nTree], rows, Cols();
      if |ys| > 0 {
        SegmentSize(lb, ub, seg);
      }
      if nTree >= tree.Length {
        Stopped(t, rs, g, feats, cfg, tree.Length, nTree - 1);
        return;
      }
      if ub - lb < 2 * cfg.minLeafSize {
        Stopped(t, rs, g, feats, cfg, tree.Length, nTree - 1);
        return;
      }
      if depth >= cfg.maxDepth {
        Stopped(t, rs, g, feats, cfg, tree.Length, nTree - 1);
        return;
      }
      if nH == 0 || nT == 0 {
        Stopped(t, rs, g, feats, cfg, tree.Length, nTree - 1);
        return;
      }
      ghost var found;
      var isSplittable, j, at, num4;
      isSplittable, j, at, num4, found := FindSplit(lb, ub, nT, nH, seg);
      if !isSplittable {
        Stopped(t, rs, g, feats, cfg, tree.Length, nTree - 1);
        return;
      }
      IsDivisible(tree[nTree - 1], seg, feats, cfg);
      ghost var left, right := RowsIn(tos[j][..], lb, at), RowsIn(tos[j][..], at, ub);
      SeparatedBy(feats, j, left, right);
      GoalsAddUp(left, right, g, true);
      GoalsAddUp(left, right, g, false);
      SplitColumns(j, lb, at, ub, seg);
      ghost var y1 := Cols();
      GrowChildren(nTree - 1, lb, at, ub, num4, depth, left, right);
      forall k | 0 <= k < |ys|
        ensures SameOutside(y[k], ys[k][..], lb, ub)
      {
        OutsideTwice(y[k], y1[k], ys[k][..], lb, ub, lb, ub);
      }
    }

    /** The second half of split: a child for either half that is large enough. */
    method GrowChildren(parentId: nat, lb: nat, at: nat, ub: nat, num4: FourNums, depth: nat, ghost left: set<nat>, ghost right: set<nat>)
      requires Shape() && ColumnsOk() && Segment(lb, at, left) && Segment(at, ub, right) && Growing()
      requires AtLeaf(num4.nTL + num4.nTR, num4.nHL + num4.nHR, depth, left + right)
      requires parentId == nTree - 1 && nTree < tree.Length && depth < cfg.maxDepth && lb < at < ub
      requires left !! right && Separated(feats, left, right) && |ys| > 0
      requires Divides(feats, g, left + right, cfg, left, right)
      requires Divisible(tree[parentId], left + right, feats, cfg) && ub - lb >= 2 * cfg.minPartitionSize
      requires num4.nTL == |WithGoal(left, g, true)| && num4.nHL == |WithGoal(left, g, false)|
      requires num4.nTR == |WithGoal(right, g, true)| && num4.nHR == |WithGoal(right, g, false)|
      requires num4.nTL + num4.nHL == at - lb && num4.nTR + num4.nHR == ub - at
      modifies this`nTree, this`rows, tree, ys, tmpYs, tos, Buffers(ms)
      ensures ColumnsOk() && Growing() && |rows| == nTree
      ensures forall j :: 0 <= j < |ys| ==> SameOutside(old(ys[j][..]), ys[j][..], lb, ub)
      ensures 0 < old(nTree) && Grown(old(tree[..nTree]), old(rows), tree[..nTree], rows, old(nTree) - 1)
      ensures forall i :: old(nTree) - 1 <= i < nTree ==> Finished(tree[..nTree], rows, g, feats, cfg, tree.Length, i)
      decreases cfg.maxDepth - depth - 1, 2
    {
      hide *;
      LeafFacts(num4.nTL + num4.nTR, num4.nHL + num4.nHR, depth, left + right);
      SegmentRange(lb, at, left);
      SegmentRange(at, ub, right);
      ColumnsAre(at, ub, right);
      SegmentSize(lb, at, left);
      SegmentSize(at, ub, right);
      ghost var t, rs, y, to := tree[..nTree], rows, Cols(), Inverses();
      if at - lb >= cfg.minPartitionSize {
        GrowChild(parentId, true, lb, at, num4.nTL, num4.nHL, depth + 1, left);
        OpenGrowing();
        OtherSegment(y, to, lb, at, at, ub, right);
        GrownSizes(t, rs, tree[..nTree], rows, parentId);
        DividedNode(t[parentId], |t|, -1, left + right, feats, cfg);
      }
      SegmentRange(at, ub, right);
      ghost var t1, rs1, y1 := tree[..nTree], rows, Cols();
      if nTree >= tree.Length {
        AllOutside(y, y1, y1, lb, at, ub);
        Divided(t1, rs1, g, feats, cfg, tree.Length, parentId, left, right);
        return;
      }
      OpenGrowing();
      if ub - at >= cfg.minPartitionSize {
        GrowChild(parentId, false, at, ub, num4.nTR, num4.nHR, depth + 1, right);
        OpenGrowing();
        GrownOnce(t, rs, t1, rs1, tree[..nTree], rows, parentId);
        GrownSizes(t1, rs1, tree[..nTree], rows, parentId);
        DividedNode(t1[parentId], t1[parentId].lchild, |t1|, left + right, feats, cfg);
        AllFinishedLater(t1, rs1, tree[..nTree], rows, parentId, g, feats, cfg, tree.Length, |t|);
      }
      AllOutside(y, y1, Cols(), lb, at, ub);
      Divided(tree[..nTree], rows, g, feats, cfg, tree.Length, parentId, left, right);
    }
  }

  lemma AllOutside(y: seq<seq<Cell>>, y1: seq<seq<Cell>>, y2: seq<seq<Cell>>, lb: nat, at: nat, ub: nat)
    requires |y| == |y1| == |y2| && lb <= at <= ub
    requires forall j :: 0 <= j < |y| ==> SameOutside(y[j], y1[j], lb, at) && SameOutside(y1[j], y2[j], at, ub)
    ensures forall j :: 0 <= j < |y| ==> SameOutside(y[j], y2[j], lb, ub)
  {
    forall j | 0 <= j < |y|
      ensures SameOutside(y[j], y2[j], lb, ub)
    {
      SameOutsideWider(y[j], y1[j], lb, at, lb, ub);
      OutsideTwice(y[j], y1[j], y2[j], lb, ub, at, ub);
    }
  }

  lemma SameOutsideWider(y: seq<Cell>, y': seq<Cell>, lb: nat, ub: nat, a: nat, b: nat)
    requires SameOutside(y, y', lb, ub) && a <= lb && ub <= b <= |y|
    ensures SameOutside(y, y', a, b)
  {
    assert y'[..a] == y'[..lb][..a] && y[..a] == y[..lb][..a];
    assert y'[b..] == y'[ub..][b - ub..] && y[b..] == y[ub..][b - ub..];
  }

  lemma SeparatedBy(feats: seq<Feature>, j: nat, left: set<nat>, right: set<nat>)
    requires j < |feats| && Below(feats[j], left, right)
    ensures Separated(feats, left, right)
  {}

  lemma BestIsSplit(found: seq<Found>, j: nat)
    requires BestFeature(found, j)
    ensures j < |found| && found[j].splittable
  {}

  lemma SplitMeans(y: seq<Cell>, to: seq<nat>, g: seq<nat>, f: Feature, lb: nat, ub: nat, seg: set<nat>,
                   nT: nat, nH: nat, w: nat, minLeafSize: nat, mps: nat, size: nat, r: Found)
    requires ColumnOk(y, to, g, f) && ColumnSegment(y, to, f, lb, ub, seg) && Searchable(y, lb, ub, nT, nH) && nT > 0
    requires ResultFor(y, lb, ub, nT, nH, w, minLeafSize, mps, size, r) && r.splittable
    ensures lb < r.yidx + 1 < ub
    ensures var at := r.yidx + 1;
            var left, right := RowsIn(to, lb, at), RowsIn(to, at, ub);
            && left !! right && left + right == seg && Below(f, left, right)
            && r.num4.nTL == |WithGoal(left, g, true)| && r.num4.nHL == |WithGoal(left, g, false)|
            && r.num4.nTR == |WithGoal(right, g, true)| && r.num4.nHR == |WithGoal(right, g, false)|
            && r.num4.nTL + r.num4.nHL == at - lb && r.num4.nTR + r.num4.nHR == ub - at
  {
    hide RowsIn, WithGoal, Below, ChosenBy, CanSplit, Ranked, Inverse, GoalsMatch, Count;
    var fills, b :| ChosenBy(y, lb, ub, nT, nH, w, mps, size, fills, b, r);
    CanSplitRange(y, lb, ub, minLeafSize, mps, size);
    ChosenSplits(y, lb, ub, nT, nH, w, mps, size, fills, b, r);
    var at := r.yidx + 1;
    SplitsBelow(y, to, g, f, lb, at, ub, seg);
    CountRows(y, to, g, f, lb, at, true);
    CountRows(y, to, g, f, lb, at, false);
    CountRows(y, to, g, f, at, ub, true);
    CountRows(y, to, g, f, at, ub, false);
    CountsAddUp(y, lb, at);
    CountsAddUp(y, at, ub);
  }

  lemma EnoughRows(y: seq<Cell>, to: seq<nat>, g: seq<nat>, f: Feature, lb: nat, ub: nat, seg: set<nat>,
                   nT: nat, nH: nat, cfg: Config, r: Found)
    requires ColumnOk(y, to, g, f) && ColumnSegment(y, to, f, lb, ub, seg) && r.splittable
    requires ResultFor(y, lb, ub, nT, nH, cfg.gangWidth, cfg.minLeafSize, cfg.minPartitionSize, cfg.bufSize, r)
    ensures ub - lb >= 2 * cfg.minPartitionSize && ub - lb == |seg|
  {
    hide RowsIn, Ranked, ColumnOk, ChosenBy;
    RowCount(y, to, g, f, lb, ub);
  }

  lemma CanSplitRange(y: seq<Cell>, lb: nat, ub: nat, minLeafSize: nat, mps: nat, size: nat)
    requires ub <= |y| && CanSplit(y, lb, ub, minLeafSize, mps, size)
    ensures lb < ub
  {}

  lemma EndsDiffer(y: seq<Cell>, to: seq<nat>, g: seq<nat>, f: Feature, lb: nat, ub: nat)
    requires ColumnOk(y, to, g, f) && lb + 1 < ub <= |y|
    ensures y[lb] != y[ub - 1]
  {
    CellsDiffer(y, to, lb, ub - 1);
  }

  method MemCopy(y: array<Cell>, tmp: array<Cell>, lb: nat, ub: nat)
    requires lb <= ub <= y.Length == tmp.Length && y != tmp
    modifies y
    ensures y[..] == CopyBack(old(y[..]), tmp[..], lb, ub)
  {
    var i := lb;
    while i < ub
      invariant lb <= i <= ub
      invariant forall k :: 0 <= k < y.Length ==> y[k] == if lb <= k < i then tmp[k] else old(y[k])
    {
      y[i] := tmp[i];
      i := i + 1;
    }
  }

  lemma ReadyToSplit(y: seq<Cell>, to: seq<nat>, f: Feature, ySplit: seq<Cell>, toSplit: seq<nat>, fSplit: Feature,
                     g: seq<nat>, lb: nat, at: nat, ub: nat, seg: set<nat>)
    requires ColumnOk(y, to, g, f) && ColumnSegment(y, to, f, lb, ub, seg)
    requires ColumnOk(ySplit, toSplit, g, fSplit) && ColumnSegment(ySplit, toSplit, fSplit, lb, ub, seg)
    requires lb <= at <= ub
    ensures Ready(y, to, ySplit, toSplit, lb, at, ub)
  {
    RowsSame(to, toSplit, lb, ub);
  }

  // ---------------------------------------------------------------------------
  // From raw data to the finished tree

  /** Column j of the model holds the ranks of column j of the data. */
  ghost predicate Encodes(x: seq<real>, g: seq<nat>, y: seq<Cell>, to: seq<nat>, f: Feature) {
    && ColumnOk(y, to, g, f) && |x| == |g| == |y| && Ranked(y, 0, |y|) && Ordered(y, f.pos, 0, |y|) && Presorted(f)
    && forall r, q :: 0 <= r < |x| && 0 <= q < |x| ==> (f.val[r] < f.val[q] <==> x[r] < x[q])
  }

  lemma ColumnEncodes(x: seq<real>, g: seq<nat>, y: seq<Cell>, to: seq<nat>) returns (f: Feature)
    requires |x| == |g| == |y| && Inverse(y, to) && GoalsMatch(y, g) && Ranked(y, 0, |y|) && Preproc.RanksCompare(x, y, to)
    ensures Encodes(x, g, y, to, f)
  {
    f := Feature(seq(|to|, (r: nat) requires r < |to| => y[to[r]].yval), to);
  }

  method PreprocAll(x: seq<seq<real>>, g: seq<nat>) returns (ys: seq<array<Cell>>, tos: seq<array<nat>>, ghost feats: seq<Feature>)
    requires 0 < |g| < 0x8000_0000 && forall i :: 0 <= i < |g| ==> g[i] < 2
    requires forall j :: 0 <= j < |x| ==> |x[j]| == |g|
    ensures |ys| == |tos| == |feats| == |x|
    ensures forall j :: 0 <= j < |x| ==> fresh(ys[j]) && fresh(tos[j]) && ys[j].Length == tos[j].Length == |g|
    ensures forall j, k :: 0 <= j < k < |x| ==> ys[j] != ys[k] && tos[j] != tos[k]
    ensures forall j :: 0 <= j < |x| ==> Encodes(x[j], g, ys[j][..], tos[j][..], feats[j])
  {
    hide *;
    ys, tos, feats := [], [], [];
    var j := 0;
    while j < |x|
      invariant 0 <= j == |ys| == |tos| == |feats| <= |x|
      invariant forall k :: 0 <= k < j ==> fresh(ys[k]) && fresh(tos[k]) && ys[k].Length == tos[k].Length == |g|
      invariant forall k, l :: 0 <= k < l < j ==> ys[k] != ys[l] && tos[k] != tos[l]
      invariant forall k :: 0 <= k < j ==> Encodes(x[k], g, ys[k][..], tos[k][..], feats[k])
      modifies {}
    {
      var y, to := Preproc.PreprocJ(x[j], g);
      ghost var f := ColumnEncodes(x[j], g, y[..], to[..]);
      ys, tos, feats := ys + [y], tos + [to], feats + [f];
      j := j + 1;
    }
  }

  method Allocate(m: nat, n: nat, size: nat) returns (tmpYs: seq<array<Cell>>, ms: seq<Metrics>)
    ensures |tmpYs| == |ms| == m
    ensures forall j :: 0 <= j < m ==> fresh(tmpYs[j]) && tmpYs[j].Length == n
    ensures forall j, k :: 0 <= j < k < m ==> tmpYs[j] != tmpYs[k]
    ensures forall j :: 0 <= j < m ==> ms[j].Valid() && ms[j].metric.Length == size
    ensures fresh(Buffers(ms))
  {
    tmpYs, ms := [], [];
    var j := 0;
    while j < m
      invariant 0 <= j == |tmpYs| == |ms| <= m
      invariant forall k :: 0 <= k < j ==> fresh(tmpYs[k]) && tmpYs[k].Length == n
      invariant forall k, l :: 0 <= k < l < j ==> tmpYs[k] != tmpYs[l]
      invariant forall k :: 0 <= k < j ==> ms[k].Valid() && ms[k].metric.Length == size
      invariant forall k :: 0 <= k < j ==> fresh(ms[k].Arrays())
      modifies {}
    {
      var t := new Cell[n](_ => Cell(0, 0, 0));
      var m := new Metrics(size);
      tmpYs, ms := tmpYs + [t], ms + [m];
      j := j + 1;
    }
  }

  method CountGoals(g: seq<nat>) returns (nT: nat, nH: nat)
    requires forall i :: 0 <= i < |g| ==> g[i] < 2
    ensures nT == |WithGoal(Preproc.Upto(|g|), g, true)| && nH == |WithGoal(Preproc.Upto(|g|), g, false)|
    ensures nT + nH == |g|
  {
    hide WithGoal;
    nH := 0;
    var i := 0;
    NoGoals(g, true);
    NoGoals(g, false);
    while i < |g|
      invariant 0 <= i <= |g|
      invariant nH == |WithGoal(Preproc.Upto(i), g, false)|
      invariant i - nH == |WithGoal(Preproc.Upto(i), g, true)|
    {
      GoalOn(Preproc.Upto(i), i, g, true);
      GoalOn(Preproc.Upto(i), i, g, false);
      nH := nH + g[i];
      i := i + 1;
    }
    nT := |g| - nH;
  }

  lemma NoGoals(g: seq<nat>, tails: bool)
    ensures |WithGoal(Preproc.Upto(0), g, tails)| == 0
  {
    assert WithGoal({}, g, tails) == {};
  }

  /** In every feature the stored values compare as the raw data do. */
  ghost predicate ValuesOrdered(x: seq<seq<real>>, g: seq<nat>, feats: seq<Feature>) {
    && |feats| == |x|
    && forall j :: 0 <= j < |x| ==>
         && |x[j]| == |g| == |feats[j].val| && Presorted(feats[j])
         && forall r, q :: 0 <= r < |g| && 0 <= q < |g| ==> (feats[j].val[r] < feats[j].val[q] <==> x[j][r] < x[j][q])
  }

  lemma ValuesFromColumns(x: seq<seq<real>>, g: seq<nat>, ys: seq<array<Cell>>, tos: seq<array<nat>>, feats: seq<Feature>)
    requires |x| == |ys| == |tos| == |feats|
    requires forall j :: 0 <= j < |x| ==> Encodes(x[j], g, ys[j][..], tos[j][..], feats[j])
    ensures ValuesOrdered(x, g, feats)
  {
    forall j | 0 <= j < |x|
      ensures |x[j]| == |g| == |feats[j].val| && Presorted(feats[j])
      ensures forall r, q :: 0 <= r < |g| && 0 <= q < |g| ==> (feats[j].val[r] < feats[j].val[q] <==> x[j][r] < x[j][q])
    {
      assert Encodes(x[j], g, ys[j][..], tos[j][..], feats[j]);
    }
  }

  lemma ShapeFrom(b: Builder)
    requires |b.ys| == |b.tmpYs| == |b.tos| == |b.ms| == |b.feats| && |b.g| < 0x1_0000_0000 && b.cfg.bufSize > 0
    requires forall j :: 0 <= j < |b.ys| ==> b.ys[j].Length == b.tos[j].Length == |b.g|
    requires forall j :: 0 <= j < |b.ys| ==> b.tmpYs[j].Length == |b.g|
    requires forall j, k :: 0 <= j < k < |b.ys| ==> b.ys[j] != b.ys[k] && b.tos[j] != b.tos[k]
    requires forall j, k :: 0 <= j < k < |b.ys| ==> b.tmpYs[j] != b.tmpYs[k]
    requires forall j, k :: 0 <= j < |b.ys| && 0 <= k < |b.ys| ==> b.ys[j] != b.tmpYs[k]
    requires forall j :: 0 <= j < |b.ms| ==> b.ms[j].Valid() && b.ms[j].metric.Length == b.cfg.bufSize
    requires forall j :: 0 <= j < |b.tos| ==> b.tos[j] !in Buffers(b.ms)
    ensures b.Shape()
  {}

  lemma WholeSegment(y: seq<Cell>, to: seq<nat>, g: seq<nat>, f: Feature)
    requires ColumnOk(y, to, g, f) && Ranked(y, 0, |y|) && Ordered(y, f.pos, 0, |y|)
    ensures ColumnSegment(y, to, f, 0, |g|, Preproc.Upto(|g|))
  {
    assert forall r: nat :: r < |to| ==> y[to[r]].from == r;
  }

  /** The columns as made by preproc_j and the lone root are what split expects. */
  lemma Started(b: Builder, x: seq<seq<real>>, nT: nat, nH: nat)
    requires b.Shape() && |x| == |b.ys|
    requires forall j :: 0 <= j < |x| ==> Encodes(x[j], b.g, b.ys[j][..], b.tos[j][..], b.feats[j])
    requires b.tree.Length > 0 && b.nTree == 1 && b.tree[0] == Node(0, -1, -1, -1, nT, nH)
    requires b.rows == [Preproc.Upto(|b.g|)] && forall i :: 1 <= i < b.tree.Length ==> b.tree[i] == BLANK
    requires nT == |WithGoal(b.rows[0], b.g, true)| && nH == |WithGoal(b.rows[0], b.g, false)|
    ensures |b.ys| == |b.tos| == |b.feats|
    ensures b.ColumnsOk() && b.Segment(0, |b.g|, Preproc.Upto(|b.g|)) && b.Growing()
    ensures b.AtLeaf(nT, nH, 0, Preproc.Upto(|b.g|))
  {
    hide WithGoal, ColumnOk, Ranked, Ordered, ColumnSegment, Separated;
    forall j | 0 <= j < |b.ys|
      ensures ColumnOk(b.ys[j][..], b.tos[j][..], b.g, b.feats[j])
      ensures ColumnSegment(b.ys[j][..], b.tos[j][..], b.feats[j], 0, |b.g|, Preproc.Upto(|b.g|))
    {
      assert Encodes(x[j], b.g, b.ys[j][..], b.tos[j][..], b.feats[j]);
      WholeSegment(b.ys[j][..], b.tos[j][..], b.g, b.feats[j]);
    }
    assert b.tree[..1] == [b.tree[0]];
    assert NodeOk(b.tree[..1], b.rows, b.g, b.feats, 0);
  }

  /**
    * The whole run.  The tree meets every invariant, each node that could be
    * divided was, values compare as the raw data do, and the final check accepts
    * the tree exactly when the data has the minimum number of rows.
    */
  method Build(x: seq<seq<real>>, g: seq<nat>, cfg: Config, maxNodes: nat) returns (b: Builder, ok: bool)
    requires 0 < |g| < 0x8000_0000 && forall i :: 0 <= i < |g| ==> g[i] < 2
    requires forall j :: 0 <= j < |x| ==> |x[j]| == |g|
    requires cfg.bufSize > 0 && maxNodes > 0
    ensures fresh(b) && 0 < b.nTree == |b.rows| <= b.tree.Length == maxNodes
    ensures ValuesOrdered(x, g, b.feats)
    ensures TreeOk(b.tree[..b.nTree], b.rows, g, b.feats, cfg.minPartitionSize, cfg.maxDepth)
    ensures b.rows[0] == Preproc.Upto(|g|)
    ensures forall i :: 0 <= i < b.nTree ==> Finished(b.tree[..b.nTree], b.rows, g, b.feats, cfg, maxNodes, i)
    ensures forall i :: 0 <= i < b.nTree && HasChild(b.tree[..b.nTree], i) && |b.rows[i]| <= cfg.bufSize ==>
              AtBestCut(b.tree[..b.nTree], b.rows, g, b.feats, cfg, i)
    ensures ok <==> |g| >= cfg.minPartitionSize
  {
    hide *;
    var ys, tos;
    ghost var feats;
    ys, tos, feats := PreprocAll(x, g);
    ValuesFromColumns(x, g, ys, tos, feats);
    var tmpYs, ms := Allocate(|x|, |g|, cfg.bufSize);
    var nT, nH := CountGoals(g);
    b := new Builder(cfg, g, ys, tmpYs, tos, ms, maxNodes, nT, nH, feats);
    ShapeFrom(b);
    Started(b, x, nT, nH);
    ghost var t, rs := b.tree[..1], b.rows;
    b.Split(0, |g|, nT, nH, 0, Preproc.Upto(|g|));
    b.OpenGrowing();
    GrownSizes(t, rs, b.tree[..b.nTree], b.rows, 0);
    forall i | 0 <= i < b.nTree && HasChild(b.tree[..b.nTree], i) && |b.rows[i]| <= cfg.bufSize
      ensures AtBestCut(b.tree[..b.nTree], b.rows, g, b.feats, cfg, i)
    {
      BestWhereItFits(b.tree[..b.nTree], b.rows, g, b.feats, cfg, maxNodes, i);
    }
    TreePasses(b.tree[..b.nTree], b.rows, g, b.feats, cfg.minPartitionSize, cfg.maxDepth);
    ok := CheckTree(b.tree, b.nTree, cfg.minPartitionSize, cfg.maxDepth);
  }
}
