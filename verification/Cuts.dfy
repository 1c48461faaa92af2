/**
  * What a split is in terms of rows: how the cells of a column stand for rows with
  * goals and values, where a feature can cut a set of rows, and that the cut which
  * search reports (DT/src/search.c) is the best of all of them.
  */
module Cuts {
  import opened Columns
  import opened Gini
  import opened Search

  /** One feature: the rank of each row's value, and the row's place in the column that preproc_j made. */
  datatype Feature = Feature(val: seq<nat>, pos: seq<nat>)

  /** No two rows have the same place, and places are in the order of values. */
  ghost predicate Presorted(f: Feature) {
    && |f.val| == |f.pos|
    && (forall r, q :: 0 <= r < |f.pos| && 0 <= q < |f.pos| && r != q ==> f.pos[r] != f.pos[q])
    && (forall r, q :: 0 <= r < |f.pos| && 0 <= q < |f.pos| && f.pos[r] < f.pos[q] ==> f.val[r] <= f.val[q])
  }

  /** The settings that decide when to stop; a gang width of 0 stands for the scalar build. */
  datatype Config = Config(maxDepth: nat, minLeafSize: nat, minPartitionSize: nat, bufSize: nat, gangWidth: nat)

  /** The rows of a set whose goal is 0 (tails) or is not (heads). */
  function WithGoal(rows: set<nat>, g: seq<nat>, tails: bool): set<nat> {
    set r | r in rows && r < |g| && (g[r] == 0) == tails
  }

  lemma GoalsAddUp(left: set<nat>, right: set<nat>, g: seq<nat>, tails: bool)
    requires left !! right
    ensures |WithGoal(left + right, g, tails)| == |WithGoal(left, g, tails)| + |WithGoal(right, g, tails)|
  {
    assert WithGoal(left + right, g, tails) == WithGoal(left, g, tails) + WithGoal(right, g, tails);
  }

  /** No row on the left has a greater value than a row on the right. */
  ghost predicate Below(f: Feature, left: set<nat>, right: set<nat>) {
    forall r, q :: r in left && q in right ==> r < |f.val| && q < |f.val| && f.val[r] <= f.val[q]
  }

  // ---------------------------------------------------------------------------
  // One column and one segment of it

  /** The column is a permutation with its inverse, and each row's cell holds its goal and its value. */
  ghost predicate ColumnOk(y: seq<Cell>, to: seq<nat>, g: seq<nat>, f: Feature) {
    && Inverse(y, to) && GoalsMatch(y, g) && |f.val| == |f.pos| == |to| == |g|
    && forall r :: 0 <= r < |to| ==> y[to[r]].yval == f.val[r]
  }

  function RowsIn(to: seq<nat>, lb: nat, ub: nat): set<nat> {
    set r: nat | r < |to| && lb <= to[r] < ub
  }

  /** The segment is in rank order, in the order of the presorting, and holds exactly the rows seg. */
  ghost predicate ColumnSegment(y: seq<Cell>, to: seq<nat>, f: Feature, lb: nat, ub: nat, seg: set<nat>) {
    lb <= ub <= |y| && Ranked(y, lb, ub) && Ordered(y, f.pos, lb, ub) && RowsIn(to, lb, ub) == seg
  }

  /** One more position adds one row. */
  lemma RowsOn(y: seq<Cell>, to: seq<nat>, lb: nat, ub: nat)
    requires Inverse(y, to) && lb <= ub < |y|
    ensures RowsIn(to, lb, ub + 1) == RowsIn(to, lb, ub) + {y[ub].from} && y[ub].from !in RowsIn(to, lb, ub)
  {
    forall q: nat | q < |to|
      ensures to[q] == ub <==> q == y[ub].from
    {
      assert y[to[q]].from == q;
    }
  }

  lemma GoalOn(rows: set<nat>, r: nat, g: seq<nat>, tails: bool)
    requires r < |g| && r !in rows
    ensures |WithGoal(rows + {r}, g, tails)| == |WithGoal(rows, g, tails)| + if (g[r] == 0) == tails then 1 else 0
  {
    var w := WithGoal(rows, g, tails);
    if (g[r] == 0) == tails {
      assert WithGoal(rows + {r}, g, tails) == w + {r};
    } else {
      assert WithGoal(rows + {r}, g, tails) == w;
    }
  }

  /** Counting cells of a segment is counting its rows. */
  lemma {:induction false} CountRows(y: seq<Cell>, to: seq<nat>, g: seq<nat>, f: Feature, lb: nat, ub: nat, tails: bool)
    requires ColumnOk(y, to, g, f) && lb <= ub <= |y|
    ensures Count(y, lb, ub, tails) == |WithGoal(RowsIn(to, lb, ub), g, tails)|
    decreases ub
  {
    hide RowsIn, WithGoal;
    if lb == ub {
      NoRows(to, lb, g, tails);
    } else {
      CountRows(y, to, g, f, lb, ub - 1, tails);
      RowsOn(y, to, lb, ub - 1);
      GoalOn(RowsIn(to, lb, ub - 1), y[ub - 1].from, g, tails);
    }
  }

  lemma NoRows(to: seq<nat>, lb: nat, g: seq<nat>, tails: bool)
    ensures |WithGoal(RowsIn(to, lb, lb), g, tails)| == 0
  {
    assert RowsIn(to, lb, lb) == {};
  }

  lemma GoalsCover(rows: set<nat>, g: seq<nat>)
    requires forall r :: r in rows ==> r < |g|
    ensures |rows| == |WithGoal(rows, g, true)| + |WithGoal(rows, g, false)|
  {
    var tails, heads := WithGoal(rows, g, true), WithGoal(rows, g, false);
    assert rows == tails + heads;
    assert tails !! heads;
  }

  /** A segment has as many rows as positions. */
  lemma RowCount(y: seq<Cell>, to: seq<nat>, g: seq<nat>, f: Feature, lb: nat, ub: nat)
    requires ColumnOk(y, to, g, f) && lb <= ub <= |y|
    ensures |RowsIn(to, lb, ub)| == ub - lb
  {
    hide WithGoal, Count;
    CountRows(y, to, g, f, lb, ub, true);
    CountRows(y, to, g, f, lb, ub, false);
    CountsAddUp(y, lb, ub);
    GoalsCover(RowsIn(to, lb, ub), g);
  }

  lemma Subset(a: set<nat>, b: set<nat>)
    requires a <= b
    ensures |a| <= |b|
  {
    assert b == a + (b - a);
  }

  /** The splitting column itself: rows below the split position have no greater values than rows above it. */
  lemma SplitsBelow(y: seq<Cell>, to: seq<nat>, g: seq<nat>, f: Feature, lb: nat, at: nat, ub: nat, seg: set<nat>)
    requires ColumnOk(y, to, g, f) && ColumnSegment(y, to, f, lb, ub, seg) && lb <= at <= ub
    ensures var left, right := RowsIn(to, lb, at), RowsIn(to, at, ub);
            && Below(f, left, right) && left !! right && left + right == seg
            && ColumnSegment(y, to, f, lb, at, left) && ColumnSegment(y, to, f, at, ub, right)
  {
    var left, right := RowsIn(to, lb, at), RowsIn(to, at, ub);
    forall r, q | r in left && q in right
      ensures r < |f.val| && q < |f.val| && f.val[r] <= f.val[q]
    {
      assert y[to[r]].yval == f.val[r] && y[to[q]].yval == f.val[q];
    }
    assert RowsIn(to, lb, ub) == left + right;
  }

  // ---------------------------------------------------------------------------
  // Cutting a set of rows

  /** The rows that come before row c in the order of the feature. */
  function Before(f: Feature, rows: set<nat>, c: nat): set<nat> {
    set r | r in rows && r < |f.pos| && c < |f.pos| && f.pos[r] < f.pos[c]
  }

  /**
    * The rows can be cut in front of row c: either half is large enough, c is not among
    * the rows of least value, and the halves differ in value - unless this is the first
    * cut that leaves enough rows on the left.
    */
  ghost predicate Admissible(f: Feature, rows: set<nat>, cfg: Config, c: nat) {
    var left, q := Before(f, rows, c), AtLeastOne(cfg.minPartitionSize);
    && c in rows && c < |f.val|
    && |left| >= q && |rows - left| >= q
    && (exists r :: r in rows && r < |f.val| && f.val[r] < f.val[c])
    && ((forall r :: r in left ==> r < |f.val| && f.val[r] < f.val[c]) || |left| == q)
  }

  /** The weighted impurity of two sets of rows. */
  function Weight(g: seq<nat>, left: set<nat>, right: set<nat>): real {
    var nTL, nHL := |WithGoal(left, g, true)|, |WithGoal(left, g, false)|;
    var nTR, nHR := |WithGoal(right, g, true)|, |WithGoal(right, g, false)|;
    if nTL + nHL > 0 && nTR + nHR > 0 then Weighted(nTL as real, nHL as real, nTR as real, nHR as real) else BAD
  }

  function CutWeight(f: Feature, g: seq<nat>, rows: set<nat>, c: nat): real {
    Weight(g, Before(f, rows, c), rows - Before(f, rows, c))
  }

  /** No cut of feature f weighs more than v. */
  ghost predicate NoneAbove(f: Feature, g: seq<nat>, rows: set<nat>, cfg: Config, v: real) {
    forall c: nat {:trigger Admissible(f, rows, cfg, c)} :: Admissible(f, rows, cfg, c) ==> CutWeight(f, g, rows, c) <= v
  }

  /** Every cut of feature f weighs less than v. */
  ghost predicate AllLess(f: Feature, g: seq<nat>, rows: set<nat>, cfg: Config, v: real) {
    forall c: nat {:trigger Admissible(f, rows, cfg, c)} :: Admissible(f, rows, cfg, c) ==> CutWeight(f, g, rows, c) < v
  }

  /** So does every cut in front of an earlier row than c. */
  ghost predicate EarlierLess(f: Feature, g: seq<nat>, rows: set<nat>, cfg: Config, v: real, c: nat) {
    forall d: nat {:trigger Admissible(f, rows, cfg, d)} ::
      Admissible(f, rows, cfg, d) && d in Before(f, rows, c) ==> CutWeight(f, g, rows, d) < v
  }

  /**
    * The cut of feature j in front of row c is one of the greatest weight over all
    * features; earlier features have only lesser ones, and so have, in the scalar
    * build, the earlier rows of feature j.
    */
  ghost predicate BestCut(feats: seq<Feature>, g: seq<nat>, rows: set<nat>, cfg: Config, j: nat, c: nat) {
    && j < |feats| && Admissible(feats[j], rows, cfg, c)
    && var v := CutWeight(feats[j], g, rows, c);
       && (forall k: nat :: k < |feats| ==> NoneAbove(feats[k], g, rows, cfg, v))
       && (forall k: nat :: k < j ==> AllLess(feats[k], g, rows, cfg, v))
       && (cfg.gangWidth == 0 ==> EarlierLess(feats[j], g, rows, cfg, v, c))
  }

  /** left and right are the two sides of a best cut. */
  ghost predicate CutBest(feats: seq<Feature>, g: seq<nat>, rows: set<nat>, cfg: Config, left: set<nat>, right: set<nat>) {
    exists j: nat, c: nat :: BestCut(feats, g, rows, cfg, j, c) && left == Before(feats[j], rows, c) && right == rows - left
  }

  /** Cutting a column at position p is cutting its rows in front of the row there. */
  lemma PlaceRows(y: seq<Cell>, to: seq<nat>, g: seq<nat>, f: Feature, lb: nat, ub: nat, rows: set<nat>, p: nat)
    requires ColumnOk(y, to, g, f) && ColumnSegment(y, to, f, lb, ub, rows) && lb <= p < ub
    ensures y[p].from in rows && y[p].from < |to| && to[y[p].from] == p
    ensures Before(f, rows, y[p].from) == RowsIn(to, lb, p) && rows - Before(f, rows, y[p].from) == RowsIn(to, p, ub)
  {
    var c := y[p].from;
    assert to[c] == p;
    forall r: nat | r in rows
      ensures r < |f.pos| && c < |f.pos| && (f.pos[r] < f.pos[c] <==> to[r] < p)
    {
      assert y[to[r]].from == r;
    }
  }

  lemma PlaceIsAdmissible(y: seq<Cell>, to: seq<nat>, g: seq<nat>, f: Feature, lb: nat, ub: nat, rows: set<nat>, cfg: Config, p: nat)
    requires ColumnOk(y, to, g, f) && ColumnSegment(y, to, f, lb, ub, rows) && lb <= p < ub
    ensures Place(y, lb, ub, cfg.minPartitionSize, p) <==> Admissible(f, rows, cfg, y[p].from)
  {
    hide Ordered, RowsIn, Before;
    var c, q := y[p].from, AtLeastOne(cfg.minPartitionSize);
    PlaceRows(y, to, g, f, lb, ub, rows, p);
    RowCount(y, to, g, f, lb, p);
    RowCount(y, to, g, f, p, ub);
    AboveSome(y, to, g, f, lb, ub, rows, p);
    if lb < p {
      AboveAll(y, to, g, f, lb, ub, rows, p);
    }
  }

  lemma AboveSome(y: seq<Cell>, to: seq<nat>, g: seq<nat>, f: Feature, lb: nat, ub: nat, rows: set<nat>, p: nat)
    requires ColumnOk(y, to, g, f) && ColumnSegment(y, to, f, lb, ub, rows) && lb <= p < ub
    ensures y[p].from < |f.val|
    ensures y[p].yval != y[lb].yval <==> exists r :: r in rows && r < |f.val| && f.val[r] < f.val[y[p].from]
  {
    var c, least := y[p].from, y[lb].from;
    assert to[c] == p && to[least] == lb;
    assert f.val[c] == y[p].yval && f.val[least] == y[lb].yval && least in rows;
    if y[p].yval == y[lb].yval {
      forall r | r in rows && r < |f.val|
        ensures f.val[r] >= f.val[c]
      {
        assert y[to[r]].yval == f.val[r];
      }
    }
  }

  lemma AboveAll(y: seq<Cell>, to: seq<nat>, g: seq<nat>, f: Feature, lb: nat, ub: nat, rows: set<nat>, p: nat)
    requires ColumnOk(y, to, g, f) && ColumnSegment(y, to, f, lb, ub, rows) && lb < p < ub
    ensures y[p].from < |f.val|
    ensures y[p - 1].yval != y[p].yval <==> forall r :: r in RowsIn(to, lb, p) ==> r < |f.val| && f.val[r] < f.val[y[p].from]
  {
    var c, last := y[p].from, y[p - 1].from;
    assert to[c] == p && to[last] == p - 1;
    assert f.val[c] == y[p].yval && f.val[last] == y[p - 1].yval && last in RowsIn(to, lb, p);
    forall r | r in RowsIn(to, lb, p)
      ensures r < |f.val| && f.val[r] <= f.val[last] <= f.val[c]
    {
      assert y[to[r]].yval == f.val[r];
    }
  }

  /** The score of a candidate is the weight of the cut at its end. */
  lemma ScoreIsWeight(y: seq<Cell>, to: seq<nat>, g: seq<nat>, f: Feature, lb: nat, ub: nat, rows: set<nat>, nT: nat, nH: nat, c: Candidate)
    requires ColumnOk(y, to, g, f) && ColumnSegment(y, to, f, lb, ub, rows)
    requires Totals(y, lb, ub, nT, nH) && nT > 0 && Exact(y, lb, ub, c) && c.yidx + 1 < ub
    ensures Score(c, nT, nH) == CutWeight(f, g, rows, y[c.yidx + 1].from)
  {
    hide Count, Weighted, RowsIn, WithGoal, Before, ColumnOk, ColumnSegment;
    var p := c.yidx + 1;
    ScoreOfExact(y, lb, ub, c, nT, nH);
    SegmentBounds(y, to, f, lb, ub, rows);
    ExactCounts(y, lb, ub, c);
    PlaceRows(y, to, g, f, lb, ub, rows, p);
    CountJoins(y, lb, p, ub, true);
    CountJoins(y, lb, p, ub, false);
    CountRows(y, to, g, f, lb, p, true);
    CountRows(y, to, g, f, lb, p, false);
    CountRows(y, to, g, f, p, ub, true);
    CountRows(y, to, g, f, p, ub, false);
    CountsAddUp(y, p, ub);
  }

  lemma SegmentBounds(y: seq<Cell>, to: seq<nat>, f: Feature, lb: nat, ub: nat, rows: set<nat>)
    requires ColumnSegment(y, to, f, lb, ub, rows)
    ensures lb <= ub <= |y| && Ranked(y, lb, ub) && RowsIn(to, lb, ub) == rows
  {}

  // ---------------------------------------------------------------------------
  // What search reports, in terms of rows

  /** r is what search_j finds in a column that holds these rows in lb..ub-1. */
  ghost predicate FoundIn(y: seq<Cell>, to: seq<nat>, g: seq<nat>, f: Feature, lb: nat, ub: nat, rows: set<nat>, cfg: Config, r: Found) {
    && ColumnOk(y, to, g, f) && ColumnSegment(y, to, f, lb, ub, rows)
    && ResultFor(y, lb, ub, |WithGoal(rows, g, true)|, |WithGoal(rows, g, false)|, cfg.gangWidth,
                 cfg.minLeafSize, cfg.minPartitionSize, cfg.bufSize, r)
  }

  /** Search has been over all features, in columns that hold these rows, and has chosen feature j. */
  ghost predicate Reported(feats: seq<Feature>, g: seq<nat>, rows: set<nat>, cfg: Config,
                           ys: seq<seq<Cell>>, tos: seq<seq<nat>>, lb: nat, ub: nat, found: seq<Found>, j: nat)
  {
    && |feats| == |ys| == |tos| == |found| && |g| < 0x1_0000_0000
    && WithGoal(rows, g, true) != {}
    && (forall k: nat :: k < |feats| ==> FoundIn(ys[k], tos[k], g, feats[k], lb, ub, rows, cfg, found[k]))
    && BestFeature(found, j)
  }

  /** left and right are the two sides of a division that search reports, for a buffer of any size and in either build. */
  ghost predicate Divides(feats: seq<Feature>, g: seq<nat>, rows: set<nat>, cfg: Config, left: set<nat>, right: set<nat>) {
    exists ys: seq<seq<Cell>>, tos: seq<seq<nat>>, lb: nat, ub: nat, found: seq<Found>, j: nat ::
      && Reported(feats, g, rows, cfg, ys, tos, lb, ub, found, j)
      && left == RowsIn(tos[j], lb, found[j].yidx + 1) && right == RowsIn(tos[j], found[j].yidx + 1, ub)
  }

  /** The candidates of a segment that fits the buffer, and which of them is reported. */
  lemma OneFillFound(y: seq<Cell>, to: seq<nat>, g: seq<nat>, f: Feature, lb: nat, ub: nat, rows: set<nat>, cfg: Config, r: Found)
    returns (cands: seq<Candidate>, b: nat)
    requires FoundIn(y, to, g, f, lb, ub, rows, cfg, r) && r.splittable && |g| < 0x1_0000_0000
    requires WithGoal(rows, g, true) != {} && |rows| <= cfg.bufSize
    ensures lb < ub <= |y| < 0x1_0000_0000 && Ranked(y, lb, ub)
    ensures Totals(y, lb, ub, |WithGoal(rows, g, true)|, |WithGoal(rows, g, false)|)
    ensures Filled(Fill(y, lb, ub, 0, 0, cfg.minPartitionSize), cfg.bufSize, cands, ub)
    ensures forall k :: 0 <= k < |cands| ==> Exact(y, lb, ub, cands[k])
    ensures var nT, nH := |WithGoal(rows, g, true)|, |WithGoal(rows, g, false)|;
            && Best(cands, nT, nH, cfg.gangWidth, b) && r.yidx == cands[b].yidx && r.metric == Score(cands[b], nT, nH) > BAD
  {
    hide Filled, Best, Score, Exact, Count, RowsIn, WithGoal, CanSplit, PickedIn, Ranked, Ordered, Concat;
    var nT, nH := |WithGoal(rows, g, true)|, |WithGoal(rows, g, false)|;
    SegmentBounds(y, to, f, lb, ub, rows);
    CountRows(y, to, g, f, lb, ub, true);
    CountRows(y, to, g, f, lb, ub, false);
    RowCount(y, to, g, f, lb, ub);
    var fills, at :| ChosenBy(y, lb, ub, nT, nH, cfg.gangWidth, cfg.minPartitionSize, cfg.bufSize, fills, at, r);
    SplitsNonEmpty(y, lb, ub, cfg);
    NoRefill(y, lb, ub, cfg.minPartitionSize, cfg.bufSize, fills, ub);
    ConcatOne(fills[0]);
    assert fills == [fills[0]];
    RunExact(y, lb, ub, cfg.minPartitionSize, cfg.bufSize, fills, ub);
    cands, b := fills[0], at;
    FillNonEmpty(Fill(y, lb, ub, 0, 0, cfg.minPartitionSize), cfg.bufSize, cands, ub);
  }

  lemma SplitsNonEmpty(y: seq<Cell>, lb: nat, ub: nat, cfg: Config)
    requires ub <= |y|
    ensures CanSplit(y, lb, ub, cfg.minLeafSize, cfg.minPartitionSize, cfg.bufSize) ==> lb < ub
  {}

  lemma FillNonEmpty(fill: Fill, size: nat, cands: seq<Candidate>, next: nat)
    requires Filled(fill, size, cands, next)
    ensures cands != []
  {}

  /** One feature: the reported cut is admissible, and its weight is the greatest of the feature. */
  lemma FeatureBest(y: seq<Cell>, to: seq<nat>, g: seq<nat>, f: Feature, lb: nat, ub: nat, rows: set<nat>, cfg: Config, r: Found)
    requires FoundIn(y, to, g, f, lb, ub, rows, cfg, r) && r.splittable && |g| < 0x1_0000_0000
    requires WithGoal(rows, g, true) != {} && |rows| <= cfg.bufSize
    ensures lb < r.yidx + 1 < ub <= |y|
    ensures var c := y[r.yidx + 1].from;
            && Admissible(f, rows, cfg, c) && CutWeight(f, g, rows, c) == r.metric
            && Before(f, rows, c) == RowsIn(to, lb, r.yidx + 1) && rows - Before(f, rows, c) == RowsIn(to, r.yidx + 1, ub)
            && NoneAbove(f, g, rows, cfg, r.metric)
            && (cfg.gangWidth == 0 ==> EarlierLess(f, g, rows, cfg, r.metric, c))
  {
    hide Filled, Score, Exact, Count, RowsIn, WithGoal, ResultFor, Ranked, Admissible, Place, CutWeight, Before, Ordered;
    var nT, nH := |WithGoal(rows, g, true)|, |WithGoal(rows, g, false)|;
    var cands, b := OneFillFound(y, to, g, f, lb, ub, rows, cfg, r);
    var fill := Fill(y, lb, ub, 0, 0, cfg.minPartitionSize);
    BestEnds(y, lb, ub, nT, nH, cands[b]);
    EndIsPlace(fill, cfg.bufSize, cands, b);
    var c := y[r.yidx + 1].from;
    PlaceRows(y, to, g, f, lb, ub, rows, r.yidx + 1);
    PlaceIsAdmissible(y, to, g, f, lb, ub, rows, cfg, r.yidx + 1);
    ScoreIsWeight(y, to, g, f, lb, ub, rows, nT, nH, cands[b]);
    forall d: nat | Admissible(f, rows, cfg, d)
      ensures CutWeight(f, g, rows, d) <= r.metric
      ensures cfg.gangWidth == 0 && d in Before(f, rows, c) ==> CutWeight(f, g, rows, d) < r.metric
    {
      var k := CandidateAt(y, to, g, f, lb, ub, rows, cfg, cands, d);
      assert CutWeight(f, g, rows, d) == Score(cands[k], nT, nH);
      if d in Before(f, rows, c) {
        EarlierPlace(y, to, g, f, lb, ub, rows, d, r.yidx + 1);
        FillGroups(fill, cfg.bufSize, cands, ub);
        if b <= k {
          EndsAscend(fill, cands, ub, b, k);
        }
      }
    }
  }

  lemma BestEnds(y: seq<Cell>, lb: nat, ub: nat, nT: nat, nH: nat, c: Candidate)
    requires Exact(y, lb, ub, c) && Totals(y, lb, ub, nT, nH) && Score(c, nT, nH) > BAD
    ensures lb <= c.yidx && c.yidx + 1 < ub
  {
    hide Count, Score;
    ScoreOfExact(y, lb, ub, c, nT, nH);
    ExactCounts(y, lb, ub, c);
  }

  /** The candidate that stands for a cut. */
  lemma CandidateAt(y: seq<Cell>, to: seq<nat>, g: seq<nat>, f: Feature, lb: nat, ub: nat, rows: set<nat>, cfg: Config,
                    cands: seq<Candidate>, d: nat) returns (k: nat)
    requires ColumnOk(y, to, g, f) && ColumnSegment(y, to, f, lb, ub, rows) && lb < ub <= |y| < 0x1_0000_0000
    requires WithGoal(rows, g, true) != {} && Totals(y, lb, ub, |WithGoal(rows, g, true)|, |WithGoal(rows, g, false)|)
    requires Filled(Fill(y, lb, ub, 0, 0, cfg.minPartitionSize), cfg.bufSize, cands, ub)
    requires forall k :: 0 <= k < |cands| ==> Exact(y, lb, ub, cands[k])
    requires Admissible(f, rows, cfg, d)
    ensures k < |cands| && d < |to| && cands[k].yidx + 1 == to[d] < ub
    ensures CutWeight(f, g, rows, d) == Score(cands[k], |WithGoal(rows, g, true)|, |WithGoal(rows, g, false)|)
  {
    hide Filled, Score, Exact, Count, WithGoal, Place, CutWeight, Before, Ordered, Totals;
    assert d in rows && rows == RowsIn(to, lb, ub);
    var p := to[d];
    assert y[p].from == d;
    PlaceIsAdmissible(y, to, g, f, lb, ub, rows, cfg, p);
    k := PlaceIsEnd(Fill(y, lb, ub, 0, 0, cfg.minPartitionSize), cfg.bufSize, cands, p);
    ScoreIsWeight(y, to, g, f, lb, ub, rows, |WithGoal(rows, g, true)|, |WithGoal(rows, g, false)|, cands[k]);
  }

  lemma EarlierPlace(y: seq<Cell>, to: seq<nat>, g: seq<nat>, f: Feature, lb: nat, ub: nat, rows: set<nat>, d: nat, p: nat)
    requires ColumnOk(y, to, g, f) && ColumnSegment(y, to, f, lb, ub, rows) && lb <= p < ub
    requires d in Before(f, rows, y[p].from)
    ensures d < |to| && to[d] < p
  {
    PlaceRows(y, to, g, f, lb, ub, rows, p);
  }

  /** A feature that can be cut can be split. */
  lemma CutsSplit(y: seq<Cell>, to: seq<nat>, g: seq<nat>, f: Feature, lb: nat, ub: nat, rows: set<nat>, cfg: Config, d: nat)
    requires ColumnOk(y, to, g, f) && ColumnSegment(y, to, f, lb, ub, rows) && Admissible(f, rows, cfg, d)
    requires ub - lb > cfg.minLeafSize && cfg.bufSize >= 2
    ensures CanSplit(y, lb, ub, cfg.minLeafSize, cfg.minPartitionSize, cfg.bufSize)
  {
    hide Ordered, Admissible;
    InRows(f, rows, cfg, d);
    assert rows == RowsIn(to, lb, ub);
    var p, q := to[d], AtLeastOne(cfg.minPartitionSize);
    assert y[p].from == d;
    PlaceIsAdmissible(y, to, g, f, lb, ub, rows, cfg, p);
    assert p == ub - q || y[p].yval <= y[ub - q].yval;
    assert y[lb].yval <= y[p].yval;
  }

  lemma InRows(f: Feature, rows: set<nat>, cfg: Config, d: nat)
    requires Admissible(f, rows, cfg, d)
    ensures d in rows
  {}

  /** How the cuts of feature k compare with the one that was chosen. */
  lemma OtherFeature(feats: seq<Feature>, g: seq<nat>, rows: set<nat>, cfg: Config,
                     ys: seq<seq<Cell>>, tos: seq<seq<nat>>, lb: nat, ub: nat, found: seq<Found>, j: nat, k: nat)
    requires Reported(feats, g, rows, cfg, ys, tos, lb, ub, found, j) && |rows| <= cfg.bufSize && k < |feats|
    ensures j < |found|
    ensures NoneAbove(feats[k], g, rows, cfg, found[j].metric)
    ensures k < j ==> AllLess(feats[k], g, rows, cfg, found[j].metric)
  {
    hide ColumnOk, ColumnSegment, ChosenBy, CanSplit, Admissible, CutWeight, WithGoal;
    assert FoundIn(ys[j], tos[j], g, feats[j], lb, ub, rows, cfg, found[j]);
    assert FoundIn(ys[k], tos[k], g, feats[k], lb, ub, rows, cfg, found[k]);
    if found[k].splittable {
      FeatureBest(ys[k], tos[k], g, feats[k], lb, ub, rows, cfg, found[k]);
    } else {
      SplitSizes(ys[j], lb, ub, cfg);
      forall c: nat
        ensures !Admissible(feats[k], rows, cfg, c)
      {
        if Admissible(feats[k], rows, cfg, c) {
          CutsSplit(ys[k], tos[k], g, feats[k], lb, ub, rows, cfg, c);
        }
      }
    }
  }

  lemma SplitSizes(y: seq<Cell>, lb: nat, ub: nat, cfg: Config)
    requires ub <= |y| && CanSplit(y, lb, ub, cfg.minLeafSize, cfg.minPartitionSize, cfg.bufSize)
    ensures ub - lb > cfg.minLeafSize && cfg.bufSize >= 2
  {}

  /** Where a set of rows that fits the candidate buffer is divided, it is at a best cut. */
  lemma DividesAtBest(feats: seq<Feature>, g: seq<nat>, rows: set<nat>, cfg: Config, left: set<nat>, right: set<nat>)
    requires Divides(feats, g, rows, cfg, left, right) && |rows| <= cfg.bufSize
    ensures CutBest(feats, g, rows, cfg, left, right)
  {
    hide FoundIn, Admissible, CutWeight, Before, RowsIn, NoneAbove, AllLess, EarlierLess, WithGoal;
    var ys: seq<seq<Cell>>, tos: seq<seq<nat>>, lb: nat, ub: nat, found: seq<Found>, j: nat :|
      && Reported(feats, g, rows, cfg, ys, tos, lb, ub, found, j)
      && left == RowsIn(tos[j], lb, found[j].yidx + 1) && right == RowsIn(tos[j], found[j].yidx + 1, ub);
    assert FoundIn(ys[j], tos[j], g, feats[j], lb, ub, rows, cfg, found[j]);
    FeatureBest(ys[j], tos[j], g, feats[j], lb, ub, rows, cfg, found[j]);
    forall k: nat | k < |feats|
      ensures NoneAbove(feats[k], g, rows, cfg, found[j].metric)
      ensures k < j ==> AllLess(feats[k], g, rows, cfg, found[j].metric)
    {
      OtherFeature(feats, g, rows, cfg, ys, tos, lb, ub, found, j, k);
    }
    assert BestCut(feats, g, rows, cfg, j, ys[j][found[j].yidx + 1].from);
  }

  // ---------------------------------------------------------------------------
  // Cuts between different values

  ghost predicate StrictlyBelow(f: Feature, left: set<nat>, right: set<nat>) {
    forall r, q :: r in left && q in right ==> r < |f.val| && q < |f.val| && f.val[r] < f.val[q]
  }

  /** With a minimum of at most 1 every cut is between two values. */
  lemma SmallLimitStrict(f: Feature, rows: set<nat>, cfg: Config, c: nat)
    requires Presorted(f) && (forall r :: r in rows ==> r < |f.val|) && Admissible(f, rows, cfg, c) && cfg.minPartitionSize <= 1
    ensures StrictlyBelow(f, Before(f, rows, c), rows - Before(f, rows, c))
  {
    LeftLess(f, rows, cfg, c);
    forall r, q | r in Before(f, rows, c) && q in rows - Before(f, rows, c)
      ensures f.val[r] < f.val[q]
    {
      RightAtLeast(f, rows, c, q);
    }
  }

  lemma LeftLess(f: Feature, rows: set<nat>, cfg: Config, c: nat)
    requires Presorted(f) && Admissible(f, rows, cfg, c) && cfg.minPartitionSize <= 1
    ensures forall r :: r in Before(f, rows, c) ==> r < |f.val| && f.val[r] < f.val[c]
  {
    var left := Before(f, rows, c);
    if |left| == 1 {
      var least :| least in rows && least < |f.val| && f.val[least] < f.val[c];
      assert f.pos[least] < f.pos[c];
      Single(left, least);
    }
  }

  lemma Single(s: set<nat>, x: nat)
    requires |s| == 1 && x in s
    ensures s == {x}
  {
    assert s == {x} + (s - {x});
  }

  lemma RightAtLeast(f: Feature, rows: set<nat>, c: nat, q: nat)
    requires Presorted(f) && c < |f.val| && q < |f.val| && q in rows - Before(f, rows, c)
    ensures f.val[c] <= f.val[q]
  {
    assert q == c || f.pos[c] < f.pos[q];
  }

  /** Without a minimum every reported division is between two values, whatever the buffer. */
  lemma NoLimitStrict(feats: seq<Feature>, g: seq<nat>, rows: set<nat>, cfg: Config, left: set<nat>, right: set<nat>)
    requires Divides(feats, g, rows, cfg, left, right) && cfg.minPartitionSize == 0
    ensures exists j :: 0 <= j < |feats| && StrictlyBelow(feats[j], left, right)
  {
    hide FoundIn, RowsIn, StrictlyBelow;
    var ys: seq<seq<Cell>>, tos: seq<seq<nat>>, lb: nat, ub: nat, found: seq<Found>, j: nat :|
      && Reported(feats, g, rows, cfg, ys, tos, lb, ub, found, j)
      && left == RowsIn(tos[j], lb, found[j].yidx + 1) && right == RowsIn(tos[j], found[j].yidx + 1, ub);
    assert FoundIn(ys[j], tos[j], g, feats[j], lb, ub, rows, cfg, found[j]);
    FoundStrict(ys[j], tos[j], g, feats[j], lb, ub, rows, cfg, found[j]);
  }

  lemma FoundStrict(y: seq<Cell>, to: seq<nat>, g: seq<nat>, f: Feature, lb: nat, ub: nat, rows: set<nat>, cfg: Config, r: Found)
    requires FoundIn(y, to, g, f, lb, ub, rows, cfg, r) && r.splittable && |g| < 0x1_0000_0000
    requires WithGoal(rows, g, true) != {} && cfg.minPartitionSize == 0
    ensures StrictlyBelow(f, RowsIn(to, lb, r.yidx + 1), RowsIn(to, r.yidx + 1, ub))
  {
    hide Count, WithGoal, CanSplit, Run, Ordered, ChosenBy;
    FoundAtChange(y, to, g, f, lb, ub, rows, cfg, r);
    var p := r.yidx + 1;
    forall a, c | a in RowsIn(to, lb, p) && c in RowsIn(to, p, ub)
      ensures a < |f.val| && c < |f.val| && f.val[a] < f.val[c]
    {
      assert y[to[a]].yval == f.val[a] && y[to[c]].yval == f.val[c];
      assert y[to[a]].yval <= y[p - 1].yval && y[p].yval <= y[to[c]].yval;
    }
  }

  lemma FoundAtChange(y: seq<Cell>, to: seq<nat>, g: seq<nat>, f: Feature, lb: nat, ub: nat, rows: set<nat>, cfg: Config, r: Found)
    requires FoundIn(y, to, g, f, lb, ub, rows, cfg, r) && r.splittable && |g| < 0x1_0000_0000
    requires WithGoal(rows, g, true) != {} && cfg.minPartitionSize == 0
    ensures lb < r.yidx + 1 < ub <= |y| && y[r.yidx].yval < y[r.yidx + 1].yval
  {
    hide Best, Score, Count, WithGoal, CanSplit, Pick, AllBelow, Run, Ordered, RowsIn, Filled, Totals;
    var nT, nH := |WithGoal(rows, g, true)|, |WithGoal(rows, g, false)|;
    SegmentTotals(y, to, g, f, lb, ub, rows);
    SplitsNonEmpty(y, lb, ub, cfg);
    var fills, b :| ChosenBy(y, lb, ub, nT, nH, cfg.gangWidth, 0, cfg.bufSize, fills, b, r);
    var at: nat, loc: nat :| PickedIn(fills, nT, nH, cfg.gangWidth, at, loc, b);
    ConcatAt(fills, at, loc);
    NoLimitAligns(y, lb, ub, cfg.bufSize, fills, ub);
    ChosenSplits(y, lb, ub, nT, nH, cfg.gangWidth, 0, cfg.bufSize, fills, b, r);
    assert Aligned(Fill(y, lb, ub, 0, 0, 0), fills[at]);
  }

  lemma SegmentTotals(y: seq<Cell>, to: seq<nat>, g: seq<nat>, f: Feature, lb: nat, ub: nat, rows: set<nat>)
    requires ColumnOk(y, to, g, f) && ColumnSegment(y, to, f, lb, ub, rows)
    ensures Totals(y, lb, ub, |WithGoal(rows, g, true)|, |WithGoal(rows, g, false)|)
  {
    hide Count, WithGoal, RowsIn, Ordered;
    CountRows(y, to, g, f, lb, ub, true);
    CountRows(y, to, g, f, lb, ub, false);
  }
}
