/**
  * Looking for the best split of a segment: candidate groups with running counts
  * (DT/src/accumulate.c), their metrics (DT/src/eval_metrics.c), the best of
  * them (DT/src/calc_best_metric.c), over all refills of the candidate buffer
  * (DT/src/search_j.c) and over all features (DT/src/search.c).
  */
module Search {
  import opened Columns
  import opened Gini
  import opened Lanes
  import Preproc

  /** Cells of y[a..b] with goal 0 (tails) or with another goal (heads). */
  function Count(y: seq<Cell>, a: nat, b: nat, tails: bool): nat
    requires a <= b <= |y|
  {
    if a == b then 0
    else Count(y, a, b - 1, tails) + if (y[b - 1].goal == 0) == tails then 1 else 0
  }

  lemma {:induction false} CountJoins(y: seq<Cell>, a: nat, b: nat, c: nat, tails: bool)
    requires a <= b <= c <= |y|
    ensures Count(y, a, c, tails) == Count(y, a, b, tails) + Count(y, b, c, tails)
    decreases c
  {
    if b < c {
      CountJoins(y, a, b, c - 1, tails);
    }
  }

  lemma {:induction false} CountsAddUp(y: seq<Cell>, a: nat, b: nat)
    requires a <= b <= |y|
    ensures Count(y, a, b, true) + Count(y, a, b, false) == b - a
    decreases b
  {
    if a < b {
      CountsAddUp(y, a, b - 1);
    }
  }

  // ---------------------------------------------------------------------------
  // One fill of the candidate buffer

  datatype Candidate = Candidate(yval: nat, yidx: nat, nT: nat, nH: nat)

  /** What one call of accumulate works on: the rest lb..ub-1 of a segment, of which prevT + prevH cells lie before lb. */
  datatype Fill = Fill(y: seq<Cell>, lb: nat, ub: nat, prevT: nat, prevH: nat, mps: nat)

  /** Unsigned 32-bit arithmetic. */
  function Wrap32(x: int): nat { x % 0x1_0000_0000 }

  function Consumed(f: Fill, i: nat): nat
    requires f.lb <= i
  {
    f.prevT + f.prevH + (i - f.lb)
  }

  /** The code's count of cells still to consume; after a refill it starts too low and may wrap. */
  function LeftToConsume(f: Fill, i: nat): nat {
    Wrap32(f.ub - i - (f.prevT + f.prevH))
  }

  /** Position i starts a new candidate when the current one began with value `first`. */
  predicate Opens(f: Fill, first: nat, i: nat)
    requires f.lb <= i < |f.y|
  {
    f.y[i].yval != first && Consumed(f, i) >= f.mps && LeftToConsume(f, i) >= f.mps
  }

  /** Candidate c is the group of cells a..c.yidx, with the counts of everything up to its end. */
  ghost predicate Group(f: Fill, a: nat, c: Candidate) {
    && f.lb <= a <= c.yidx < |f.y|
    && c.yval == f.y[a].yval
    && c.nT == f.prevT + Count(f.y, f.lb, c.yidx + 1, true)
    && c.nH == f.prevH + Count(f.y, f.lb, c.yidx + 1, false)
    && forall i :: a < i <= c.yidx ==> !Opens(f, c.yval, i)
  }

  /** Where the group after these candidates starts. */
  function Start(f: Fill, before: seq<Candidate>): nat {
    if before == [] then f.lb else before[|before| - 1].yidx + 1
  }

  /** The candidates are consecutive groups that together cover lb..i-1, each opened by the rule. */
  ghost predicate Grouped(f: Fill, cands: seq<Candidate>, i: nat)
    decreases |cands|
  {
    && f.lb < i <= f.ub <= |f.y|
    && cands != []
    && var last, before := cands[|cands| - 1], cands[..|cands| - 1];
       && last.yidx + 1 == i
       && Group(f, Start(f, before), last)
       && (before != [] ==>
             && Grouped(f, before, Start(f, before))
             && Opens(f, before[|before| - 1].yval, Start(f, before)))
  }

  /** A whole fill: it ends with the segment, or where the buffer of `size` candidates is full. */
  ghost predicate Filled(f: Fill, size: nat, cands: seq<Candidate>, next: nat) {
    && Grouped(f, cands, next)
    && |cands| <= size
    && (next < f.ub ==> |cands| == size && Opens(f, cands[|cands| - 1].yval, next))
  }

  function Tally(f: Fill, i: nat, nT: nat, nH: nat, yval: nat): Candidate
    requires i < |f.y|
  {
    if f.y[i].goal == 0 then Candidate(yval, i, nT + 1, nH) else Candidate(yval, i, nT, nH + 1)
  }

  /** A group on its own: cell i with the counts of everything before it. */
  lemma NewGroup(f: Fill, i: nat, nT: nat, nH: nat)
    requires f.lb <= i < |f.y|
    requires nT == f.prevT + Count(f.y, f.lb, i, true) && nH == f.prevH + Count(f.y, f.lb, i, false)
    ensures Group(f, i, Tally(f, i, nT, nH, f.y[i].yval))
  {}

  lemma GroupOn(f: Fill, a: nat, c: Candidate, i: nat)
    requires Group(f, a, c) && i == c.yidx + 1 < |f.y| && !Opens(f, c.yval, i)
    ensures Group(f, a, Tally(f, i, c.nT, c.nH, c.yval))
  {}

  lemma GroupCounts(f: Fill, a: nat, c: Candidate)
    requires Group(f, a, c)
    ensures f.lb <= a <= c.yidx < |f.y|
    ensures c.nT == f.prevT + Count(f.y, f.lb, c.yidx + 1, true)
    ensures c.nH == f.prevH + Count(f.y, f.lb, c.yidx + 1, false)
  {}

  lemma TallyEnds(f: Fill, i: nat, nT: nat, nH: nat, yval: nat)
    requires i < |f.y|
    ensures Tally(f, i, nT, nH, yval).yidx == i && Tally(f, i, nT, nH, yval).yval == yval
  {}

  lemma FirstGroup(f: Fill)
    requires f.lb < f.ub <= |f.y|
    ensures Grouped(f, [Tally(f, f.lb, f.prevT, f.prevH, f.y[f.lb].yval)], f.lb + 1)
  {
    hide Group, Opens;
    NewGroup(f, f.lb, f.prevT, f.prevH);
  }

  lemma NextGroup(f: Fill, cands: seq<Candidate>, i: nat)
    requires Grouped(f, cands, i) && i < f.ub && Opens(f, cands[|cands| - 1].yval, i)
    ensures var last := cands[|cands| - 1];
            Grouped(f, cands + [Tally(f, i, last.nT, last.nH, f.y[i].yval)], i + 1)
  {
    hide Group, Opens, Count, Tally;
    var n := |cands|;
    var last := cands[n - 1];
    GroupCounts(f, Start(f, cands[..n - 1]), last);
    NewGroup(f, i, last.nT, last.nH);
    TallyEnds(f, i, last.nT, last.nH, f.y[i].yval);
    var cands' := cands + [Tally(f, i, last.nT, last.nH, f.y[i].yval)];
    assert cands'[..n] == cands;
  }

  lemma SameGroup(f: Fill, cands: seq<Candidate>, i: nat)
    requires Grouped(f, cands, i) && i < f.ub && !Opens(f, cands[|cands| - 1].yval, i)
    ensures var last := cands[|cands| - 1];
            Grouped(f, cands[|cands| - 1 := Tally(f, i, last.nT, last.nH, last.yval)], i + 1)
  {
    hide Group, Opens, Count, Tally;
    var n := |cands| - 1;
    var last := cands[n];
    GroupOn(f, Start(f, cands[..n]), last, i);
    TallyEnds(f, i, last.nT, last.nH, last.yval);
    var cands' := cands[n := Tally(f, i, last.nT, last.nH, last.yval)];
    assert cands'[..n] == cands[..n];
  }

  /** What is known of the candidate at k. */
  lemma {:induction false} GroupAt(f: Fill, cands: seq<Candidate>, i: nat, k: nat)
    requires Grouped(f, cands, i) && k < |cands|
    ensures Group(f, Start(f, cands[..k]), cands[k])
    ensures f.lb <= cands[k].yidx < i <= |f.y|
    ensures k > 0 ==> cands[k - 1].yidx < cands[k].yidx && f.lb <= cands[k - 1].yidx
    ensures k > 0 ==> Opens(f, cands[k - 1].yval, cands[k - 1].yidx + 1)
    decreases |cands|
  {
    hide Group, Opens, Count;
    var before := cands[..|cands| - 1];
    if k < |cands| - 1 {
      GroupAt(f, before, Start(f, before), k);
      assert before[..k] == cands[..k];
      GroupCounts(f, Start(f, before), cands[|cands| - 1]);
    } else {
      GroupCounts(f, Start(f, before), cands[k]);
      if k > 0 {
        GroupAt(f, before, Start(f, before), k - 1);
      }
    }
  }

  /** The candidate buffer of one feature: a structure of arrays. */
  class Metrics {
    const yval: array<nat>
    const yidx: array<nat>
    const nT: array<nat>
    const nH: array<nat>
    const metric: array<real>

    ghost predicate Valid() {
      && yval.Length == yidx.Length == nT.Length == nH.Length == metric.Length
      && yval != yidx && yval != nT && yval != nH && yidx != nT && yidx != nH && nT != nH
    }

    ghost function Arrays(): set<object> { {yval, yidx, nT, nH, metric} }

    ghost function At(k: nat): Candidate
      requires Valid() && k < metric.Length
      reads yval, yidx, nT, nH
    {
      Candidate(yval[k], yidx[k], nT[k], nH[k])
    }

    ghost function First(n: nat): (s: seq<Candidate>)
      requires Valid() && n <= metric.Length
      reads yval, yidx, nT, nH
      ensures |s| == n
      ensures forall k :: 0 <= k < n ==> s[k] == At(k)
    {
      if n == 0 then [] else First(n - 1) + [At(n - 1)]
    }

    constructor (size: nat)
      ensures Valid() && metric.Length == size
      ensures fresh(yval) && fresh(yidx) && fresh(nT) && fresh(nH) && fresh(metric)
    {
      yval, yidx, nT, nH := new nat[size], new nat[size], new nat[size], new nat[size];
      metric := new real[size];
    }

    /** Record the candidate in slot k. */
    method Put(k: nat, c: Candidate)
      requires Valid() && k < metric.Length
      modifies yval, yidx, nT, nH
      ensures At(k) == c
      ensures forall j :: 0 <= j < metric.Length && j != k ==> At(j) == old(At(j))
    {
      yidx[k] := c.yidx;
      yval[k] := c.yval;
      nT[k] := c.nT;
      nH[k] := c.nH;
    }
  }

  /** The two running counters of the code, just before position i is tested. */
  ghost predicate CountsAt(f: Fill, i: nat, consumedSoFar: nat, leftToConsume: nat) {
    f.lb <= i && consumedSoFar == Consumed(f, i) && leftToConsume == LeftToConsume(f, i)
  }

  lemma StartCounts(f: Fill)
    ensures CountsAt(f, f.lb, f.prevT + f.prevH, Wrap32(f.ub - f.lb - (f.prevT + f.prevH)))
  {}

  lemma NextCounts(f: Fill, i: nat, consumedSoFar: nat, leftToConsume: nat)
    requires CountsAt(f, i, consumedSoFar, leftToConsume)
    ensures CountsAt(f, i + 1, consumedSoFar + 1, Wrap32(leftToConsume - 1))
  {}

  lemma OpensByCounts(f: Fill, first: nat, i: nat, consumedSoFar: nat, leftToConsume: nat)
    requires CountsAt(f, i, consumedSoFar, leftToConsume) && i < |f.y|
    ensures Opens(f, first, i) <==> f.y[i].yval != first && consumedSoFar >= f.mps && leftToConsume >= f.mps
  {}

  lemma TallyIs(f: Fill, i: nat, nT: nat, nH: nat, yval: nat)
    requires i < |f.y|
    ensures Tally(f, i, nT, nH, yval) ==
            if f.y[i].goal == 0 then Candidate(yval, i, nT + 1, nH) else Candidate(yval, i, nT, nH + 1)
  {}

  lemma BufferFull(f: Fill, cands: seq<Candidate>, i: nat)
    requires Grouped(f, cands, i) && i < |f.y| && f.lb <= i && Opens(f, cands[|cands| - 1].yval, i)
    ensures Filled(f, |cands|, cands, i)
  {}

  lemma SegmentDone(f: Fill, size: nat, cands: seq<Candidate>)
    requires Grouped(f, cands, f.ub) && |cands| <= size
    ensures Filled(f, size, cands, f.ub)
  {}

  method Accumulate(y: array<Cell>, lb: nat, ub: nat, prevT: nat, prevH: nat, m: Metrics, mps: nat)
    returns (nbuf: nat, newLb: nat)
    requires lb < ub <= y.Length
    requires m.Valid() && m.metric.Length > 0
    modifies m.yval, m.yidx, m.nT, m.nH
    ensures nbuf <= m.metric.Length
    ensures Filled(Fill(y[..], lb, ub, prevT, prevH, mps), m.metric.Length, m.First(nbuf), newLb)
  {
    hide Count, Opens, Group, Start, Grouped, Filled, Tally, Consumed, LeftToConsume, Wrap32, CountsAt;
    ghost var f := Fill(y[..], lb, ub, prevT, prevH, mps);
    var consumedSoFar: nat := prevT + prevH;
    var leftToConsume: nat := Wrap32(ub - lb - consumedSoFar);
    StartCounts(f);
    var currYval := y[lb].yval;
    FirstGroup(f);
    TallyIs(f, lb, prevT, prevH, currYval);
    var c := if y[lb].goal == 0 then Candidate(currYval, lb, prevT + 1, prevH) else Candidate(currYval, lb, prevT, prevH + 1);
    m.Put(0, c);
    ghost var cands := [c];
    nbuf := 1;
    NextCounts(f, lb, consumedSoFar, leftToConsume);
    consumedSoFar := consumedSoFar + 1;
    leftToConsume := Wrap32(leftToConsume - 1);
    var i := lb + 1;
    while i < ub
      invariant 1 <= nbuf == |cands| <= m.metric.Length
      invariant lb < i <= ub
      invariant Grouped(f, cands, i)
      invariant forall k :: 0 <= k < nbuf ==> m.At(k) == cands[k]
      invariant currYval == cands[nbuf - 1].yval
      invariant CountsAt(f, i, consumedSoFar, leftToConsume)
    {
      var lastT, lastH := m.nT[nbuf - 1], m.nH[nbuf - 1];
      assert m.At(nbuf - 1) == cands[nbuf - 1];
      OpensByCounts(f, currYval, i, consumedSoFar, leftToConsume);
      if y[i].yval != currYval && consumedSoFar >= mps && leftToConsume >= mps {
        if nbuf == m.metric.Length {
          newLb := i;
          assert m.First(nbuf) == cands;
          BufferFull(f, cands, i);
          return;
        }
        NextGroup(f, cands, i);
        currYval := y[i].yval;
        TallyIs(f, i, lastT, lastH, currYval);
        c := if y[i].goal == 0 then Candidate(currYval, i, lastT + 1, lastH) else Candidate(currYval, i, lastT, lastH + 1);
        m.Put(nbuf, c);
        cands := cands + [c];
        nbuf := nbuf + 1;
      } else {
        SameGroup(f, cands, i);
        TallyIs(f, i, lastT, lastH, currYval);
        c := if y[i].goal == 0 then Candidate(m.yval[nbuf - 1], i, lastT + 1, lastH)
             else Candidate(m.yval[nbuf - 1], i, lastT, lastH + 1);
        m.Put(nbuf - 1, c);
        cands := cands[nbuf - 1 := c];
      }
      NextCounts(f, i, consumedSoFar, leftToConsume);
      consumedSoFar := consumedSoFar + 1;
      leftToConsume := Wrap32(leftToConsume - 1);
      i := i + 1;
    }
    newLb := ub;
    assert m.First(nbuf) == cands;
    SegmentDone(f, m.metric.Length, cands);
  }

  // ---------------------------------------------------------------------------
  // What the candidates of a fill mean

  /** c ends inside lb..ub-1 and carries the tails and heads of everything from lb to its end. */
  ghost predicate Exact(y: seq<Cell>, lb: nat, ub: nat, c: Candidate) {
    && lb <= c.yidx < ub <= |y|
    && c.nT == Count(y, lb, c.yidx + 1, true)
    && c.nH == Count(y, lb, c.yidx + 1, false)
  }

  /** The counts stay those of the whole prefix across refills. */
  lemma CountsExact(f: Fill, cands: seq<Candidate>, i: nat, lb: nat, k: nat)
    requires Grouped(f, cands, i) && k < |cands| && lb <= f.lb
    requires f.prevT == Count(f.y, lb, f.lb, true) && f.prevH == Count(f.y, lb, f.lb, false)
    ensures Exact(f.y, lb, f.ub, cands[k])
  {
    hide Opens, Count, Group, Grouped;
    GroupAt(f, cands, i, k);
    GroupCounts(f, Start(f, cands[..k]), cands[k]);
    GroupedRange(f, cands, i);
    CountJoins(f.y, lb, f.lb, cands[k].yidx + 1, true);
    CountJoins(f.y, lb, f.lb, cands[k].yidx + 1, false);
  }

  lemma GroupedRange(f: Fill, cands: seq<Candidate>, i: nat)
    requires Grouped(f, cands, i)
    ensures cands != [] && cands[|cands| - 1].yidx + 1 == i && f.lb < i <= f.ub <= |f.y|
  {}

  /** No cell before lb has been counted: this is the first fill of its segment. */
  predicate FirstFill(f: Fill) {
    && f.prevT == 0 && f.prevH == 0
    && f.lb < f.ub <= |f.y| < 0x1_0000_0000
    && Ranked(f.y, f.lb, f.ub)
  }

  /** In the first fill the code's counter is the number of cells from i on. */
  lemma LeftIsRest(f: Fill, i: nat)
    requires FirstFill(f) && f.lb <= i <= f.ub
    ensures LeftToConsume(f, i) == f.ub - i && Consumed(f, i) == i - f.lb
  {}

  /** Where a candidate of a fill ends before the segment does, the next position opens a candidate. */
  lemma EndOpens(f: Fill, size: nat, cands: seq<Candidate>, next: nat, k: nat)
    requires Filled(f, size, cands, next) && k < |cands| && cands[k].yidx + 1 < f.ub
    ensures f.lb <= cands[k].yidx && f.ub <= |f.y| && Opens(f, cands[k].yval, cands[k].yidx + 1)
  {
    hide Opens, Count, Group, Grouped;
    GroupedRange(f, cands, next);
    GroupAt(f, cands, next, k);
    if k < |cands| - 1 {
      GroupAt(f, cands, next, k + 1);
    }
  }

  /** In the first fill no candidate leaves fewer than mps cells on either side. */
  lemma SidesLargeEnough(f: Fill, size: nat, cands: seq<Candidate>, next: nat, k: nat)
    requires FirstFill(f) && Filled(f, size, cands, next)
    requires k < |cands| && cands[k].yidx + 1 < f.ub
    ensures cands[k].yidx + 1 - f.lb >= f.mps && f.ub - (cands[k].yidx + 1) >= f.mps
  {
    hide Filled;
    EndOpens(f, size, cands, next, k);
    LeftIsRest(f, cands[k].yidx + 1);
  }

  /**
    * When a segment has two candidates: the buffer holds two, and the last place
    * that leaves enough cells on its right holds another value than the first cell.
    */
  lemma SplittableExactly(f: Fill, size: nat, cands: seq<Candidate>, next: nat)
    requires FirstFill(f) && Filled(f, size, cands, next)
    ensures var q := if f.mps == 0 then 1 else f.mps;
            |cands| >= 2 <==>
            size >= 2 && f.ub - f.lb >= 2 * q && f.y[f.ub - q].yval != f.y[f.lb].yval
  {
    hide Count, Grouped, Consumed, LeftToConsume;
    var q := if f.mps == 0 then 1 else f.mps;
    GroupedRange(f, cands, next);
    GroupAt(f, cands, next, 0);
    assert cands[..0] == [];
    if |cands| >= 2 {
      GroupAt(f, cands, next, 1);
      var i := cands[0].yidx + 1;
      LeftIsRest(f, i);
      assert f.y[f.lb].yval <= f.y[i].yval <= f.y[f.ub - q].yval;
    } else if f.ub - f.lb >= 2 * q && f.y[f.ub - q].yval != f.y[f.lb].yval {
      LeftIsRest(f, f.ub - q);
      assert Opens(f, cands[0].yval, f.ub - q);
    }
  }

  // ---------------------------------------------------------------------------
  // Where one fill can cut a whole segment

  function AtLeastOne(n: nat): nat { if n == 0 then 1 else n }

  /**
    * Both sides are large enough, the right one begins above the least value, and the
    * value changes here - or this is the first place that leaves enough on the left.
    */
  predicate Place(y: seq<Cell>, lb: nat, ub: nat, mps: nat, p: nat)
    requires ub <= |y|
  {
    var q := AtLeastOne(mps);
    && lb + q <= p && p + q <= ub
    && y[p].yval != y[lb].yval
    && (y[p - 1].yval != y[p].yval || p == lb + q)
  }

  /** The candidate whose group holds position i. */
  lemma {:induction false} GroupWith(f: Fill, cands: seq<Candidate>, next: nat, i: nat) returns (k: nat)
    requires Grouped(f, cands, next) && f.lb <= i < next
    ensures k < |cands| && Start(f, cands[..k]) <= i <= cands[k].yidx
    decreases |cands|
  {
    hide Opens, Count;
    var before := cands[..|cands| - 1];
    if i >= Start(f, before) {
      k := |cands| - 1;
    } else {
      k := GroupWith(f, before, Start(f, before), i);
      assert before[..k] == cands[..k];
    }
  }

  lemma {:induction false} EndsAscend(f: Fill, cands: seq<Candidate>, next: nat, j: nat, k: nat)
    requires Grouped(f, cands, next) && j <= k < |cands|
    ensures cands[j].yidx <= cands[k].yidx
    decreases k
  {
    hide Grouped, Group, Opens;
    if j < k {
      GroupAt(f, cands, next, k);
      EndsAscend(f, cands, next, j, k - 1);
    }
  }

  /** A candidate's end is such a place ... */
  lemma EndIsPlace(f: Fill, size: nat, cands: seq<Candidate>, k: nat)
    requires FirstFill(f) && Filled(f, size, cands, f.ub) && k < |cands| && cands[k].yidx + 1 < f.ub
    ensures Place(f.y, f.lb, f.ub, f.mps, cands[k].yidx + 1)
  {
    hide Count, Grouped, Filled, Consumed, LeftToConsume;
    FillGroups(f, size, cands, f.ub);
    EndOpens(f, size, cands, f.ub, k);
    GroupAt(f, cands, f.ub, k);
    var a, p := Start(f, cands[..k]), cands[k].yidx + 1;
    LeftIsRest(f, p);
    LeftIsRest(f, p - 1);
    assert p - 1 > a ==> !Opens(f, cands[k].yval, p - 1);
    assert a == f.lb || f.y[f.lb].yval <= f.y[a].yval;
    assert f.y[a].yval <= f.y[p].yval;
  }

  /** Inside a group there is none. */
  lemma NoPlaceInside(f: Fill, size: nat, cands: seq<Candidate>, k: nat, p: nat)
    requires FirstFill(f) && Filled(f, size, cands, f.ub) && k < |cands| && Start(f, cands[..k]) < p <= cands[k].yidx
    ensures f.ub <= |f.y| && !Place(f.y, f.lb, f.ub, f.mps, p)
  {
    hide Count, Grouped, Filled, Consumed, LeftToConsume;
    FillGroups(f, size, cands, f.ub);
    GroupAt(f, cands, f.ub, k);
    var a := Start(f, cands[..k]);
    LeftIsRest(f, p);
    LeftIsRest(f, a);
    assert !Opens(f, cands[k].yval, p);
    assert f.y[a].yval <= f.y[p - 1].yval || a == p - 1;
    assert f.y[p - 1].yval <= f.y[p].yval;
  }

  /** ... and at every such place a candidate ends. */
  lemma PlaceIsEnd(f: Fill, size: nat, cands: seq<Candidate>, p: nat) returns (k: nat)
    requires FirstFill(f) && Filled(f, size, cands, f.ub) && Place(f.y, f.lb, f.ub, f.mps, p)
    ensures k < |cands| && cands[k].yidx + 1 == p
  {
    hide Count, Grouped, Filled, Group, Opens;
    FillGroups(f, size, cands, f.ub);
    k := GroupWith(f, cands, f.ub, p);
    if Start(f, cands[..k]) < p {
      NoPlaceInside(f, size, cands, k, p);
    }
    k := k - 1;
  }

  // ---------------------------------------------------------------------------
  // Do candidates end where the value changes?

  ghost predicate Aligned(f: Fill, cands: seq<Candidate>) {
    forall k :: 0 <= k < |cands| && cands[k].yidx + 1 < f.ub <= |f.y| ==>
      f.y[cands[k].yidx].yval != f.y[cands[k].yidx + 1].yval
  }

  /** Inside a group every value is the group's first one as long as mps is 0, or is 1 in a first fill. */
  lemma SmallLimitAligns(f: Fill, size: nat, cands: seq<Candidate>, next: nat)
    requires Filled(f, size, cands, next)
    requires f.mps == 0 || (f.mps == 1 && FirstFill(f))
    ensures Aligned(f, cands)
  {
    hide Count, Grouped, Filled, FirstFill, Group, Opens;
    forall k | 0 <= k < |cands| && cands[k].yidx + 1 < f.ub <= |f.y|
      ensures f.y[cands[k].yidx].yval != f.y[cands[k].yidx + 1].yval
    {
      FillGroups(f, size, cands, next);
      EndOpens(f, size, cands, next, k);
      GroupAt(f, cands, next, k);
      GroupIsOneValue(f, Start(f, cands[..k]), cands[k]);
    }
  }

  lemma FillGroups(f: Fill, size: nat, cands: seq<Candidate>, next: nat)
    requires Filled(f, size, cands, next)
    ensures Grouped(f, cands, next)
  {}

  lemma GroupIsOneValue(f: Fill, a: nat, c: Candidate)
    requires Group(f, a, c) && c.yidx + 1 < f.ub <= |f.y| && Opens(f, c.yval, c.yidx + 1)
    requires f.mps == 0 || (f.mps == 1 && FirstFill(f))
    ensures f.y[c.yidx].yval == c.yval != f.y[c.yidx + 1].yval
  {
    hide Count, LeftToConsume;
    if f.mps == 1 {
      LeftIsRest(f, c.yidx);
    }
    assert c.yidx > a ==> !Opens(f, c.yval, c.yidx);
  }

  function Repeat(c: Cell, n: nat): (s: seq<Cell>)
    ensures |s| == n && forall i :: 0 <= i < n ==> s[i] == c
  {
    if n == 0 then [] else Repeat(c, n - 1) + [c]
  }

  lemma {:induction false} AllTails(y: seq<Cell>, a: nat, b: nat)
    requires a <= b <= |y| && forall i :: a <= i < b ==> y[i].goal == 0
    ensures Count(y, a, b, true) == b - a && Count(y, a, b, false) == 0
    decreases b
  {
    if a < b {
      AllTails(y, a, b - 1);
    }
  }

  /** Two candidates that follow the rule make a fill of a segment. */
  lemma TwoGroups(f: Fill, c: Candidate, d: Candidate)
    requires f.lb < f.ub <= |f.y| && d.yidx + 1 == f.ub
    requires Group(f, f.lb, c) && Group(f, c.yidx + 1, d) && Opens(f, c.yval, c.yidx + 1)
    ensures Filled(f, 2, [c, d], f.ub)
  {
    hide Group, Opens, Count;
    GroupCounts(f, f.lb, c);
    GroupCounts(f, c.yidx + 1, d);
    assert [c, d][..1] == [c] && [c][..0] == [];
    assert Grouped(f, [c], c.yidx + 1);
  }

  /** One cell of rank 1 and then 2 * mps - 1 cells of rank 2: the first candidate ends among the 2s. */
  lemma LargeLimitMisaligns(mps: nat) returns (f: Fill, cands: seq<Candidate>)
    requires 2 <= mps < 0x8000_0000
    ensures FirstFill(f) && f.mps == mps && Filled(f, 2, cands, f.ub) && !Aligned(f, cands)
  {
    hide Count, LeftToConsume, Consumed, Filled;
    var y := [Cell(0, 0, 1)] + Repeat(Cell(0, 0, 2), 2 * mps - 1);
    f := Fill(y, 0, 2 * mps, 0, 0, mps);
    var c, d := Candidate(1, mps - 1, mps, 0), Candidate(2, 2 * mps - 1, 2 * mps, 0);
    AllTails(y, 0, mps);
    AllTails(y, 0, 2 * mps);
    forall i | 0 < i <= mps
      ensures Opens(f, 1, i) <==> i == mps
    {
      LeftIsRest(f, i);
    }
    TwoGroups(f, c, d);
    cands := [c, d];
    assert y[cands[0].yidx].yval == y[cands[0].yidx + 1].yval;
  }

  /** In the first fill a limit of half the range of 32 bits leaves no room for a second candidate. */
  lemma NothingOpens(f: Fill)
    requires FirstFill(f) && f.mps >= 0x8000_0000
    ensures forall first: nat, i :: f.lb <= i < f.ub ==> !Opens(f, first, i)
  {
    hide Ranked;
    forall first: nat, i | f.lb <= i < f.ub
      ensures !Opens(f, first, i)
    {
      LeftIsRest(f, i);
    }
  }

  lemma HugeLimitOnce(f: Fill, size: nat, cands: seq<Candidate>, next: nat)
    requires FirstFill(f) && f.mps >= 0x8000_0000 && Filled(f, size, cands, next)
    ensures |cands| == 1 && next == f.ub == cands[0].yidx + 1 && Aligned(f, cands)
  {
    hide FirstFill, Grouped, Opens;
    GroupedRange(f, cands, next);
    NothingOpens(f);
    SplittableExactly(f, size, cands, next);
    FirstFillIs(f);
  }

  lemma FirstFillIs(f: Fill)
    requires FirstFill(f)
    ensures f == Fill(f.y, f.lb, f.ub, 0, 0, f.mps) && f.lb < f.ub <= |f.y| < 0x1_0000_0000 && Ranked(f.y, f.lb, f.ub)
  {}

  /**
    * In a first fill, candidates end at value changes for all columns exactly when the
    * limit is at most 1, or so large that nothing is cut.
    */
  lemma AlignedExactly(mps: nat)
    requires mps < 0x1_0000_0000
    ensures (forall f: Fill, size: nat, cands: seq<Candidate>, next: nat ::
               FirstFill(f) && f.mps == mps && Filled(f, size, cands, next) ==> Aligned(f, cands))
            <==> mps <= 1 || mps >= 0x8000_0000
  {
    hide Filled, Aligned, FirstFill;
    if mps <= 1 || mps >= 0x8000_0000 {
      forall f: Fill, size: nat, cands: seq<Candidate>, next: nat | FirstFill(f) && f.mps == mps && Filled(f, size, cands, next)
        ensures Aligned(f, cands)
      {
        if mps <= 1 {
          SmallLimitAligns(f, size, cands, next);
        } else {
          HugeLimitOnce(f, size, cands, next);
        }
      }
    } else {
      var f, cands := LargeLimitMisaligns(mps);
    }
  }

  /**
    * After a refill a limit of 1 no longer helps: the counter of cells left starts
    * too low, passes 0, and a group runs on over a change of value.
    */
  lemma RefillMisaligns() returns (y: seq<Cell>, first: seq<Candidate>, second: seq<Candidate>)
    ensures Ranked(y, 0, |y|) && |y| == 6 && |first| == 2 && first[1].yidx == 1
    ensures Filled(Fill(y, 0, 6, 0, 0, 1), 2, first, 2)
    ensures Filled(Fill(y, 2, 6, first[1].nT, first[1].nH, 1), 2, second, 6)
    ensures !Aligned(Fill(y, 2, 6, first[1].nT, first[1].nH, 1), second)
  {
    hide Filled;
    y := [Cell(0, 0, 1), Cell(1, 0, 2), Cell(2, 0, 3), Cell(3, 0, 3), Cell(4, 0, 4), Cell(5, 0, 4)];
    var c, d := Candidate(1, 0, 1, 0), Candidate(2, 1, 2, 0);
    first := [c, d];
    second := [Candidate(3, 4, 5, 0), Candidate(4, 5, 6, 0)];
    RefillBefore(y, c, d);
    RefillAfter(y, second[0], second[1]);
    assert y[second[0].yidx].yval == y[second[0].yidx + 1].yval;
  }

  lemma RefillBefore(y: seq<Cell>, c: Candidate, d: Candidate)
    requires y == [Cell(0, 0, 1), Cell(1, 0, 2), Cell(2, 0, 3), Cell(3, 0, 3), Cell(4, 0, 4), Cell(5, 0, 4)]
    requires c == Candidate(1, 0, 1, 0) && d == Candidate(2, 1, 2, 0)
    ensures Filled(Fill(y, 0, 6, 0, 0, 1), 2, [c, d], 2)
  {
    var f := Fill(y, 0, 6, 0, 0, 1);
    AllTails(y, 0, 1);
    AllTails(y, 0, 2);
    assert [c, d][..1] == [c] && [c][..0] == [];
    assert Opens(f, 1, 1) && Opens(f, 2, 2);
    assert Grouped(f, [c], 1);
  }

  lemma RefillAfter(y: seq<Cell>, c: Candidate, d: Candidate)
    requires y == [Cell(0, 0, 1), Cell(1, 0, 2), Cell(2, 0, 3), Cell(3, 0, 3), Cell(4, 0, 4), Cell(5, 0, 4)]
    requires c == Candidate(3, 4, 5, 0) && d == Candidate(4, 5, 6, 0)
    ensures Filled(Fill(y, 2, 6, 2, 0, 1), 2, [c, d], 6)
  {
    hide Filled, Count;
    var f := Fill(y, 2, 6, 2, 0, 1);
    AllTails(y, 2, 5);
    AllTails(y, 2, 6);
    assert !Opens(f, 3, 3) && !Opens(f, 3, 4) && Opens(f, 3, 5);
    TwoGroups(f, c, d);
  }

  // ---------------------------------------------------------------------------
  // The best candidate of one fill

  /** The metric of a candidate; -1 where its counts are not those of a prefix. */
  function Score(c: Candidate, nT: nat, nH: nat): real {
    if 0 < c.nT + c.nH && c.nT <= nT && c.nH <= nH then Metric(c.nT, c.nH, nT, nH) else BAD
  }

  /** all[b] has the greatest metric; in the scalar build (w is 0) it is the first that has. */
  ghost predicate Best(all: seq<Candidate>, nT: nat, nH: nat, w: nat, b: nat) {
    && b < |all|
    && (forall k :: 0 <= k < |all| ==> Score(all[k], nT, nH) <= Score(all[b], nT, nH))
    && (w == 0 ==> forall k :: 0 <= k < b ==> Score(all[k], nT, nH) < Score(all[b], nT, nH))
  }

  method EvalMetrics(m: Metrics, nT: nat, nH: nat, nbuf: nat)
    requires m.Valid() && nbuf <= m.metric.Length
    requires forall k :: 0 <= k < nbuf ==> 0 < m.At(k).nT + m.At(k).nH && m.At(k).nT <= nT && m.At(k).nH <= nH
    modifies m.metric
    ensures forall k :: 0 <= k < nbuf ==> m.metric[k] == Score(m.At(k), nT, nH)
  {
    hide Share, Mix, Square;
    var i := 0;
    while i < nbuf
      invariant 0 <= i <= nbuf
      invariant forall k :: 0 <= k < i ==> m.metric[k] == Score(m.At(k), nT, nH)
    {
      assert 0 < m.At(i).nT + m.At(i).nH && m.At(i).nT <= nT && m.At(i).nH <= nH;
      m.metric[i] := GiniOf(m.nT[i], m.nH[i], nT, nH);
      i := i + 1;
    }
  }

  /** The straight-line computation in the metric loop. */
  function GiniSteps(nTL: real, nHL: real, nTR: real, nHR: real): (gini: real)
    requires nTL + nHL > 0.0 && nTR + nHR > 0.0
    ensures gini == Weighted(nTL, nHL, nTR, nHR)
  {
    hide Share;
    var nR, nL := nTR + nHR, nTL + nHL;
    var n := nL + nR;
    var xLT, xLH, xRT, xRH := Share(nTL, nL), Share(nHL, nL), Share(nTR, nR), Share(nHR, nR);
    var giniL, giniR := 1.0 - xLT * xLT - xLH * xLH, 1.0 - xRT * xRT - xRH * xRH;
    Share(nL, n) * giniL + Share(nR, n) * giniR
  }

  /** The body of the metric loop. */
  function GiniOf(inTL: nat, inHL: nat, nT: nat, nH: nat): (r: real)
    requires inTL + inHL > 0 && inTL <= nT && inHL <= nH
    ensures r == Metric(inTL, inHL, nT, nH)
  {
    hide Share, Weighted, Impurity, GiniSteps;
    var nTL, nHL := inTL as real, inHL as real;
    var nTR, nHR := (nT - inTL) as real, (nH - inHL) as real;
    if nTR + nHR == 0.0 || nT == 0 then BAD else GiniSteps(nTL, nHL, nTR, nHR)
  }

  method CalcBestMetric(m: Metrics, nbuf: nat) returns (loc: nat)
    requires m.Valid() && 0 < nbuf <= m.metric.Length
    ensures FirstPick(m.metric[..nbuf], loc)
  {
    loc := 0;
    var bestMetric := m.metric[0];
    var i := 1;
    while i < nbuf
      invariant 1 <= i <= nbuf && loc < i && bestMetric == m.metric[loc]
      invariant forall k :: 0 <= k < i ==> m.metric[k] <= bestMetric
      invariant forall k :: 0 <= k < loc ==> m.metric[k] < bestMetric
    {
      if m.metric[i] > bestMetric {
        loc := i;
        bestMetric := m.metric[i];
      }
      i := i + 1;
    }
  }

  /** eval_metrics_isp, for a segment with tails. */
  method EvalMetricsGang(m: Metrics, nT: nat, nH: nat, nbuf: nat)
    requires m.Valid() && nbuf <= m.metric.Length && nT > 0
    requires forall k :: 0 <= k < nbuf ==> 0 < m.At(k).nT + m.At(k).nH && m.At(k).nT <= nT && m.At(k).nH <= nH
    modifies m.metric
    ensures forall k :: 0 <= k < nbuf ==> m.metric[k] == Score(m.At(k), nT, nH)
  {
    hide Metric, MetricGang;
    for i := 0 to nbuf
      invariant forall k :: 0 <= k < i ==> m.metric[k] == Score(m.At(k), nT, nH)
    {
      assert 0 < m.At(i).nT + m.At(i).nH && m.At(i).nT <= nT && m.At(i).nH <= nH;
      ScalarMeetsGang(m.nT[i], m.nH[i], nT, nH);
      m.metric[i] := MetricGang(m.nT[i], m.nH[i], nT, nH);
    }
  }

  /**
    * calc_best_metric_isp: every lane of a gang keeps its own best, starting from -1 at
    * place 0; of the lanes with the greatest value the last place is taken.
    */
  method CalcBestMetricGang(m: Metrics, nbuf: nat, w: nat) returns (loc: nat)
    requires m.Valid() && 0 < nbuf <= m.metric.Length && w > 0
    requires forall k :: 0 <= k < nbuf ==> m.metric[k] >= BAD
    ensures GangPick(m.metric[..nbuf], w, loc)
  {
    hide Led, GangPick, Lane;
    ghost var s := m.metric[..nbuf];
    var xlocs: seq<nat>, metrics := seq(w, _ => 0), seq(w, _ => BAD);
    var lane := 0;
    LanesStart(s, w);
    for i := 0 to nbuf
      invariant lane == Lane(i, w) && |xlocs| == |metrics| == w
      invariant forall l: nat :: l < w ==> Led(s, w, i, l, xlocs[l], metrics[l])
    {
      forall l: nat | l < w
        ensures Lane(i, w) != l || s[i] <= metrics[l] ==> Led(s, w, i + 1, l, xlocs[l], metrics[l])
        ensures Lane(i, w) == l && s[i] > metrics[l] ==> Led(s, w, i + 1, l, i, s[i])
      {
        LedOn(s, w, i, l, xlocs[l], metrics[l]);
      }
      if m.metric[i] > metrics[lane] {
        xlocs, metrics := xlocs[lane := i], metrics[lane := m.metric[i]];
      }
      NextLane(i, w);
      lane := if lane + 1 == w then 0 else lane + 1;
    }
    var best, at := metrics[0], 0;
    for l := 1 to w
      invariant at < l && best == metrics[at] && forall k :: 0 <= k < l ==> metrics[k] <= best
    {
      if metrics[l] > best {
        best, at := metrics[l], l;
      }
    }
    loc := xlocs[at];
    for l := 0 to w
      invariant at < w && best == metrics[at] && metrics[at] == best && xlocs[at] == loc
      invariant forall k :: 0 <= k < l && metrics[k] == best ==> xlocs[k] <= loc
    {
      if metrics[l] == best && xlocs[l] > loc {
        loc, at := xlocs[l], l;
      }
    }
    Reduced(s, w, xlocs, metrics, best, loc);
  }

  lemma LanesStart(s: seq<real>, w: nat)
    requires w > 0
    ensures Lane(0, w) == 0 && forall l: nat :: l < w ==> Led(s, w, 0, l, 0, BAD)
  {}

  // ---------------------------------------------------------------------------
  // One feature: fill, evaluate, keep the best, refill

  datatype FourNums = FourNums(nTL: nat, nHL: nat, nTR: nat, nHR: nat)

  datatype Found = Found(splittable: bool, metric: real, yval: nat, yidx: nat, num4: FourNums)

  const NOTHING := Found(false, BAD, 0, 0, FourNums(0, 0, 0, 0))

  function FoundAt(c: Candidate, nT: nat, nH: nat): Found
    requires c.nT <= nT && c.nH <= nH
  {
    Found(true, Score(c, nT, nH), c.yval, c.yidx, FourNums(c.nT, c.nH, nT - c.nT, nH - c.nH))
  }

  /** The call of accumulate that follows these fills of the segment lb..ub-1. */
  function NextFill(y: seq<Cell>, lb: nat, ub: nat, mps: nat, fills: seq<seq<Candidate>>): Fill {
    if fills == [] || fills[|fills| - 1] == [] then Fill(y, lb, ub, 0, 0, mps)
    else
      var fill := fills[|fills| - 1];
      var c := fill[|fill| - 1];
      Fill(y, c.yidx + 1, ub, c.nT, c.nH, mps)
  }

  /** Each fill went on where the one before it stopped; they reach up to next. */
  ghost predicate Run(y: seq<Cell>, lb: nat, ub: nat, mps: nat, size: nat, fills: seq<seq<Candidate>>, next: nat)
    decreases |fills|
  {
    if fills == [] then next == lb
    else
      var before := fills[..|fills| - 1];
      var f := NextFill(y, lb, ub, mps, before);
      Run(y, lb, ub, mps, size, before, f.lb) && Filled(f, size, fills[|fills| - 1], next)
  }

  function Concat(fills: seq<seq<Candidate>>): seq<Candidate> {
    if fills == [] then [] else Concat(fills[..|fills| - 1]) + fills[|fills| - 1]
  }

  lemma ConcatOn(fills: seq<seq<Candidate>>, cands: seq<Candidate>)
    ensures Concat(fills + [cands]) == Concat(fills) + cands
  {
    assert (fills + [cands])[..|fills|] == fills;
  }

  lemma ConcatOne(cands: seq<Candidate>)
    ensures Concat([cands]) == cands
  {
    ConcatOn([], cands);
    assert [] + [cands] == [cands];
  }

  /** Over all refills the counts are those of the whole prefix of the segment. */
  lemma {:induction false} RunExact(y: seq<Cell>, lb: nat, ub: nat, mps: nat, size: nat, fills: seq<seq<Candidate>>, next: nat)
    requires Run(y, lb, ub, mps, size, fills, next) && lb <= ub <= |y|
    ensures lb <= next <= ub
    ensures NextFill(y, lb, ub, mps, fills) == Fill(y, next, ub, Count(y, lb, next, true), Count(y, lb, next, false), mps)
    ensures forall k :: 0 <= k < |Concat(fills)| ==> Exact(y, lb, ub, Concat(fills)[k])
    decreases |fills|
  {
    hide Filled, Exact;
    if fills != [] {
      var before, cands := fills[..|fills| - 1], fills[|fills| - 1];
      var f := NextFill(y, lb, ub, mps, before);
      RunExact(y, lb, ub, mps, size, before, f.lb);
      FillExact(f, size, cands, next, lb);
    }
  }

  lemma FillExact(f: Fill, size: nat, cands: seq<Candidate>, next: nat, lb: nat)
    requires Filled(f, size, cands, next) && lb <= f.lb
    requires f.lb <= |f.y| && f.prevT == Count(f.y, lb, f.lb, true) && f.prevH == Count(f.y, lb, f.lb, false)
    ensures cands != [] && f.lb < next <= f.ub <= |f.y|
    ensures forall k :: 0 <= k < |cands| ==> Exact(f.y, lb, f.ub, cands[k])
    ensures var c := cands[|cands| - 1];
            && c.yidx + 1 == next
            && c.nT == Count(f.y, lb, next, true) && c.nH == Count(f.y, lb, next, false)
  {
    hide Grouped, Exact, Opens;
    GroupedRange(f, cands, next);
    forall k | 0 <= k < |cands|
      ensures Exact(f.y, lb, f.ub, cands[k])
    {
      CountsExact(f, cands, next, lb, k);
    }
    ExactCounts(f.y, lb, f.ub, cands[|cands| - 1]);
  }

  lemma ExactCounts(y: seq<Cell>, lb: nat, ub: nat, c: Candidate)
    requires Exact(y, lb, ub, c)
    ensures lb <= c.yidx < ub <= |y|
    ensures c.nT == Count(y, lb, c.yidx + 1, true) && c.nH == Count(y, lb, c.yidx + 1, false)
  {}

  /** nT and nH are the tails and heads of the segment. */
  predicate Totals(y: seq<Cell>, lb: nat, ub: nat, nT: nat, nH: nat) {
    lb <= ub <= |y| && nT == Count(y, lb, ub, true) && nH == Count(y, lb, ub, false)
  }

  /** A candidate scores -1 exactly when it leaves nothing on its right or the segment has no tails. */
  lemma ScoreOfExact(y: seq<Cell>, lb: nat, ub: nat, c: Candidate, nT: nat, nH: nat)
    requires Exact(y, lb, ub, c) && Totals(y, lb, ub, nT, nH)
    ensures 0 < c.nT + c.nH && c.nT <= nT && c.nH <= nH
    ensures c.yidx + 1 == ub || nT == 0 ==> Score(c, nT, nH) == BAD
    ensures c.yidx + 1 < ub && nT > 0 ==> Score(c, nT, nH) >= 0.0
  {
    hide Count, Metric, Impurity;
    var e := c.yidx + 1;
    CountsAddUp(y, lb, e);
    CountsAddUp(y, lb, ub);
    CountJoins(y, lb, e, ub, true);
    CountJoins(y, lb, e, ub, false);
    MetricRange(c.nT, c.nH, nT, nH);
  }

  lemma BestSoFar(all: seq<Candidate>, cands: seq<Candidate>, nT: nat, nH: nat, w: nat, b: nat, loc: nat)
    requires all != [] ==> Best(all, nT, nH, w, b)
    requires Best(cands, nT, nH, w, loc)
    ensures all == [] || Score(cands[loc], nT, nH) > Score(all[b], nT, nH) ==>
              Best(all + cands, nT, nH, w, |all| + loc) && (all + cands)[|all| + loc] == cands[loc]
    ensures all != [] && Score(cands[loc], nT, nH) <= Score(all[b], nT, nH) ==>
              Best(all + cands, nT, nH, w, b) && (all + cands)[b] == all[b]
  {
    hide Score;
  }

  function Scores(cands: seq<Candidate>, nT: nat, nH: nat): (s: seq<real>)
    ensures |s| == |cands| && forall k :: 0 <= k < |s| ==> s[k] == Score(cands[k], nT, nH)
  {
    seq(|cands|, k requires 0 <= k < |cands| => Score(cands[k], nT, nH))
  }

  /** The pick of the scalar build, and of that for gangs of w. */
  predicate Pick(s: seq<real>, w: nat, loc: nat) {
    if w == 0 then FirstPick(s, loc) else GangPick(s, w, loc)
  }

  /** Evaluate and pick: the two calls made for every fill, in the scalar build and in that for gangs of w. */
  method BestOfFill(m: Metrics, nT: nat, nH: nat, w: nat, nbuf: nat) returns (loc: nat)
    requires m.Valid() && 0 < nbuf <= m.metric.Length && (w > 0 ==> nT > 0)
    requires forall k :: 0 <= k < nbuf ==> 0 < m.At(k).nT + m.At(k).nH && m.At(k).nT <= nT && m.At(k).nH <= nH
    modifies m.metric
    ensures loc < nbuf && Best(m.First(nbuf), nT, nH, w, loc) && m.metric[loc] == Score(m.At(loc), nT, nH)
    ensures forall k :: 0 <= k < nbuf ==> m.metric[k] == Score(m.At(k), nT, nH)
    ensures Pick(Scores(m.First(nbuf), nT, nH), w, loc)
  {
    hide Score, LeadsLane;
    if w == 0 {
      EvalMetrics(m, nT, nH, nbuf);
      loc := CalcBestMetric(m, nbuf);
    } else {
      EvalMetricsGang(m, nT, nH, nbuf);
      forall k | 0 <= k < nbuf
        ensures m.metric[k] >= BAD
      {
        ScoreAtLeast(m.At(k), nT, nH);
      }
      loc := CalcBestMetricGang(m, nbuf, w);
    }
    ghost var s := m.metric[..nbuf];
    assert forall k :: 0 <= k < nbuf ==> s[k] == Score(m.At(k), nT, nH);
    assert s == Scores(m.First(nbuf), nT, nH);
  }

  lemma ScoreAtLeast(c: Candidate, nT: nat, nH: nat)
    ensures Score(c, nT, nH) >= BAD
  {
    hide Metric;
    if 0 < c.nT + c.nH && c.nT <= nT && c.nH <= nH {
      MetricRange(c.nT, c.nH, nT, nH);
    }
  }

  /** What the loop of search_j has found after some fills. */
  ghost predicate Kept(all: seq<Candidate>, nT: nat, nH: nat, w: nat, b: nat, best: Found) {
    if nT == 0 || all == [] then best == NOTHING.(splittable := true)
    else Best(all, nT, nH, w, b) && all[b].nT <= nT && all[b].nH <= nH && best == FoundAt(all[b], nT, nH)
  }

  lemma KeepBest(y: seq<Cell>, lb: nat, ub: nat, nT: nat, nH: nat, w: nat, all: seq<Candidate>, b: nat, best: Found,
                 cands: seq<Candidate>, loc: nat)
    requires Totals(y, lb, ub, nT, nH) && Kept(all, nT, nH, w, b, best) && Best(cands, nT, nH, w, loc)
    requires forall k :: 0 <= k < |cands| ==> Exact(y, lb, ub, cands[k])
    requires nT > 0 && all == [] ==> Score(cands[loc], nT, nH) > BAD
    ensures var c := cands[loc];
            && c.nT <= nT && c.nH <= nH
            && (Score(c, nT, nH) > best.metric ==> Kept(all + cands, nT, nH, w, |all| + loc, FoundAt(c, nT, nH)))
            && (Score(c, nT, nH) <= best.metric ==> Kept(all + cands, nT, nH, w, b, best))
  {
    hide Score, Exact, Count;
    ScoreOfExact(y, lb, ub, cands[loc], nT, nH);
    if nT > 0 {
      BestSoFar(all, cands, nT, nH, w, b, loc);
    }
  }

  /** With two candidates the first one ends before the segment does, so some score is not -1. */
  lemma TwoScore(f: Fill, size: nat, cands: seq<Candidate>, next: nat, nT: nat, nH: nat, w: nat, loc: nat)
    requires FirstFill(f) && Filled(f, size, cands, next) && |cands| >= 2
    requires Totals(f.y, f.lb, f.ub, nT, nH) && nT > 0 && Best(cands, nT, nH, w, loc)
    ensures Score(cands[loc], nT, nH) > BAD
  {
    hide Score, Count, Group, Grouped, Opens;
    GroupedRange(f, cands, next);
    GroupAt(f, cands, next, 1);
    assert Count(f.y, f.lb, f.lb, true) == 0 && Count(f.y, f.lb, f.lb, false) == 0 by {
      CountJoins(f.y, f.lb, f.lb, f.lb, true);
      CountJoins(f.y, f.lb, f.lb, f.lb, false);
    }
    CountsExact(f, cands, next, f.lb, 0);
    ScoreOfExact(f.y, f.lb, f.ub, cands[0], nT, nH);
  }

  /** When a feature can be split: a condition on four numbers and two cells. */
  predicate CanSplit(y: seq<Cell>, lb: nat, ub: nat, minLeafSize: nat, mps: nat, size: nat)
    requires ub <= |y|
  {
    var q := if mps == 0 then 1 else mps;
    && ub - lb > minLeafSize
    && size >= 2
    && ub - lb >= 2 * q
    && y[ub - q].yval != y[lb].yval
  }

  ghost predicate ChosenBy(y: seq<Cell>, lb: nat, ub: nat, nT: nat, nH: nat, w: nat, mps: nat, size: nat,
                           fills: seq<seq<Candidate>>, b: nat, r: Found)
  {
    && Run(y, lb, ub, mps, size, fills, ub)
    && Kept(Concat(fills), nT, nH, w, b, r)
    && (nT > 0 ==> exists at: nat, loc: nat :: PickedIn(fills, nT, nH, w, at, loc, b))
  }

  /** Candidate b is the pick, at loc, of the first fill that holds a greatest score. */
  ghost predicate PickedIn(fills: seq<seq<Candidate>>, nT: nat, nH: nat, w: nat, at: nat, loc: nat, b: nat) {
    && at < |fills| && loc < |fills[at]| && b == |Concat(fills[..at])| + loc
    && Pick(Scores(fills[at], nT, nH), w, loc)
    && AllBelow(Concat(fills[..at]), nT, nH, Score(fills[at][loc], nT, nH), true)
    && AllBelow(Concat(fills), nT, nH, Score(fills[at][loc], nT, nH), false)
  }

  predicate AllBelow(cands: seq<Candidate>, nT: nat, nH: nat, v: real, strictly: bool) {
    forall c :: c in cands ==> if strictly then Score(c, nT, nH) < v else Score(c, nT, nH) <= v
  }

  lemma {:induction false} ConcatAt(fills: seq<seq<Candidate>>, at: nat, loc: nat)
    requires at < |fills| && loc < |fills[at]|
    ensures |Concat(fills[..at])| + loc < |Concat(fills)|
    ensures Concat(fills)[|Concat(fills[..at])| + loc] == fills[at][loc]
    decreases |fills|
  {
    var before := fills[..|fills| - 1];
    if at < |fills| - 1 {
      assert before[..at] == fills[..at];
      ConcatAt(before, at, loc);
    }
  }

  /** The pick after one more fill. */
  lemma PickedOn(fills: seq<seq<Candidate>>, cands: seq<Candidate>, nT: nat, nH: nat, w: nat, at: nat, loc: nat, b: nat, next: nat)
    requires Pick(Scores(cands, nT, nH), w, next) && next < |cands|
    requires fills != [] ==> PickedIn(fills, nT, nH, w, at, loc, b)
    ensures fills == [] ==> PickedIn(fills + [cands], nT, nH, w, |fills|, next, |Concat(fills)| + next)
    ensures fills != [] ==>
              if Score(cands[next], nT, nH) > Score(fills[at][loc], nT, nH)
              then PickedIn(fills + [cands], nT, nH, w, |fills|, next, |Concat(fills)| + next)
              else PickedIn(fills + [cands], nT, nH, w, at, loc, b)
  {
    hide Score, GangPick;
    var fills' := fills + [cands];
    ConcatOn(fills, cands);
    assert fills'[..|fills|] == fills;
    assert at < |fills| ==> fills'[..at] == fills[..at];
    assert Greatest(Scores(cands, nT, nH), next) by {
      PickIsGreatest(Scores(cands, nT, nH), w, next);
    }
    assert forall c :: c in cands ==> Score(c, nT, nH) <= Score(cands[next], nT, nH);
  }

  lemma PickIsGreatest(s: seq<real>, w: nat, loc: nat)
    requires Pick(s, w, loc)
    ensures Greatest(s, loc)
  {}

  /**
    * The scalar build and the one for gangs of w choose the same candidate of a run
    * exactly if in the first fill with a greatest score all its greatest scores,
    * unless they are -1, are in one lane.
    */
  lemma BuildsAgree(fills: seq<seq<Candidate>>, nT: nat, nH: nat, w: nat, at: nat, loc: nat, b: nat, at': nat, loc': nat, b': nat)
    requires w > 0 && PickedIn(fills, nT, nH, 0, at, loc, b) && PickedIn(fills, nT, nH, w, at', loc', b')
    ensures at == at'
    ensures b == b' <==>
            (Score(fills[at][loc], nT, nH) > BAD ==>
               forall k: nat :: k < |fills[at]| && Score(fills[at][k], nT, nH) == Score(fills[at][loc], nT, nH) ==> Lane(k, w) == Lane(loc, w))
  {
    hide Score, LeadsLane, Lane;
    FirstFillOf(fills, nT, nH, 0, at, loc, b, w, at', loc', b');
    FirstFillOf(fills, nT, nH, w, at', loc', b', 0, at, loc, b);
    var s := Scores(fills[at], nT, nH);
    forall k | 0 <= k < |s|
      ensures s[k] >= BAD
    {
      ScoreAtLeast(fills[at][k], nT, nH);
    }
    PicksAgree(s, w, loc, loc');
  }

  lemma FirstFillOf(fills: seq<seq<Candidate>>, nT: nat, nH: nat, w: nat, at: nat, loc: nat, b: nat, w': nat, at': nat, loc': nat, b': nat)
    requires PickedIn(fills, nT, nH, w, at, loc, b) && PickedIn(fills, nT, nH, w', at', loc', b')
    ensures at >= at'
  {
    hide Score, Pick;
    ConcatAt(fills, at', loc');
    assert fills[at'][loc'] in Concat(fills);
    EarlierIsLess(fills, nT, nH, at, loc, w', at', loc', b');
  }

  lemma EarlierIsLess(fills: seq<seq<Candidate>>, nT: nat, nH: nat, at: nat, loc: nat, w: nat, at': nat, loc': nat, b': nat)
    requires PickedIn(fills, nT, nH, w, at', loc', b') && at < |fills| && loc < |fills[at]|
    ensures at < at' ==> Score(fills[at][loc], nT, nH) < Score(fills[at'][loc'], nT, nH)
  {
    hide Score, Pick;
    if at < at' {
      assert fills[..at'][..at] == fills[..at];
      ConcatAt(fills[..at'], at, loc);
      assert fills[at][loc] in Concat(fills[..at']);
    }
  }

  lemma NothingYet(y: seq<Cell>, lb: nat, ub: nat, mps: nat, size: nat, nT: nat, nH: nat, w: nat, b: nat)
    ensures Run(y, lb, ub, mps, size, [], lb)
    ensures NextFill(y, lb, ub, mps, []) == Fill(y, lb, ub, 0, 0, mps)
    ensures Concat([]) == [] && Kept(Concat([]), nT, nH, w, b, NOTHING.(splittable := true))
  {}

  /** One more fill of the buffer. */
  lemma RunOn(y: seq<Cell>, lb: nat, ub: nat, mps: nat, size: nat, fills: seq<seq<Candidate>>,
              f: Fill, cands: seq<Candidate>, next: nat, nT: nat, nH: nat)
    requires lb <= ub && Totals(y, lb, ub, nT, nH)
    requires Run(y, lb, ub, mps, size, fills, f.lb) && NextFill(y, lb, ub, mps, fills) == f
    requires Filled(f, size, cands, next)
    ensures Run(y, lb, ub, mps, size, fills + [cands], next)
    ensures Concat(fills + [cands]) == Concat(fills) + cands
    ensures cands != [] && f.lb < next <= ub && (|cands| < size ==> next == ub)
    ensures var c := cands[|cands| - 1];
            NextFill(y, lb, ub, mps, fills + [cands]) == Fill(y, next, ub, c.nT, c.nH, mps)
    ensures forall k :: 0 <= k < |cands| ==>
              Exact(y, lb, ub, cands[k]) && 0 < cands[k].nT + cands[k].nH && cands[k].nT <= nT && cands[k].nH <= nH
  {
    hide Exact, Count, Grouped, Concat;
    assert (fills + [cands])[..|fills|] == fills;
    assert f.ub == ub && f.y == y;
    TotalsRange(y, lb, ub, nT, nH);
    RunExact(y, lb, ub, mps, size, fills, f.lb);
    FillExact(f, size, cands, next, lb);
    ConcatOn(fills, cands);
    forall k | 0 <= k < |cands|
      ensures 0 < cands[k].nT + cands[k].nH && cands[k].nT <= nT && cands[k].nH <= nH
    {
      ScoreOfExact(y, lb, ub, cands[k], nT, nH);
    }
  }

  lemma TotalsRange(y: seq<Cell>, lb: nat, ub: nat, nT: nat, nH: nat)
    requires Totals(y, lb, ub, nT, nH)
    ensures lb <= ub <= |y|
  {}

  /** The first fill decides whether the feature can be split. */
  lemma FirstDecides(y: seq<Cell>, lb: nat, ub: nat, mps: nat, size: nat, cands: seq<Candidate>, next: nat,
                     nT: nat, nH: nat, w: nat, minLeafSize: nat)
    requires lb < ub <= |y| < 0x1_0000_0000 && Ranked(y, lb, ub) && ub - lb > minLeafSize
    requires Filled(Fill(y, lb, ub, 0, 0, mps), size, cands, next) && Totals(y, lb, ub, nT, nH)
    ensures |cands| >= 2 <==> CanSplit(y, lb, ub, minLeafSize, mps, size)
    ensures |cands| >= 2 && nT > 0 ==> forall loc: nat :: loc < |cands| && Best(cands, nT, nH, w, loc) ==> Score(cands[loc], nT, nH) > BAD
  {
    hide Filled, Ranked, Totals, Best, Score;
    var f := Fill(y, lb, ub, 0, 0, mps);
    SplittableExactly(f, size, cands, next);
    if |cands| >= 2 && nT > 0 {
      forall loc: nat | loc < |cands| && Best(cands, nT, nH, w, loc)
        ensures Score(cands[loc], nT, nH) > BAD
      {
        TwoScore(f, size, cands, next, nT, nH, w, loc);
      }
    }
  }

  lemma SameEnds(y: seq<Cell>, lb: nat, ub: nat, minLeafSize: nat, mps: nat, size: nat)
    requires lb < ub <= |y| && Ranked(y, lb, ub) && y[lb].yval == y[ub - 1].yval
    ensures !CanSplit(y, lb, ub, minLeafSize, mps, size)
  {
    var q := if mps == 0 then 1 else mps;
    assert ub - lb >= 2 * q ==> y[lb].yval <= y[ub - q].yval && (q == 1 || y[ub - q].yval <= y[ub - 1].yval);
  }

  /**
    * search_j.  Its error returns (feature out of range, empty segment, segment past
    * the column, empty buffer) cannot be reached under these preconditions.
    */
  method SearchJ(y: array<Cell>, lb: nat, ub: nat, nT: nat, nH: nat, w: nat, m: Metrics, minLeafSize: nat, mps: nat)
    returns (r: Found, ghost fills: seq<seq<Candidate>>, ghost b: nat)
    requires lb <= ub <= y.Length < 0x1_0000_0000 && Ranked(y[..], lb, ub)
    requires Totals(y[..], lb, ub, nT, nH) && (w > 0 ==> nT > 0)
    requires m.Valid() && m.metric.Length > 0
    modifies m.yval, m.yidx, m.nT, m.nH, m.metric
    ensures r.splittable <==> CanSplit(y[..], lb, ub, minLeafSize, mps, m.metric.Length)
    ensures r.splittable ==> ChosenBy(y[..], lb, ub, nT, nH, w, mps, m.metric.Length, fills, b, r)
    ensures r.splittable && nT > 0 ==> r.metric > BAD
  {
    hide Count, Group, Grouped, Opens, Filled, Score, Best, Exact, Concat, Run, Pick, PickedIn, Kept, NextFill, Totals, Ranked, CanSplit, ChosenBy;
    ghost var ys, size := y[..], m.metric.Length;
    r, fills, b := NOTHING, [], 0;
    if ub - lb <= minLeafSize {
      TooSmall(ys, lb, ub, minLeafSize, mps, size);
      return;
    }
    if y[lb] == y[ub - 1] {
      SameEnds(ys, lb, ub, minLeafSize, mps, size);
      return;
    }
    r := r.(splittable := true);
    var rest, newLb := lb, lb;
    var prevT: nat, prevH: nat := 0, 0;
    var iter := 0;
    ghost var at: nat, place: nat := 0, 0;
    NothingYet(ys, lb, ub, mps, size, nT, nH, w, b);
    while newLb < ub
      invariant lb <= rest == newLb <= ub
      invariant iter == 0 <==> fills == []
      invariant iter == 0 ==> newLb == lb && prevT == 0 && prevH == 0 && Concat(fills) == []
      invariant iter != 0 ==> CanSplit(ys, lb, ub, minLeafSize, mps, size) && Concat(fills) != []
      invariant Run(ys, lb, ub, mps, size, fills, newLb)
      invariant NextFill(ys, lb, ub, mps, fills) == Fill(ys, rest, ub, prevT, prevH, mps)
      invariant Kept(Concat(fills), nT, nH, w, b, r) && r.splittable
      invariant if iter == 0 then r.metric == BAD else nT > 0 ==> r.metric > BAD
      invariant nT > 0 && fills != [] ==> PickedIn(fills, nT, nH, w, at, place, b)
      decreases ub - newLb
    {
      var nbuf;
      nbuf, newLb := Accumulate(y, rest, ub, prevT, prevH, m, mps);
      ghost var f, cands := Fill(ys, rest, ub, prevT, prevH, mps), m.First(nbuf);
      RunOn(ys, lb, ub, mps, size, fills, f, cands, newLb, nT, nH);
      if iter == 0 {
        FirstDecides(ys, lb, ub, mps, size, cands, newLb, nT, nH, w, minLeafSize);
        if nbuf <= 1 {
          r := r.(splittable := false);
          return;
        }
      }
      var loc := BestOfFill(m, nT, nH, w, nbuf);
      KeepBest(ys, lb, ub, nT, nH, w, Concat(fills), b, r, cands, loc);
      FoundIs(cands[loc], nT, nH);
      if nT > 0 {
        PickKept(fills, cands, nT, nH, w, at, place, b, loc, r);
      }
      if m.metric[loc] > r.metric {
        at, place := |fills|, loc;
        r := Found(true, m.metric[loc], m.yval[loc], m.yidx[loc],
                   FourNums(m.nT[loc], m.nH[loc], nT - m.nT[loc], nH - m.nH[loc]));
        b := |Concat(fills)| + loc;
      }
      fills := fills + [cands];
      if nbuf < m.metric.Length {
        break;
      }
      rest := newLb;
      prevT, prevH := m.nT[nbuf - 1], m.nH[nbuf - 1];
      iter := iter + 1;
    }
    Chosen(ys, lb, ub, nT, nH, w, mps, size, fills, b, r);
  }

  lemma TooSmall(y: seq<Cell>, lb: nat, ub: nat, minLeafSize: nat, mps: nat, size: nat)
    requires lb <= ub <= |y| && ub - lb <= minLeafSize
    ensures !CanSplit(y, lb, ub, minLeafSize, mps, size)
  {}

  lemma FoundIs(c: Candidate, nT: nat, nH: nat)
    requires c.nT <= nT && c.nH <= nH
    ensures FoundAt(c, nT, nH) ==
            Found(true, Score(c, nT, nH), c.yval, c.yidx, FourNums(c.nT, c.nH, nT - c.nT, nH - c.nH))
  {}

  lemma KeptScore(fills: seq<seq<Candidate>>, nT: nat, nH: nat, w: nat, at: nat, loc: nat, b: nat, r: Found)
    requires nT > 0 && Kept(Concat(fills), nT, nH, w, b, r) && PickedIn(fills, nT, nH, w, at, loc, b)
    ensures at < |fills| && loc < |fills[at]| && r.metric == Score(fills[at][loc], nT, nH)
  {
    hide Score, Pick, AllBelow, Best;
    ConcatAt(fills, at, loc);
  }

  lemma PickKept(fills: seq<seq<Candidate>>, cands: seq<Candidate>, nT: nat, nH: nat, w: nat, at: nat, loc: nat, b: nat, next: nat, r: Found)
    requires nT > 0 && Kept(Concat(fills), nT, nH, w, b, r)
    requires Pick(Scores(cands, nT, nH), w, next) && next < |cands|
    requires fills != [] ==> PickedIn(fills, nT, nH, w, at, loc, b)
    ensures if fills == [] || Score(cands[next], nT, nH) > r.metric
            then PickedIn(fills + [cands], nT, nH, w, |fills|, next, |Concat(fills)| + next)
            else PickedIn(fills + [cands], nT, nH, w, at, loc, b)
  {
    hide *;
    PickedOn(fills, cands, nT, nH, w, at, loc, b, next);
    if fills != [] {
      KeptScore(fills, nT, nH, w, at, loc, b, r);
    }
  }

  lemma Chosen(y: seq<Cell>, lb: nat, ub: nat, nT: nat, nH: nat, w: nat, mps: nat, size: nat,
               fills: seq<seq<Candidate>>, b: nat, r: Found)
    requires Run(y, lb, ub, mps, size, fills, ub) && Kept(Concat(fills), nT, nH, w, b, r)
    requires nT > 0 ==> exists at: nat, loc: nat :: PickedIn(fills, nT, nH, w, at, loc, b)
    ensures ChosenBy(y, lb, ub, nT, nH, w, mps, size, fills, b, r)
  {}

  /** In every fill of a run, candidates end where the value changes. */
  ghost predicate AllAligned(y: seq<Cell>, lb: nat, ub: nat, mps: nat, fills: seq<seq<Candidate>>) {
    forall j :: 0 <= j < |fills| ==> Aligned(Fill(y, lb, ub, 0, 0, mps), fills[j])
  }

  lemma {:induction false} NoLimitAligns(y: seq<Cell>, lb: nat, ub: nat, size: nat, fills: seq<seq<Candidate>>, next: nat)
    requires Run(y, lb, ub, 0, size, fills, next)
    ensures AllAligned(y, lb, ub, 0, fills)
    decreases |fills|
  {
    hide Filled;
    if fills != [] {
      var before := fills[..|fills| - 1];
      var f := NextFill(y, lb, ub, 0, before);
      NoLimitAligns(y, lb, ub, size, before, f.lb);
      SmallLimitAligns(f, size, fills[|fills| - 1], next);
      assert f.y == y && f.ub == ub;
      assert forall j :: 0 <= j < |before| ==> fills[j] == before[j];
    }
  }

  /** With such a limit there is one fill, of one candidate. */
  lemma {:induction false} HugeLimitAligns(y: seq<Cell>, lb: nat, ub: nat, mps: nat, size: nat, fills: seq<seq<Candidate>>, next: nat)
    requires Run(y, lb, ub, mps, size, fills, next) && fills != []
    requires ub <= |y| < 0x1_0000_0000 && Ranked(y, lb, ub) && mps >= 0x8000_0000
    ensures |fills| == 1 && |fills[0]| == 1 && next == ub == fills[0][0].yidx + 1
    decreases |fills|
  {
    hide Grouped, Ranked;
    var before := fills[..|fills| - 1];
    var f, cands := NextFill(y, lb, ub, mps, before), fills[|fills| - 1];
    GroupedRange(f, cands, next);
    if before != [] {
      HugeLimitAligns(y, lb, ub, mps, size, before, f.lb);
    } else {
      HugeLimitOnce(f, size, cands, next);
    }
  }

  lemma OneFill(y: seq<Cell>, lb: nat, ub: nat, mps: nat, size: nat, cands: seq<Candidate>, next: nat)
    requires Filled(Fill(y, lb, ub, 0, 0, mps), size, cands, next)
    ensures Run(y, lb, ub, mps, size, [cands], next)
  {
    assert [cands][..0] == [];
  }

  /**
    * Over whole runs, refills included: candidates end where the value changes, for
    * all columns and buffers, exactly when there is no limit (or one so large that a
    * segment is never cut).
    */
  lemma RunsAlignExactly(mps: nat)
    requires mps < 0x1_0000_0000
    ensures (forall y: seq<Cell>, lb: nat, ub: nat, size: nat, fills: seq<seq<Candidate>>, next: nat ::
               ub <= |y| < 0x1_0000_0000 && Ranked(y, lb, ub) && Run(y, lb, ub, mps, size, fills, next) ==> AllAligned(y, lb, ub, mps, fills))
            <==> mps == 0 || mps >= 0x8000_0000
  {
    hide Run, Filled, Ranked;
    if mps == 0 || mps >= 0x8000_0000 {
      forall y: seq<Cell>, lb: nat, ub: nat, size: nat, fills: seq<seq<Candidate>>, next: nat |
        ub <= |y| < 0x1_0000_0000 && Ranked(y, lb, ub) && Run(y, lb, ub, mps, size, fills, next)
        ensures AllAligned(y, lb, ub, mps, fills)
      {
        if mps == 0 {
          NoLimitAligns(y, lb, ub, size, fills, next);
        } else if fills != [] {
          HugeLimitAligns(y, lb, ub, mps, size, fills, next);
        }
      }
    } else if mps == 1 {
      var y, first, second := RefillMisaligns();
      OneFill(y, 0, 6, 1, 2, first, 2);
      TwoFills(y, first, second);
      var fills := [first, second];
      assert !Aligned(Fill(y, 0, 6, 0, 0, 1), fills[1]);
      assert Run(y, 0, 6, mps, 2, fills, 6) && !AllAligned(y, 0, 6, mps, fills);
    } else {
      var f, cands := LargeLimitMisaligns(mps);
      FirstFillIs(f);
      var y, lb: nat, ub: nat, fills := f.y, f.lb, f.ub, [cands];
      OneFill(y, lb, ub, mps, 2, cands, ub);
      assert !Aligned(Fill(y, lb, ub, 0, 0, mps), fills[0]);
      assert Run(y, lb, ub, mps, 2, fills, ub) && !AllAligned(y, lb, ub, mps, fills);
    }
  }

  lemma TwoFills(y: seq<Cell>, first: seq<Candidate>, second: seq<Candidate>)
    requires |first| == 2 && first[1].yidx == 1 && Run(y, 0, 6, 1, 2, [first], 2)
    requires Filled(Fill(y, 2, 6, first[1].nT, first[1].nH, 1), 2, second, 6)
    ensures Run(y, 0, 6, 1, 2, [first, second], 6)
  {
    hide Filled;
    assert [first, second][..1] == [first];
  }

  lemma {:induction false} GroupsFit(f: Fill, cands: seq<Candidate>, i: nat)
    requires Grouped(f, cands, i)
    ensures |cands| <= i - f.lb
    decreases |cands|
  {
    hide Opens, Count;
    var before := cands[..|cands| - 1];
    GroupCounts(f, Start(f, before), cands[|cands| - 1]);
    if before != [] {
      GroupsFit(f, before, Start(f, before));
    }
  }

  /** A buffer with room for as many candidates as the segment has cells is never refilled. */
  lemma {:induction false} NoRefill(y: seq<Cell>, lb: nat, ub: nat, mps: nat, size: nat, fills: seq<seq<Candidate>>, next: nat)
    requires Run(y, lb, ub, mps, size, fills, next) && fills != [] && ub - lb <= size
    ensures |fills| == 1 && Filled(Fill(y, lb, ub, 0, 0, mps), size, fills[0], next)
    decreases |fills|
  {
    hide Grouped, Opens;
    var before := fills[..|fills| - 1];
    var f := NextFill(y, lb, ub, mps, before);
    GroupedRange(f, fills[|fills| - 1], next);
    if before != [] {
      NoRefill(y, lb, ub, mps, size, before, f.lb);
      GroupsFit(Fill(y, lb, ub, 0, 0, mps), before[0], f.lb);
    }
  }

  /**
    * The split that search_j reports really splits the segment, with the right
    * counts on both sides; without a refill neither side is smaller than mps.
    */
  lemma ChosenSplits(y: seq<Cell>, lb: nat, ub: nat, nT: nat, nH: nat, w: nat, mps: nat, size: nat,
                     fills: seq<seq<Candidate>>, b: nat, r: Found)
    requires lb < ub <= |y| < 0x1_0000_0000 && Ranked(y, lb, ub) && Totals(y, lb, ub, nT, nH) && nT > 0
    requires ChosenBy(y, lb, ub, nT, nH, w, mps, size, fills, b, r) && r.metric > BAD
    ensures lb < r.yidx + 1 < ub && r.metric >= 0.0
    ensures Totals(y, lb, r.yidx + 1, r.num4.nTL, r.num4.nHL)
    ensures Totals(y, r.yidx + 1, ub, r.num4.nTR, r.num4.nHR)
    ensures ub - lb <= size ==> r.yidx + 1 - lb >= mps && ub - (r.yidx + 1) >= mps
  {
    hide Count, Score, Filled, Concat, Ranked, Best;
    var all := Concat(fills);
    RunExact(y, lb, ub, mps, size, fills, ub);
    BestIn(all, nT, nH, w, b);
    var c := all[b];
    ScoreOfExact(y, lb, ub, c, nT, nH);
    CountJoins(y, lb, c.yidx + 1, ub, true);
    CountJoins(y, lb, c.yidx + 1, ub, false);
    if ub - lb <= size {
      NoRefill(y, lb, ub, mps, size, fills, ub);
      ConcatOne(fills[0]);
      assert fills == [fills[0]];
      SidesLargeEnough(Fill(y, lb, ub, 0, 0, mps), size, fills[0], ub, b);
    }
  }

  lemma BestIn(all: seq<Candidate>, nT: nat, nH: nat, w: nat, b: nat)
    requires Best(all, nT, nH, w, b)
    ensures b < |all|
  {}

  // ---------------------------------------------------------------------------
  // All features

  /** r is what search_j reports for one column. */
  ghost predicate ResultFor(y: seq<Cell>, lb: nat, ub: nat, nT: nat, nH: nat, w: nat, minLeafSize: nat, mps: nat, size: nat, r: Found) {
    && ub <= |y|
    && (r.splittable <==> CanSplit(y, lb, ub, minLeafSize, mps, size))
    && (r.splittable ==> exists fills, b :: ChosenBy(y, lb, ub, nT, nH, w, mps, size, fills, b, r))
    && (r.splittable && nT > 0 ==> r.metric > BAD)
  }

  /** j is the first feature with the greatest metric among those that can be split. */
  ghost predicate BestFeature(found: seq<Found>, j: nat) {
    && j < |found| && found[j].splittable
    && (forall k :: 0 <= k < |found| && found[k].splittable ==> found[k].metric <= found[j].metric)
    && (forall k :: 0 <= k < j && found[k].splittable ==> found[k].metric < found[j].metric)
  }

  ghost function Buffers(ms: seq<Metrics>): set<object> {
    set i, a | 0 <= i < |ms| && a in ms[i].Arrays() :: a
  }

  lemma BufferOf(ms: seq<Metrics>, j: nat)
    requires j < |ms|
    ensures ms[j].yval in Buffers(ms) && ms[j].yidx in Buffers(ms) && ms[j].nT in Buffers(ms)
    ensures ms[j].nH in Buffers(ms) && ms[j].metric in Buffers(ms)
  {
    assert ms[j].yval in ms[j].Arrays() && ms[j].yidx in ms[j].Arrays() && ms[j].nT in ms[j].Arrays();
    assert ms[j].nH in ms[j].Arrays() && ms[j].metric in ms[j].Arrays();
  }

  /** No column is a candidate buffer. */
  lemma ColumnsApart(ys: seq<array<Cell>>, ms: seq<Metrics>, j: nat)
    requires j < |ys|
    ensures ys[j] !in Buffers(ms)
  {}

  /** Column j of the segment is in rank order and has the given totals. */
  ghost predicate Searchable(y: seq<Cell>, lb: nat, ub: nat, nT: nat, nH: nat) {
    && lb <= ub <= |y| < 0x1_0000_0000
    && Ranked(y, lb, ub) && Totals(y, lb, ub, nT, nH)
  }

  method SearchFeatures(ys: seq<array<Cell>>, lb: nat, ub: nat, nT: nat, nH: nat, w: nat, ms: seq<Metrics>,
                        minLeafSize: nat, mps: nat, size: nat)
    returns (found: seq<Found>)
    requires |ys| == |ms| && size > 0 && (w > 0 ==> nT > 0)
    requires forall j :: 0 <= j < |ys| ==> Searchable(ys[j][..], lb, ub, nT, nH)
    requires forall j :: 0 <= j < |ms| ==> ms[j].Valid() && ms[j].metric.Length == size
    modifies Buffers(ms)
    ensures |found| == |ys|
    ensures forall j :: 0 <= j < |ys| ==> ResultFor(ys[j][..], lb, ub, nT, nH, w, minLeafSize, mps, size, found[j])
  {
    hide Count, ChosenBy, CanSplit, Ranked, Totals, Buffers;
    found := [];
    forall k | 0 <= k < |ys|
      ensures ys[k] !in Buffers(ms)
    {
      ColumnsApart(ys, ms, k);
    }
    found := seq(|ys|, _ => NOTHING);
    var todo := Preproc.Upto(|ys|);
    while todo != {}
      invariant |found| == |ys| && forall j :: j in todo ==> j < |ys|
      invariant forall k :: 0 <= k < |ys| ==> ys[k][..] == old(ys[k][..])
      invariant forall k :: 0 <= k < |ys| && k !in todo ==>
        ResultFor(ys[k][..], lb, ub, nT, nH, w, minLeafSize, mps, size, found[k])
      decreases todo
    {
      var j :| j in todo;
      BufferOf(ms, j);
      assert Searchable(ys[j][..], lb, ub, nT, nH);
      var r;
      ghost var fills, b;
      r, fills, b := SearchJ(ys[j], lb, ub, nT, nH, w, ms[j], minLeafSize, mps);
      found := found[j := r];
      todo := todo - {j};
    }
  }

  method Search(ys: seq<array<Cell>>, lb: nat, ub: nat, nT: nat, nH: nat, w: nat, ms: seq<Metrics>,
                minLeafSize: nat, mps: nat, size: nat)
    returns (isSplittable: bool, feature: nat, yval: nat, yidx: nat, num4: FourNums, ghost found: seq<Found>)
    requires |ys| == |ms| && size > 0 && (w > 0 ==> nT > 0)
    requires forall j :: 0 <= j < |ys| ==> Searchable(ys[j][..], lb, ub, nT, nH)
    requires forall j :: 0 <= j < |ms| ==> ms[j].Valid() && ms[j].metric.Length == size
    modifies Buffers(ms)
    ensures |found| == |ys|
    ensures forall j :: 0 <= j < |ys| ==> ResultFor(ys[j][..], lb, ub, nT, nH, w, minLeafSize, mps, size, found[j])
    ensures isSplittable <==> exists j :: 0 <= j < |found| && found[j].splittable
    ensures isSplittable ==>
              && BestFeature(found, feature)
              && yval == found[feature].yval && yidx == found[feature].yidx + 1 && num4 == found[feature].num4
  {
    hide ResultFor, Searchable, Buffers;
    var results := SearchFeatures(ys, lb, ub, nT, nH, w, ms, minLeafSize, mps, size);
    found := results;
    isSplittable, feature, yval, yidx, num4 := false, 0, 0, 0, FourNums(0, 0, 0, 0);
    var bestMetric := BAD;
    var j := 0;
    while j < |results|
      modifies {}
      invariant 0 <= j <= |results|
      invariant isSplittable <==> exists k :: 0 <= k < j && found[k].splittable
      invariant isSplittable ==> feature < j && found[feature].splittable && bestMetric == found[feature].metric
      invariant isSplittable ==> yval == found[feature].yval && yidx == found[feature].yidx + 1 && num4 == found[feature].num4
      invariant isSplittable ==> forall k :: 0 <= k < j && found[k].splittable ==> found[k].metric <= bestMetric
      invariant isSplittable ==> forall k :: 0 <= k < feature && found[k].splittable ==> found[k].metric < bestMetric
    {
      if results[j].splittable && (!isSplittable || results[j].metric > bestMetric) {
        feature, bestMetric := j, results[j].metric;
        yval, yidx, num4 := results[j].yval, results[j].yidx + 1, results[j].num4;
        isSplittable := true;
      }
      j := j + 1;
    }
  }
}
