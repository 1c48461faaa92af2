/**
  * One presorted feature column of the decision-tree builder.
  *
  * A cell packs the row it came from, the row's goal and the rank of its value
  * into one 64-bit word (DT/inc/macros.h:11-14, DT/src/preproc_j.c:11-22).  The
  * lemmas about `Word` show that packing loses nothing exactly when the fields
  * are in range; everywhere else a cell is the triple that its word unpacks to.
  */
module Columns {
  type Word = bv64

  function Pack(from: Word, goal: Word, yval: Word): Word {
    (from << 32) | (goal << 31) | yval
  }

  function GetFrom(w: Word): Word { w >> 32 }

  function GetGoal(w: Word): Word { (w >> 31) & 1 }

  function GetYval(w: Word): Word { w & 0x7FFF_FFFF }

  /** The fields come back exactly when row, goal and rank fit in 32, 1 and 31 bits. */
  lemma UnpackPack(from: Word, goal: Word, yval: Word)
    ensures
      && GetFrom(Pack(from, goal, yval)) == from
      && GetGoal(Pack(from, goal, yval)) == goal
      && GetYval(Pack(from, goal, yval)) == yval
      <==> from < 0x1_0000_0000 && goal < 2 && yval < 0x8000_0000
  {
    FieldsTooWide(from, goal, yval);
  }

  lemma FieldsTooWide(from: Word, goal: Word, yval: Word)
    ensures GetFrom(Pack(from, goal, yval)) < 0x1_0000_0000
    ensures GetGoal(Pack(from, goal, yval)) < 2
    ensures GetYval(Pack(from, goal, yval)) < 0x8000_0000
  {}

  lemma PackUnpack(w: Word)
    ensures Pack(GetFrom(w), GetGoal(w), GetYval(w)) == w
  {}

  /** Two words are equal exactly when all three fields agree. */
  lemma SameWord(v: Word, w: Word)
    ensures v == w <==> GetFrom(v) == GetFrom(w) && GetGoal(v) == GetGoal(w) && GetYval(v) == GetYval(w)
  {
    hide *;
    PackUnpack(v);
    PackUnpack(w);
  }

  datatype Cell = Cell(from: nat, goal: nat, yval: nat)
  {
    predicate InRange() { from < 0x1_0000_0000 && goal < 2 && yval < 0x8000_0000 }
  }

  // ---------------------------------------------------------------------------
  // A column y of n cells and its inverse array to

  /** `to` and the rows named by `y` are inverse permutations of 0..n-1. */
  predicate Inverse(y: seq<Cell>, to: seq<nat>) {
    && |y| == |to|
    && (forall i :: 0 <= i < |y| ==> y[i].from < |to| && to[y[i].from] == i)
    && (forall r :: 0 <= r < |to| ==> to[r] < |y| && y[to[r]].from == r)
  }

  /** Positions lb..ub-1 are in ascending order of rank. */
  predicate Ranked(y: seq<Cell>, lb: nat, ub: nat)
    requires ub <= |y|
  {
    forall i, j :: lb <= i < j < ub ==> y[i].yval <= y[j].yval
  }

  /** The rows at positions lb..ub-1 ascend in pos. */
  predicate Ordered(y: seq<Cell>, pos: seq<nat>, lb: nat, ub: nat)
    requires ub <= |y|
  {
    forall i, j :: lb <= i < j < ub ==> y[i].from < |pos| && y[j].from < |pos| && pos[y[i].from] < pos[y[j].from]
  }

  /** Every cell carries the goal of its row. */
  predicate GoalsMatch(y: seq<Cell>, g: seq<nat>) {
    forall i :: 0 <= i < |y| ==> y[i].from < |g| && y[i].goal == g[y[i].from]
  }

  /** Row r lies in the segment lb..ub-1 of the column whose inverse is `to`. */
  predicate InSegment(to: seq<nat>, r: nat, lb: nat, ub: nat)
    requires r < |to|
  {
    lb <= to[r] < ub
  }

  /** The two columns hold the same rows in the segment lb..ub-1. */
  predicate SameRows(to: seq<nat>, to': seq<nat>, lb: nat, ub: nat) {
    && |to| == |to'|
    && forall r :: 0 <= r < |to| ==> (InSegment(to, r, lb, ub) <==> InSegment(to', r, lb, ub))
  }

  /** Two different positions never hold the same cell. */
  lemma CellsDiffer(y: seq<Cell>, to: seq<nat>, i: nat, j: nat)
    requires Inverse(y, to) && i < |y| && j < |y| && i != j
    ensures y[i] != y[j]
  {
    assert to[y[i].from] == i && to[y[j].from] == j;
  }

  // ---------------------------------------------------------------------------
  // Splitting a run of cells: who goes left, who goes right, in order

  predicate GoesLeft(c: Cell, toSplit: seq<nat>, at: nat) {
    c.from < |toSplit| && toSplit[c.from] < at
  }

  /** The cells of s that go left (or right), in their order in s. */
  function Side(s: seq<Cell>, toSplit: seq<nat>, at: nat, left: bool): seq<Cell> {
    if s == [] then [] else
      var rest := Side(s[..|s| - 1], toSplit, at, left);
      if GoesLeft(s[|s| - 1], toSplit, at) == left then rest + [s[|s| - 1]] else rest
  }

  function Partition(s: seq<Cell>, toSplit: seq<nat>, at: nat): seq<Cell> {
    Side(s, toSplit, at, true) + Side(s, toSplit, at, false)
  }

  /** A side is a subsequence: idx names, in ascending order, where each of its cells stood. */
  lemma {:induction false} SideFrom(s: seq<Cell>, toSplit: seq<nat>, at: nat, left: bool) returns (idx: seq<nat>)
    ensures |idx| == |Side(s, toSplit, at, left)|
    ensures forall k :: 0 <= k < |idx| ==>
              && idx[k] < |s|
              && Side(s, toSplit, at, left)[k] == s[idx[k]]
              && GoesLeft(s[idx[k]], toSplit, at) == left
    ensures forall k, l :: 0 <= k < l < |idx| ==> idx[k] < idx[l]
  {
    if s == [] {
      idx := [];
    } else {
      idx := SideFrom(s[..|s| - 1], toSplit, at, left);
      if GoesLeft(s[|s| - 1], toSplit, at) == left {
        idx := idx + [|s| - 1];
      }
    }
  }

  /** Every cell that belongs to a side is found there. */
  lemma {:induction false} SideHas(s: seq<Cell>, toSplit: seq<nat>, at: nat, left: bool, i: nat) returns (k: nat)
    requires i < |s| && GoesLeft(s[i], toSplit, at) == left
    ensures k < |Side(s, toSplit, at, left)| && Side(s, toSplit, at, left)[k] == s[i]
  {
    if i == |s| - 1 {
      k := |Side(s, toSplit, at, left)| - 1;
    } else {
      k := SideHas(s[..|s| - 1], toSplit, at, left, i);
    }
  }

  lemma {:induction false} SidesAddUp(s: seq<Cell>, toSplit: seq<nat>, at: nat)
    ensures |Side(s, toSplit, at, true)| + |Side(s, toSplit, at, false)| == |s|
  {
    if s != [] {
      SidesAddUp(s[..|s| - 1], toSplit, at);
    }
  }

  /** Reading one more cell extends its own side and leaves the other as it was. */
  lemma SideOn(y: seq<Cell>, lb: nat, i: nat, toSplit: seq<nat>, at: nat, left: bool)
    requires lb <= i < |y|
    ensures Side(y[lb..i + 1], toSplit, at, left) ==
            Side(y[lb..i], toSplit, at, left) + if GoesLeft(y[i], toSplit, at) == left then [y[i]] else []
  {
    assert y[lb..i + 1][..i - lb] == y[lb..i];
    assert y[lb..i + 1][i - lb] == y[i];
  }

  lemma {:induction false} SideOfPrefix(s: seq<Cell>, i: nat, toSplit: seq<nat>, at: nat, left: bool)
    requires i <= |s|
    ensures |Side(s[..i], toSplit, at, left)| <= |Side(s, toSplit, at, left)|
    ensures i < |s| && GoesLeft(s[i], toSplit, at) == left ==>
              |Side(s[..i], toSplit, at, left)| < |Side(s, toSplit, at, left)|
    decreases |s|
  {
    if i == |s| {
      assert s[..i] == s;
    } else {
      SideOfPrefix(s[..|s| - 1], i, toSplit, at, left);
      assert s[..|s| - 1][..i] == s[..i];
    }
  }

  // ---------------------------------------------------------------------------
  // The counting argument

  /** Distinct numbers between a and b are at most b - a many. */
  lemma {:induction false} Pigeonhole(q: seq<nat>, a: nat, b: nat)
    requires a <= b
    requires forall i :: 0 <= i < |q| ==> a <= q[i] < b
    requires forall i, j :: 0 <= i < j < |q| ==> q[i] != q[j]
    ensures |q| <= b - a
    decreases b
  {
    if q != [] {
      assert a <= q[0] < b;
      if i: nat :| i < |q| && q[i] == b - 1 {
        Pigeonhole(q[..i] + q[i + 1..], a, b - 1);
      } else {
        Pigeonhole(q, a, b - 1);
      }
    }
  }

  /** Cells at distinct places of the splitting column cannot outnumber the places. */
  lemma SideIsSmall(s: seq<Cell>, toSplit: seq<nat>, at: nat, left: bool, a: nat, b: nat)
    requires a <= b
    requires forall i :: 0 <= i < |s| ==> s[i].from < |toSplit|
    requires forall i, j :: 0 <= i < j < |s| ==> toSplit[s[i].from] != toSplit[s[j].from]
    requires forall i :: 0 <= i < |s| && GoesLeft(s[i], toSplit, at) == left ==> a <= toSplit[s[i].from] < b
    ensures |Side(s, toSplit, at, left)| <= b - a
  {
    var idx := SideFrom(s, toSplit, at, left);
    var q := seq(|idx|, (k: nat) requires k < |idx| && idx[k] < |s| && s[idx[k]].from < |toSplit| => toSplit[s[idx[k]].from]);
    Pigeonhole(q, a, b);
  }

  /**
    * Exactly at - lb cells go left: both sides fit their halves of the splitting
    * column, and together they are all the cells.
    */
  lemma HalvesFill(y: seq<Cell>, to: seq<nat>, ySplit: seq<Cell>, toSplit: seq<nat>, lb: nat, at: nat, ub: nat)
    requires Inverse(y, to) && Inverse(ySplit, toSplit) && lb <= at <= ub <= |y|
    requires SameRows(to, toSplit, lb, ub)
    ensures |Side(y[lb..ub], toSplit, at, true)| == at - lb
    ensures |Side(y[lb..ub], toSplit, at, false)| == ub - at
  {
    var s := y[lb..ub];
    forall i | 0 <= i < |s|
      ensures s[i].from < |toSplit| && lb <= toSplit[s[i].from] < ub
    {
      assert InSegment(to, y[lb + i].from, lb, ub);
    }
    forall i, j | 0 <= i < j < |s|
      ensures toSplit[s[i].from] != toSplit[s[j].from]
    {
      assert to[y[lb + i].from] == lb + i && to[y[lb + j].from] == lb + j;
      assert ySplit[toSplit[s[i].from]].from == s[i].from;
    }
    SideIsSmall(s, toSplit, at, true, lb, at);
    SideIsSmall(s, toSplit, at, false, at, ub);
    SidesAddUp(s, toSplit, at);
  }
}
