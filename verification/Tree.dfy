/**
  * The tree that `split` grows (DT/inc/types.h, DT/src/split.c) and the checks that
  * DT/src/check_tree.c makes of it, strengthened by what each node stands for: a
  * set of rows.
  */
module Tree {
  import opened Cuts

  datatype Node = Node(depth: int, lchild: int, rchild: int, parent: int, nT: nat, nH: nat)

  const BLANK := Node(-1, -1, -1, -1, 0, 0)

  /** In some feature no row on the left has a greater value than a row on the right. */
  ghost predicate Separated(feats: seq<Feature>, left: set<nat>, right: set<nat>) {
    exists j :: 0 <= j < |feats| && Below(feats[j], left, right)
  }

  /** c is no child, or a later node whose parent is i and whose rows are some of i's. */
  ghost predicate ChildOf(t: seq<Node>, rows: seq<set<nat>>, i: nat, c: int)
    requires i < |t| == |rows|
  {
    c == -1 || (i < c < |t| && t[c].parent == i && rows[c] <= rows[i])
  }

  ghost predicate NodeOk(t: seq<Node>, rows: seq<set<nat>>, g: seq<nat>, feats: seq<Feature>, i: nat)
    requires i < |t| == |rows|
  {
    && t[i].nT == |WithGoal(rows[i], g, true)| && t[i].nH == |WithGoal(rows[i], g, false)|
    && ChildOf(t, rows, i, t[i].lchild) && ChildOf(t, rows, i, t[i].rchild)
    && (t[i].lchild != -1 && t[i].rchild != -1 ==>
          var l, r := rows[t[i].lchild], rows[t[i].rchild];
          && t[i].lchild != t[i].rchild && l !! r && l + r == rows[i] && Separated(feats, l, r))
  }

  ghost predicate HasParent(t: seq<Node>, mps: nat, maxDepth: nat, i: nat)
    requires 0 < i < |t|
  {
    var p := t[i].parent;
    && 0 <= p < i
    && (t[p].lchild == i || t[p].rchild == i)
    && t[i].depth == t[p].depth + 1 <= maxDepth
    && t[i].nT + t[i].nH >= mps
  }

  ghost predicate TreeOk(t: seq<Node>, rows: seq<set<nat>>, g: seq<nat>, feats: seq<Feature>, mps: nat, maxDepth: nat) {
    && 0 < |t| == |rows|
    && t[0].parent == -1 && t[0].depth == 0
    && (forall i :: 0 <= i < |t| ==> NodeOk(t, rows, g, feats, i))
    && (forall i :: 0 < i < |t| ==> HasParent(t, mps, maxDepth, i))
  }

  // ---------------------------------------------------------------------------
  // Which nodes are split

  /** The rows whose value is above the least one. */
  ghost function AboveLeast(f: Feature, rows: set<nat>): set<nat> {
    set r | r in rows && r < |f.val| && exists q :: q in rows && q < |f.val| && f.val[q] < f.val[r]
  }

  /** A feature offers a split: there are enough rows, and enough of them are above the least value. */
  ghost predicate CanDivide(f: Feature, rows: set<nat>, cfg: Config) {
    var q := if cfg.minPartitionSize == 0 then 1 else cfg.minPartitionSize;
    && |rows| > cfg.minLeafSize
    && cfg.bufSize >= 2
    && |rows| >= 2 * q
    && |AboveLeast(f, rows)| >= q
  }

  ghost predicate SomeDivides(feats: seq<Feature>, rows: set<nat>, cfg: Config) {
    exists j :: 0 <= j < |feats| && CanDivide(feats[j], rows, cfg)
  }

  ghost predicate Divisible(node: Node, rows: set<nat>, feats: seq<Feature>, cfg: Config) {
    && node.depth < cfg.maxDepth
    && |rows| >= 2 * cfg.minLeafSize
    && node.nT > 0 && node.nH > 0
    && SomeDivides(feats, rows, cfg)
  }

  /** Rows of node i that are not in its child c. */
  function Remainder(rows: seq<set<nat>>, i: nat, c: int): nat
    requires i < |rows|
  {
    if 0 <= c < |rows| then |rows[i] - rows[c]| else 0
  }

  /** The children that node i has hold these two sets of rows. */
  ghost predicate Halves(t: seq<Node>, rows: seq<set<nat>>, i: nat, left: set<nat>, right: set<nat>)
    requires i < |t| == |rows|
  {
    && (t[i].lchild != -1 ==> 0 <= t[i].lchild < |rows| && rows[t[i].lchild] == left)
    && (t[i].rchild != -1 ==> 0 <= t[i].rchild < |rows| && rows[t[i].rchild] == right)
  }

  ghost predicate HasChild(t: seq<Node>, i: nat)
    requires i < |t|
  {
    t[i].lchild != -1 || t[i].rchild != -1
  }

  /** The children of node i hold the two sides of a division that search reports of its rows. */
  ghost predicate AsReported(t: seq<Node>, rows: seq<set<nat>>, g: seq<nat>, feats: seq<Feature>, cfg: Config, i: nat)
    requires i < |t| == |rows|
  {
    exists left, right :: Divides(feats, g, rows[i], cfg, left, right) && Halves(t, rows, i, left, right)
  }

  /** They hold the two sides of a best cut. */
  ghost predicate AtBestCut(t: seq<Node>, rows: seq<set<nat>>, g: seq<nat>, feats: seq<Feature>, cfg: Config, i: nat)
    requires i < |t| == |rows|
  {
    exists left, right :: CutBest(feats, g, rows[i], cfg, left, right) && Halves(t, rows, i, left, right)
  }

  /**
    * Node i has been dealt with: unless there was no room, it has children exactly
    * when it can be divided, they hold the two sides of a reported division, and a
    * child is missing only if its rows are too few.
    */
  ghost predicate Finished(t: seq<Node>, rows: seq<set<nat>>, g: seq<nat>, feats: seq<Feature>, cfg: Config, size: nat, i: nat)
    requires i < |t| == |rows|
  {
    var l, r := t[i].lchild, t[i].rchild;
    && (l == -1 && r == -1 ==> |t| == size || !Divisible(t[i], rows[i], feats, cfg))
    && (l != -1 || r != -1 ==> Divisible(t[i], rows[i], feats, cfg) && AsReported(t, rows, g, feats, cfg, i))
    && (l != -1 && r == -1 ==> |t| == size || Remainder(rows, i, l) < cfg.minPartitionSize)
    && (l == -1 && r != -1 ==> |t| == size || Remainder(rows, i, r) < cfg.minPartitionSize)
  }

  /** From one tree to a later one: old nodes keep everything, except that node id may gain children. */
  ghost predicate Grown(t: seq<Node>, rows: seq<set<nat>>, t': seq<Node>, rows': seq<set<nat>>, id: nat) {
    && id < |t| == |rows| <= |t'| == |rows'|
    && rows'[..|rows|] == rows
    && (forall i :: 0 <= i < |t| && i != id ==> t'[i] == t[i])
    && t'[id] == t[id].(lchild := t'[id].lchild, rchild := t'[id].rchild)
  }

  function Child(parent: nat, depth: nat, nT: nat, nH: nat): Node {
    Node(depth, -1, -1, parent, nT, nH)
  }

  function WithLeft(t: seq<Node>, p: nat, child: Node): seq<Node>
    requires p < |t|
  {
    t[p := t[p].(lchild := |t|)] + [child]
  }

  function WithRight(t: seq<Node>, p: nat, child: Node): seq<Node>
    requires p < |t|
  {
    t[p := t[p].(rchild := |t|)] + [child]
  }

  lemma AddLeft(t: seq<Node>, rows: seq<set<nat>>, g: seq<nat>, feats: seq<Feature>, mps: nat, maxDepth: nat,
                p: nat, depth: nat, nT: nat, nH: nat, seg: set<nat>)
    requires TreeOk(t, rows, g, feats, mps, maxDepth) && p < |t| && t[p].lchild == -1 && t[p].rchild == -1
    requires depth == t[p].depth + 1 && depth <= maxDepth
    requires nT == |WithGoal(seg, g, true)| && nH == |WithGoal(seg, g, false)| && nT + nH >= mps
    requires seg <= rows[p]
    ensures TreeOk(WithLeft(t, p, Child(p, depth, nT, nH)), rows + [seg], g, feats, mps, maxDepth)
    ensures Grown(t, rows, WithLeft(t, p, Child(p, depth, nT, nH)), rows + [seg], p)
  {
    hide WithGoal, Separated;
    var t', rows' := WithLeft(t, p, Child(p, depth, nT, nH)), rows + [seg];
    forall i | 0 <= i < |t'|
      ensures NodeOk(t', rows', g, feats, i)
    {
      if i < |t| {
        assert NodeOk(t, rows, g, feats, i);
      }
    }
    forall i | 0 < i < |t'|
      ensures HasParent(t', mps, maxDepth, i)
    {
      if i < |t| {
        assert HasParent(t, mps, maxDepth, i);
      }
    }
  }

  lemma AddRight(t: seq<Node>, rows: seq<set<nat>>, g: seq<nat>, feats: seq<Feature>, mps: nat, maxDepth: nat,
                 p: nat, depth: nat, nT: nat, nH: nat, seg: set<nat>)
    requires TreeOk(t, rows, g, feats, mps, maxDepth) && p < |t| && t[p].rchild == -1
    requires depth == t[p].depth + 1 && depth <= maxDepth
    requires nT == |WithGoal(seg, g, true)| && nH == |WithGoal(seg, g, false)| && nT + nH >= mps
    requires seg <= rows[p]
    requires 0 <= t[p].lchild < |t| ==>
               rows[t[p].lchild] !! seg && rows[t[p].lchild] + seg == rows[p] && Separated(feats, rows[t[p].lchild], seg)
    ensures TreeOk(WithRight(t, p, Child(p, depth, nT, nH)), rows + [seg], g, feats, mps, maxDepth)
    ensures Grown(t, rows, WithRight(t, p, Child(p, depth, nT, nH)), rows + [seg], p)
  {
    hide WithGoal, Separated;
    var t', rows' := WithRight(t, p, Child(p, depth, nT, nH)), rows + [seg];
    forall i | 0 <= i < |t'|
      ensures NodeOk(t', rows', g, feats, i)
    {
      if i < |t| {
        assert NodeOk(t, rows, g, feats, i);
      }
    }
    forall i | 0 < i < |t'|
      ensures HasParent(t', mps, maxDepth, i)
    {
      if i < |t| {
        assert HasParent(t, mps, maxDepth, i);
      }
    }
  }

  /** Growing below a node that was added after id keeps whatever was known of id. */
  lemma GrownTwice(t: seq<Node>, rows: seq<set<nat>>, t1: seq<Node>, rows1: seq<set<nat>>, t2: seq<Node>, rows2: seq<set<nat>>,
                   id: nat, id1: nat)
    requires Grown(t, rows, t1, rows1, id) && Grown(t1, rows1, t2, rows2, id1) && id1 >= |t|
    ensures Grown(t, rows, t2, rows2, id) && t2[id] == t1[id]
  {
    assert rows2[..|rows|] == rows2[..|rows1|][..|rows|];
  }

  lemma GrownSizes(t: seq<Node>, rows: seq<set<nat>>, t': seq<Node>, rows': seq<set<nat>>, id: nat)
    requires Grown(t, rows, t', rows', id)
    ensures id < |t| == |rows| <= |t'| == |rows'|
    ensures forall i :: 0 <= i < |rows| ==> rows'[i] == rows[i]
    ensures forall i :: 0 <= i < |t| && i != id ==> t'[i] == t[i]
    ensures t'[id].nT == t[id].nT && t'[id].nH == t[id].nH
  {
    assert forall i :: 0 <= i < |rows| ==> rows'[i] == rows'[..|rows|][i];
  }

  lemma GrownOnce(t: seq<Node>, rows: seq<set<nat>>, t1: seq<Node>, rows1: seq<set<nat>>, t2: seq<Node>, rows2: seq<set<nat>>, id: nat)
    requires Grown(t, rows, t1, rows1, id) && Grown(t1, rows1, t2, rows2, id)
    ensures Grown(t, rows, t2, rows2, id)
  {
    assert rows2[..|rows|] == rows2[..|rows1|][..|rows|];
  }

  /** A node stays finished while the tree grows elsewhere. */
  lemma FinishedLater(t: seq<Node>, rows: seq<set<nat>>, t': seq<Node>, rows': seq<set<nat>>, p: nat, g: seq<nat>,
                      feats: seq<Feature>, cfg: Config, size: nat, i: nat)
    requires Grown(t, rows, t', rows', p) && i < |t| && i != p && |t'| <= size
    requires TreeOk(t, rows, g, feats, cfg.minPartitionSize, cfg.maxDepth)
    requires Finished(t, rows, g, feats, cfg, size, i)
    ensures Finished(t', rows', g, feats, cfg, size, i)
  {
    hide Divisible, Divides, WithGoal, Separated;
    assert NodeOk(t, rows, g, feats, i);
    GrownSizes(t, rows, t', rows', p);
    if HasChild(t, i) {
      var left, right :| Divides(feats, g, rows[i], cfg, left, right) && Halves(t, rows, i, left, right);
      assert Halves(t', rows', i, left, right);
    }
  }

  /** A node whose rows fit the candidate buffer has been divided at a best cut. */
  lemma BestWhereItFits(t: seq<Node>, rows: seq<set<nat>>, g: seq<nat>, feats: seq<Feature>, cfg: Config, size: nat, i: nat)
    requires i < |t| == |rows| && Finished(t, rows, g, feats, cfg, size, i)
    requires HasChild(t, i) && |rows[i]| <= cfg.bufSize
    ensures AtBestCut(t, rows, g, feats, cfg, i)
  {
    hide Divides, CutBest, Divisible;
    var left, right :| Divides(feats, g, rows[i], cfg, left, right) && Halves(t, rows, i, left, right);
    DividesAtBest(feats, g, rows[i], cfg, left, right);
  }

  lemma AllFinishedLater(t: seq<Node>, rows: seq<set<nat>>, t': seq<Node>, rows': seq<set<nat>>, p: nat, g: seq<nat>,
                         feats: seq<Feature>, cfg: Config, size: nat, from: nat)
    requires Grown(t, rows, t', rows', p) && p < from && |t'| <= size
    requires TreeOk(t, rows, g, feats, cfg.minPartitionSize, cfg.maxDepth)
    requires forall i :: from <= i < |t| ==> Finished(t, rows, g, feats, cfg, size, i)
    ensures |t| <= |t'| == |rows'|
    ensures forall i :: from <= i < |t| ==> Finished(t', rows', g, feats, cfg, size, i)
  {
    hide Finished, TreeOk;
    forall i | from <= i < |t|
      ensures Finished(t', rows', g, feats, cfg, size, i)
    {
      FinishedLater(t, rows, t', rows', p, g, feats, cfg, size, i);
    }
  }

  /** A leaf that met one of the stopping rules is finished. */
  lemma Stopped(t: seq<Node>, rows: seq<set<nat>>, g: seq<nat>, feats: seq<Feature>, cfg: Config, size: nat, i: nat)
    requires i < |t| == |rows| && t[i].lchild == -1 && t[i].rchild == -1
    requires
      || |t| == size || t[i].depth >= cfg.maxDepth || t[i].nT == 0 || t[i].nH == 0
      || (feats != [] ==> |rows[i]| < 2 * cfg.minLeafSize)
      || !SomeDivides(feats, rows[i], cfg)
    ensures Finished(t, rows, g, feats, cfg, size, i)
  {}

  lemma DividedNode(node: Node, l: int, r: int, rows: set<nat>, feats: seq<Feature>, cfg: Config)
    ensures Divisible(node.(lchild := l, rchild := r), rows, feats, cfg) <==> Divisible(node, rows, feats, cfg)
  {}

  lemma IsDivisible(node: Node, rows: set<nat>, feats: seq<Feature>, cfg: Config)
    requires node.depth < cfg.maxDepth && |rows| >= 2 * cfg.minLeafSize && node.nT > 0 && node.nH > 0
    requires SomeDivides(feats, rows, cfg)
    ensures Divisible(node, rows, feats, cfg)
  {}

  /** A divided node is finished when each half either has its node or is too small, or there was no room. */
  lemma Divided(t: seq<Node>, rows: seq<set<nat>>, g: seq<nat>, feats: seq<Feature>, cfg: Config, size: nat, i: nat,
                left: set<nat>, right: set<nat>)
    requires i < |t| == |rows| && Divisible(t[i], rows[i], feats, cfg)
    requires left !! right && rows[i] == left + right && Divides(feats, g, rows[i], cfg, left, right)
    requires t[i].lchild == -1 || (0 <= t[i].lchild < |rows| && rows[t[i].lchild] == left)
    requires t[i].rchild == -1 || (0 <= t[i].rchild < |rows| && rows[t[i].rchild] == right)
    requires t[i].lchild != -1 || t[i].rchild != -1
    requires t[i].lchild == -1 ==> |left| < cfg.minPartitionSize
    requires t[i].rchild == -1 ==> |t| == size || |right| < cfg.minPartitionSize
    ensures Finished(t, rows, g, feats, cfg, size, i)
  {
    hide Divisible, Divides;
    assert Halves(t, rows, i, left, right);
    assert left + right - left == right && left + right - right == left;
  }

  /** What check_tree asks of node i. */
  predicate NodePasses(t: seq<Node>, mps: nat, maxDepth: nat, i: nat)
    requires i < |t|
  {
    var node := t[i];
    && node.nT + node.nH >= mps
    && 0 <= node.depth <= maxDepth
    && (if i == 0 then node.parent == -1 else node.parent >= 0)
    && node.lchild != 0 && node.rchild != 0
    && (node.lchild > 0 ==> node.parent < node.lchild)
    && (node.rchild > 0 ==> node.parent < node.rchild && node.lchild != node.rchild)
    && (if i == 0 then node.depth == 0 else
          && node.parent < |t| && (t[node.parent].lchild == i || t[node.parent].rchild == i)
          && node.depth > 0 && node.depth == t[node.parent].depth + 1)
  }

  method CheckNode(t: seq<Node>, mps: nat, maxDepth: nat, i: nat) returns (ok: bool)
    requires i < |t| && -1 <= t[i].parent < |t|
    ensures ok <==> NodePasses(t, mps, maxDepth, i)
  {
    var depth, lchild, rchild, parent := t[i].depth, t[i].lchild, t[i].rchild, t[i].parent;
    if t[i].nT + t[i].nH < mps {
      return false;
    }
    if depth < 0 || depth > maxDepth {
      return false;
    }
    if i == 0 {
      if parent != -1 {
        return false;
      }
    } else if parent < 0 {
      return false;
    }
    if lchild == 0 || rchild == 0 {
      return false;
    }
    if lchild > 0 && parent >= lchild {
      return false;
    }
    if rchild > 0 && parent >= rchild {
      return false;
    }
    if rchild > 0 && lchild == rchild {
      return false;
    }
    if i > 0 {
      if t[parent].lchild != i && t[parent].rchild != i {
        return false;
      }
      ok := depth > 0 && depth == t[parent].depth + 1;
    } else {
      ok := depth == 0;
    }
  }

  method CheckTree(tree: array<Node>, nTree: nat, mps: nat, maxDepth: nat) returns (ok: bool)
    requires 0 < nTree <= tree.Length
    requires forall i :: 0 <= i < nTree ==> -1 <= tree[i].parent < nTree
    ensures ok <==> forall i :: 0 <= i < nTree ==> NodePasses(tree[..nTree], mps, maxDepth, i)
  {
    hide NodePasses;
    var t := tree[..nTree];
    var i: nat := 0;
    while i < nTree
      invariant 0 <= i <= nTree
      invariant forall k :: 0 <= k < i ==> NodePasses(t, mps, maxDepth, k)
    {
      var passes := CheckNode(t, mps, maxDepth, i);
      if !passes {
        assert t == tree[..nTree];
        return false;
      }
      i := i + 1;
    }
    assert t == tree[..nTree];
    ok := true;
  }

  /** A grown tree passes the check exactly when its root has the minimum number of rows. */
  lemma TreePasses(t: seq<Node>, rows: seq<set<nat>>, g: seq<nat>, feats: seq<Feature>, mps: nat, maxDepth: nat)
    requires TreeOk(t, rows, g, feats, mps, maxDepth)
    ensures (forall i :: 0 <= i < |t| ==> NodePasses(t, mps, maxDepth, i)) <==> t[0].nT + t[0].nH >= mps
    ensures forall i :: 0 <= i < |t| ==> -1 <= t[i].parent < i
  {
    hide WithGoal, Separated;
    forall i | 0 <= i < |t|
      ensures t[i].depth >= 0 && -1 <= t[i].parent < i
      ensures NodePasses(t, mps, maxDepth, i) <==> (i == 0 ==> t[0].nT + t[0].nH >= mps)
    {
      DepthsGrow(t, rows, g, feats, mps, maxDepth, i);
      assert NodeOk(t, rows, g, feats, i);
      if i > 0 {
        assert HasParent(t, mps, maxDepth, i);
        DepthsGrow(t, rows, g, feats, mps, maxDepth, t[i].parent);
      }
    }
  }

  lemma {:induction false} DepthsGrow(t: seq<Node>, rows: seq<set<nat>>, g: seq<nat>, feats: seq<Feature>, mps: nat, maxDepth: nat, i: nat)
    requires TreeOk(t, rows, g, feats, mps, maxDepth) && i < |t|
    ensures 0 <= t[i].depth <= maxDepth
  {
    if i > 0 {
      assert HasParent(t, mps, maxDepth, i);
      DepthsGrow(t, rows, g, feats, mps, maxDepth, t[i].parent);
    }
  }

  /** Conservation: a node with both children holds exactly their rows, tails and heads together. */
  lemma ChildrenAddUp(t: seq<Node>, rows: seq<set<nat>>, g: seq<nat>, feats: seq<Feature>, mps: nat, maxDepth: nat, i: nat)
    requires TreeOk(t, rows, g, feats, mps, maxDepth) && i < |t|
    requires t[i].lchild != -1 && t[i].rchild != -1
    ensures var l, r := t[i].lchild, t[i].rchild;
            && i < l < |t| && i < r < |t|
            && t[i].nT == t[l].nT + t[r].nT && t[i].nH == t[l].nH + t[r].nH
  {
    var l, r := t[i].lchild, t[i].rchild;
    assert NodeOk(t, rows, g, feats, i);
    assert NodeOk(t, rows, g, feats, l) && NodeOk(t, rows, g, feats, r);
    GoalsAddUp(rows[l], rows[r], g, true);
    GoalsAddUp(rows[l], rows[r], g, false);
  }
}
