/**
  * Which of several equally good candidates is picked: the scalar search takes the
  * first one (DT/src/calc_best_metric.c), the gang search the one of the last lane that
  * holds one (DT/src/calc_best_metric_isp.c).
  */
module Lanes {
  import Gini

  /** The lane of a gang of w that treats element i. */
  function Lane(i: nat, w: nat): (l: nat)
    requires w > 0
    ensures l < w
  {
    if i < w then i else Lane(i - w, w)
  }

  lemma {:induction false} NextLane(i: nat, w: nat)
    requires w > 0
    ensures Lane(i + 1, w) == if Lane(i, w) + 1 == w then 0 else Lane(i, w) + 1
  {
    if i >= w {
      NextLane(i - w, w);
    }
  }

  predicate Greatest(s: seq<real>, loc: nat) {
    loc < |s| && forall k :: 0 <= k < |s| ==> s[k] <= s[loc]
  }

  /** The scalar pick. */
  predicate FirstPick(s: seq<real>, loc: nat) {
    Greatest(s, loc) && forall k :: 0 <= k < loc ==> s[k] < s[loc]
  }

  /** Element k is larger than everything before it in its lane. */
  predicate LeadsLane(s: seq<real>, w: nat, k: nat)
    requires w > 0 && k < |s|
  {
    forall j: nat :: j < k && Lane(j, w) == Lane(k, w) ==> s[j] < s[k]
  }

  /** The gang pick; a gang that has seen nothing above -1 answers 0. */
  predicate GangPick(s: seq<real>, w: nat, loc: nat)
    requires w > 0
  {
    && Greatest(s, loc)
    && if s[loc] <= Gini.BAD then loc == 0
       else LeadsLane(s, w, loc) && forall k: nat :: k < |s| && s[k] == s[loc] && LeadsLane(s, w, k) ==> k <= loc
  }

  /** What lane l holds after the first n elements: its first greatest one above -1, if any. */
  predicate Led(s: seq<real>, w: nat, n: nat, l: nat, x: nat, v: real)
    requires w > 0 && n <= |s|
  {
    && v >= Gini.BAD
    && (forall k: nat :: k < n && Lane(k, w) == l ==> s[k] <= v)
    && (v == Gini.BAD ==> x == 0)
    && (v > Gini.BAD ==> x < n && s[x] == v && Lane(x, w) == l && LeadsLane(s, w, x))
  }

  lemma LedOn(s: seq<real>, w: nat, n: nat, l: nat, x: nat, v: real)
    requires w > 0 && n < |s| && Led(s, w, n, l, x, v)
    ensures Lane(n, w) != l || s[n] <= v ==> Led(s, w, n + 1, l, x, v)
    ensures Lane(n, w) == l && s[n] > v ==> Led(s, w, n + 1, l, n, s[n])
  {}

  /** The two reductions: the greatest value of all lanes, and the last place where a lane has it. */
  lemma Reduced(s: seq<real>, w: nat, xs: seq<nat>, vs: seq<real>, best: real, loc: nat)
    requires w > 0 && s != [] && |xs| == |vs| == w && forall k :: 0 <= k < |s| ==> s[k] >= Gini.BAD
    requires forall l: nat :: l < w ==> Led(s, w, |s|, l, xs[l], vs[l]) && vs[l] <= best
    requires forall l: nat :: l < w && vs[l] == best ==> xs[l] <= loc
    requires exists l: nat :: l < w && vs[l] == best && xs[l] == loc
    ensures GangPick(s, w, loc)
  {
    var l0: nat :| l0 < w && vs[l0] == best && xs[l0] == loc;
    assert Led(s, w, |s|, l0, loc, best);
    forall k: nat | k < |s|
      ensures s[k] <= best
    {
      var l := Lane(k, w);
      assert Led(s, w, |s|, l, xs[l], vs[l]);
    }
    if best > Gini.BAD {
      forall k: nat | k < |s| && s[k] == s[loc] && LeadsLane(s, w, k)
        ensures k <= loc
      {
        var l := Lane(k, w);
        assert Led(s, w, |s|, l, xs[l], vs[l]);
        LedIsFirst(s, w, l, xs[l], vs[l], k);
      }
    }
  }

  lemma LedIsFirst(s: seq<real>, w: nat, l: nat, x: nat, v: real, k: nat)
    requires w > 0 && Led(s, w, |s|, l, x, v) && k < |s| && Lane(k, w) == l && s[k] == v > Gini.BAD && LeadsLane(s, w, k)
    ensures k == x
  {}

  /** The first place in its lane that holds the same. */
  lemma {:induction false} LaneHas(s: seq<real>, w: nat, k: nat) returns (j: nat)
    requires w > 0 && Greatest(s, k)
    ensures j <= k && s[j] == s[k] && Lane(j, w) == Lane(k, w) && LeadsLane(s, w, j)
    decreases k
  {
    if LeadsLane(s, w, k) {
      j := k;
    } else {
      var i: nat :| i < k && Lane(i, w) == Lane(k, w) && s[i] >= s[k];
      j := LaneHas(s, w, i);
    }
  }

  /** The two picks agree exactly when all greatest values, unless they are -1, are in one lane. */
  lemma PicksAgree(s: seq<real>, w: nat, first: nat, gang: nat)
    requires w > 0 && FirstPick(s, first) && GangPick(s, w, gang) && forall k :: 0 <= k < |s| ==> s[k] >= Gini.BAD
    ensures first == gang <==>
      (s[first] > Gini.BAD ==> forall k: nat :: k < |s| && s[k] == s[first] ==> Lane(k, w) == Lane(first, w))
  {
    assert s[first] == s[gang];
    if s[first] > Gini.BAD {
      assert LeadsLane(s, w, first);
      if k: nat :| k < |s| && s[k] == s[first] && Lane(k, w) != Lane(first, w) {
        var j := LaneHas(s, w, k);
        assert j <= gang;
      } else {
        assert Lane(gang, w) == Lane(first, w);
      }
    } else {
      assert s[0] >= Gini.BAD;
    }
  }
}
