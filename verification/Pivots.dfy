/**
  * For which matrices the answers of the recursive solver can be trusted
  * (OPERATORS/AX_EQUALS_B/src/positive_solver.c:11-70): a condition on the matrix alone.
  */
module Pivoting {
  import opened Symmetric

  /** The successive pivots. */
  function Pivots(a: Rows): (p: Vector)
    requires Compact(a)
    ensures |p| == |a|
    decreases |a|
  {
    if a == [] then []
    else if a[0][0] != 0.0 then [a[0][0]] + Pivots(Schur(a))
    else
      RestCompact(a);
      [0.0] + Pivots(a[1..])
  }

  /** The last pivot is not zero, and the row of a zero pivot vanishes wherever a later pivot does not. */
  predicate Trusted(a: Rows)
    requires Compact(a) && a != []
    decreases |a|
  {
    if |a| == 1 then a[0][0] != 0.0
    else if a[0][0] != 0.0 then Trusted(Schur(a))
    else
      RestCompact(a);
      Trusted(a[1..]) && forall j :: 0 <= j < |a| - 1 && Pivots(a[1..])[j] != 0.0 ==> a[0][j + 1] == 0.0
  }

  predicate Apart(p: Vector, x: Vector)
    requires |p| == |x|
  {
    forall j :: 0 <= j < |p| ==> p[j] == 0.0 || x[j] == 0.0
  }

  lemma {:induction false} DotApart(u: Vector, x: Vector)
    requires |u| == |x| && Apart(u, x)
    ensures Dot(u, x) == 0.0
  {
    if u != [] {
      DotApart(u[..|u| - 1], x[..|x| - 1]);
    }
  }

  /** Every unknown is zero whose pivot is. */
  predicate VanishesAt(p: Vector, x: Vector)
    requires |p| == |x|
  {
    forall j :: 0 <= j < |p| && p[j] == 0.0 ==> x[j] == 0.0
  }

  lemma RowApart(a: Rows, xs: Vector)
    requires Compact(a) && |a| == |xs| + 1 > 1 && a[0][0] == 0.0 && Trusted(a) && Compact(a[1..]) && VanishesAt(Pivots(a[1..]), xs)
    ensures Dot(a[0][1..], xs) == 0.0
  {
    DotApart(a[0][1..], xs);
  }

  /** For such a matrix every answer is right; and an answer is zero wherever the pivot is. */
  lemma {:induction false} TrustedAnswers(a: Rows, b: Vector)
    requires Compact(a) && |a| == |b| > 0 && Trusted(a) && Solve(a, b).Some?
    ensures Solves(a, b, Solve(a, b).value) && VanishesAt(Pivots(a), Solve(a, b).value)
    decreases |b|
  {
    hide Dot, FullRow, Schur, Reduced, First, Solves, Over;
    var x := Solve(a, b).value;
    if |b| == 1 {
      OneUnknown(a, b, x[0]);
      TimesQuotient(b[0], a[0][0]);
      assert x == [x[0]];
    } else if a[0][0] != 0.0 {
      var xs := Solve(Schur(a), Reduced(a, b)).value;
      TrustedAnswers(Schur(a), Reduced(a, b));
      StepSolves(a, b, xs);
    } else {
      RestCompact(a);
      var xs := Solve(a[1..], b[1..]).value;
      TrustedAnswers(a[1..], b[1..]);
      RowApart(a, xs);
      SkipSolves(a, b, xs);
    }
  }

  /** The right-hand side that x solves. */
  function Image(a: Rows, x: Vector): (b: Vector)
    requires Compact(a) && |a| == |x|
    ensures |b| == |a|
  {
    seq(|a|, i requires 0 <= i < |a| && Compact(a) && |a| == |x| => Dot(FullRow(a, i), x))
  }

  lemma ReachesOne(a: Rows, x: real)
    requires Compact(a) && |a| == 1 && Trusted(a)
    ensures Solve(a, Image(a, [x])) == Some([x])
  {
    hide Dot, FullRow, Over;
    var b := Image(a, [x]);
    OneUnknown(a, b, x);
    OverTimes(a[0][0], x);
    assert b[0] == a[0][0] * x;
  }

  /** Any x that is zero where the pivot is, is the answer for some right-hand side. */
  lemma {:induction false} Reaches(a: Rows, x: Vector)
    requires Compact(a) && |a| == |x| > 0 && Trusted(a) && VanishesAt(Pivots(a), x)
    ensures Solve(a, Image(a, x)) == Some(x)
    decreases |a|
  {
    hide Dot, FullRow, Schur, Reduced, First, Over;
    var b, xs := Image(a, x), x[1..];
    assert x == [x[0]] + xs;
    FirstRow(a, xs, x[0]);
    if |a| == 1 {
      assert x == [x[0]];
      ReachesOne(a, x[0]);
    } else if a[0][0] != 0.0 {
      assert VanishesAt(Pivots(Schur(a)), xs) by {
        assert forall j :: 0 <= j < |xs| ==> Pivots(a)[j + 1] == Pivots(Schur(a))[j];
      }
      Reaches(Schur(a), xs);
      FirstFound(a, b, xs, x[0]);
      forall i | 0 <= i < |xs|
        ensures Reduced(a, b)[i] == Image(Schur(a), xs)[i]
      {
        SameDefect(a, b, xs, i);
      }
      assert Reduced(a, b) == Image(Schur(a), xs);
    } else {
      RestCompact(a);
      assert VanishesAt(Pivots(a[1..]), xs) by {
        assert forall j :: 0 <= j < |xs| ==> Pivots(a)[j + 1] == Pivots(a[1..])[j];
      }
      Reaches(a[1..], xs);
      RowApart(a, xs);
      forall i | 0 <= i < |xs|
        ensures b[1..][i] == Image(a[1..], xs)[i]
      {
        SkipRow(a, xs, i);
      }
      assert b[1..] == Image(a[1..], xs);
    }
  }

  lemma OverTimes(d: real, x: real)
    requires d != 0.0
    ensures Over(d * x, d) == x
  {}

  lemma FirstFound(a: Rows, b: Vector, xs: Vector, x0: real)
    requires Compact(a) && |a| == |b| == |xs| + 1 && a[0][0] != 0.0 && b[0] == a[0][0] * x0 + Dot(a[0][1..], xs)
    ensures First(a, b, xs) == x0
  {
    hide Dot;
    OverTimes(a[0][0], x0);
  }

  function Unit(n: nat, j: nat): (e: Vector)
    requires j < n
    ensures |e| == n
  {
    seq(n, k => if k == j then 1.0 else 0.0)
  }

  lemma {:induction false} DotUnit(u: Vector, n: nat, j: nat)
    requires |u| == n && j < n
    ensures Dot(u, Unit(n, j)) == u[j]
    decreases n
  {
    if j < n - 1 {
      DotUnit(u[..n - 1], n - 1, j);
      assert Unit(n, j)[..n - 1] == Unit(n - 1, j);
    } else {
      DotApart(u[..n - 1], Unit(n, j)[..n - 1]);
    }
  }

  /** For any other matrix some answer is wrong. */
  lemma {:induction false} Misses(a: Rows) returns (b: Vector)
    requires Compact(a) && a != [] && !Trusted(a)
    ensures |b| == |a| && Solve(a, b).Some? && !Solves(a, b, Solve(a, b).value)
    decreases |a|
  {
    hide Dot, FullRow, Schur, Reduced, First, Solves, Over;
    if |a| == 1 {
      b := [0.5];
      OneUnknown(a, b, 0.0);
    } else if a[0][0] != 0.0 {
      var r := Misses(Schur(a));
      b := [0.0] + r;
      ReducedZero(a, r);
      StepSolves(a, b, Solve(Schur(a), r).value);
    } else {
      RestCompact(a);
      var rest := a[1..];
      if !Trusted(rest) {
        var r := Misses(rest);
        b := [0.0] + r;
        assert b[1..] == r;
        SkipSolves(a, b, Solve(rest, r).value);
      } else {
        var j :| 0 <= j < |rest| && Pivots(rest)[j] != 0.0 && a[0][j + 1] != 0.0;
        var e := Unit(|rest|, j);
        b := [0.0] + Image(rest, e);
        assert b[1..] == Image(rest, e);
        Reaches(rest, e);
        DotUnit(a[0][1..], |rest|, j);
        SkipSolves(a, b, e);
      }
    }
  }

  lemma ReducedZero(a: Rows, r: Vector)
    requires Compact(a) && |a| == |r| + 1 && a[0][0] != 0.0
    ensures Reduced(a, [0.0] + r) == r
  {
    forall i | 0 <= i < |r|
      ensures Reduced(a, [0.0] + r)[i] == r[i]
    {
      assert a[0][i + 1] * 0.0 / a[0][0] == 0.0;
    }
  }

  /**
    * All answers for a matrix are right if and only if its last pivot is not zero and
    * the row of every zero pivot vanishes at the later non-zero ones.
    */
  lemma SolveExact(a: Rows)
    requires Compact(a) && a != []
    ensures (forall b: Vector :: |b| == |a| && Solve(a, b).Some? ==> Solves(a, b, Solve(a, b).value)) <==> Trusted(a)
  {
    hide Trusted, Solves, Solve;
    if Trusted(a) {
      forall b: Vector | |b| == |a| && Solve(a, b).Some?
        ensures Solves(a, b, Solve(a, b).value)
      {
        TrustedAnswers(a, b);
      }
    } else {
      var b := Misses(a);
    }
  }
}
