/**
  * Solving A x = b for a symmetric A kept as its upper rows, by recursive Schur
  * complement (OPERATORS/AX_EQUALS_B/src/positive_solver.c,
  * OPERATORS/AX_EQUALS_B/src/matrix_helpers.c), over reals.
  */
module Symmetric {
  type Vector = seq<real>

  /** Row i holds the entries (i, i), (i, i + 1), ... */
  type Rows = seq<seq<real>>

  predicate Compact(a: Rows) { forall i :: 0 <= i < |a| ==> |a[i]| == |a| - i }

  /** index_symm_matrix */
  function Entry(a: Rows, i: nat, j: nat): real
    requires Compact(a) && i < |a| && j < |a|
  {
    if i < j then a[i][j - i] else a[j][i - j]
  }

  function Dot(u: Vector, v: Vector): real
    requires |u| == |v|
  {
    if u == [] then 0.0 else Dot(u[..|u| - 1], v[..|v| - 1]) + u[|u| - 1] * v[|v| - 1]
  }

  /** Row i of the full symmetric matrix. */
  function FullRow(a: Rows, i: nat): (r: Vector)
    requires Compact(a) && i < |a|
    ensures |r| == |a|
  {
    seq(|a|, (j: nat) requires j < |a| && Compact(a) => Entry(a, i, j))
  }

  ghost predicate Solves(a: Rows, b: Vector, x: Vector)
    requires Compact(a) && |a| == |b| == |x|
  {
    forall i :: 0 <= i < |a| ==> Dot(FullRow(a, i), x) == b[i]
  }

  /** What is left of an entry when the multiple v / d of another row is taken off: v * w / d less. */
  function Eliminated(entry: real, v: real, w: real, d: real): real
    requires d != 0.0
  {
    entry - v * w / d
  }

  function Over(p: real, d: real): real
    requires d != 0.0
  {
    p / d
  }

  function Times(c: real, x: real): real { c * x }

  /** The matrix after eliminating the first unknown. */
  function Schur(a: Rows): (s: Rows)
    requires Compact(a) && |a| > 0 && a[0][0] != 0.0
    ensures Compact(s) && |s| == |a| - 1
  {
    seq(|a| - 1, (i: nat) requires i < |a| - 1 && Compact(a) && a[0][0] != 0.0 =>
          seq(|a| - 1 - i, (j: nat) requires j < |a| - 1 - i && |a[i + 1]| == |a| - i - 1 && |a[0]| == |a| && a[0][0] != 0.0 =>
                Eliminated(a[i + 1][j], a[0][i + 1], a[0][i + 1 + j], a[0][0])))
  }

  function Reduced(a: Rows, b: Vector): (r: Vector)
    requires Compact(a) && |a| == |b| > 0 && a[0][0] != 0.0
    ensures |r| == |b| - 1
  {
    seq(|b| - 1, (i: nat) requires i < |b| - 1 && |a[0]| == |b| && a[0][0] != 0.0 =>
          Eliminated(b[i + 1], a[0][i + 1], b[0], a[0][0]))
  }

  datatype Option<T> = None | Some(value: T)

  /** C's abs is applied to a double: the value is truncated to an int before it is compared with 0.001. */
  predicate TooLarge(b: real) { b >= 1.0 || b <= -1.0 }

  /** The answer of the recursion, or none where it returns an error. */
  function Solve(a: Rows, b: Vector): (r: Option<Vector>)
    requires Compact(a) && |a| == |b| > 0
    ensures r.Some? ==> |r.value| == |b|
    decreases |b|
  {
    var pivot := a[0][0];
    if |b| == 1 then
      if pivot != 0.0 then Some([Over(b[0], pivot)])
      else if TooLarge(b[0]) then None
      else Some([0.0])
    else if pivot != 0.0 then
      match Solve(Schur(a), Reduced(a, b))
      case None => None
      case Some(xs) => Some([First(a, b, xs)] + xs)
    else
      assert forall i :: 0 <= i < |a| - 1 ==> a[1..][i] == a[i + 1];
      match Solve(a[1..], b[1..])
      case None => None
      case Some(xs) => if b[0] != 0.0 then None else Some([0.0] + xs)
  }

  // ---------------------------------------------------------------------------
  // Sums

  lemma {:induction false} DotFirst(u: Vector, v: Vector)
    requires |u| == |v| > 0
    ensures Dot(u, v) == u[0] * v[0] + Dot(u[1..], v[1..])
  {
    if |u| > 1 {
      var n := |u| - 1;
      DotFirst(u[..n], v[..n]);
      assert u[..n][1..] == u[1..][..n - 1] && v[..n][1..] == v[1..][..n - 1];
    }
  }

  lemma {:induction false} DotCommutes(u: Vector, v: Vector)
    requires |u| == |v|
    ensures Dot(u, v) == Dot(v, u)
  {
    if u != [] {
      DotCommutes(u[..|u| - 1], v[..|v| - 1]);
    }
  }

  /** u = w + c * v, entry by entry. */
  lemma {:induction false} DotLinear(u: Vector, w: Vector, v: Vector, c: real, x: Vector)
    requires |u| == |w| == |v| == |x| && forall j :: 0 <= j < |u| ==> u[j] == w[j] + Times(c, v[j])
    ensures Dot(u, x) == Dot(w, x) + Times(c, Dot(v, x))
  {
    if u != [] {
      var n := |u| - 1;
      DotLinear(u[..n], w[..n], v[..n], c, x[..n]);
      Spread(w[n], c, v[n], x[n]);
      Factor(c, Dot(v[..n], x[..n]), v[n] * x[n]);
    }
  }

  lemma Spread(w: real, c: real, v: real, x: real)
    ensures (w + Times(c, v)) * x == w * x + Times(c, v * x)
  {}

  lemma Factor(c: real, d: real, e: real)
    ensures Times(c, d + e) == Times(c, d) + Times(c, e)
  {}

  lemma {:induction false} DotZero(u: Vector, x: Vector)
    requires |u| == |x| && forall j :: 0 <= j < |u| ==> u[j] == 0.0
    ensures Dot(u, x) == 0.0
  {
    if u != [] {
      DotZero(u[..|u| - 1], x[..|x| - 1]);
    }
  }

  // ---------------------------------------------------------------------------
  // One elimination step

  lemma Restored(entry: real, v: real, w: real, d: real)
    requires d != 0.0
    ensures entry == Eliminated(entry, v, w, d) + Times(Over(v, d), w)
    ensures entry == Eliminated(entry, v, w, d) + Times(Over(w, d), v)
  {
    Ratio(v, w, d);
    Ratio(w, v, d);
  }

  lemma Ratio(p: real, q: real, d: real)
    requires d != 0.0
    ensures p * q / d == p / d * q && p * q / d == q * p / d
  {}

  lemma SchurEntry(a: Rows, i: nat, j: nat)
    requires Compact(a) && i + 1 < |a| && j + 1 < |a| && a[0][0] != 0.0
    ensures Entry(a, i + 1, j + 1) == Entry(Schur(a), i, j) + Times(Over(a[0][i + 1], a[0][0]), a[0][j + 1])
  {
    hide Eliminated, Over, Times;
    var s, d := Schur(a), a[0][0];
    if i < j {
      assert s[i][j - i] == Eliminated(a[i + 1][j - i], a[0][i + 1], a[0][i + 1 + (j - i)], d);
      Restored(a[i + 1][j - i], a[0][i + 1], a[0][j + 1], d);
    } else {
      assert s[j][i - j] == Eliminated(a[j + 1][i - j], a[0][j + 1], a[0][j + 1 + (i - j)], d);
      Restored(a[j + 1][i - j], a[0][j + 1], a[0][i + 1], d);
    }
  }

  /** Row i + 1 of A is row i of the Schur complement plus a multiple of row 0. */
  lemma RowBelow(a: Rows, i: nat)
    requires Compact(a) && i + 1 < |a| && a[0][0] != 0.0
    ensures FullRow(a, i + 1)[0] == a[0][i + 1]
    ensures forall j :: 0 <= j < |a| - 1 ==>
              FullRow(a, i + 1)[1..][j] == FullRow(Schur(a), i)[j] + Times(Over(a[0][i + 1], a[0][0]), a[0][1..][j])
  {
    hide Eliminated, Over, Times, Schur, Entry;
    assert FullRow(a, i + 1)[0] == Entry(a, i + 1, 0);
    EntryAtEdge(a, i + 1);
    forall j | 0 <= j < |a| - 1
      ensures FullRow(a, i + 1)[1..][j] == FullRow(Schur(a), i)[j] + Times(Over(a[0][i + 1], a[0][0]), a[0][1..][j])
    {
      SchurEntry(a, i, j);
      assert FullRow(a, i + 1)[j + 1] == Entry(a, i + 1, j + 1);
    }
  }

  lemma EntryAtEdge(a: Rows, i: nat)
    requires Compact(a) && i < |a|
    ensures Entry(a, i, 0) == Entry(a, 0, i) == a[0][i]
  {}

  /** The first unknown, once the others are known. */
  function First(a: Rows, b: Vector, xs: Vector): real
    requires Compact(a) && |a| == |b| == |xs| + 1 && a[0][0] != 0.0
  {
    Over(b[0] - Dot(a[0][1..], xs), a[0][0])
  }

  lemma Cancel(v: real, b: real, t: real, d: real)
    requires d != 0.0
    ensures v * Over(b - t, d) + Times(Over(v, d), t) == Times(Over(v, d), b)
  {
    var r, q := v / d, (b - t) / d;
    assert v == r * d && q * d == b - t;
    assert v * q == r * (d * q);
    assert r * (b - t) + r * t == r * b;
  }

  /** With x0 chosen from row 0, row i + 1 is off by exactly as much as row i of the reduced system. */
  lemma SameDefect(a: Rows, b: Vector, xs: Vector, i: nat)
    requires Compact(a) && |a| == |b| == |xs| + 1 && a[0][0] != 0.0 && i < |xs|
    ensures Dot(FullRow(a, i + 1), [First(a, b, xs)] + xs) - b[i + 1] == Dot(FullRow(Schur(a), i), xs) - Reduced(a, b)[i]
  {
    hide Dot, Schur, Over, Times, Eliminated, FullRow;
    var v, d, t := a[0][i + 1], a[0][0], Dot(a[0][1..], xs);
    var x := [First(a, b, xs)] + xs;
    var row := FullRow(a, i + 1);
    RowBelow(a, i);
    DotFirst(row, x);
    assert x[1..] == xs;
    DotLinear(row[1..], FullRow(Schur(a), i), a[0][1..], Over(v, d), xs);
    Cancel(v, b[0], t, d);
    Restored(b[i + 1], v, b[0], d);
  }

  lemma FirstRow(a: Rows, xs: Vector, x0: real)
    requires Compact(a) && |a| == |xs| + 1
    ensures Dot(FullRow(a, 0), [x0] + xs) == a[0][0] * x0 + Dot(a[0][1..], xs)
  {
    hide Dot;
    var row := FullRow(a, 0);
    assert row == a[0];
    DotFirst(row, [x0] + xs);
    assert ([x0] + xs)[1..] == xs;
  }

  lemma FirstIsRight(a: Rows, b: Vector, xs: Vector)
    requires Compact(a) && |a| == |b| == |xs| + 1 && a[0][0] != 0.0
    ensures Dot(FullRow(a, 0), [First(a, b, xs)] + xs) == b[0]
  {
    hide Dot, FullRow;
    FirstRow(a, xs, First(a, b, xs));
    TimesQuotient(b[0] - Dot(a[0][1..], xs), a[0][0]);
  }

  lemma TimesQuotient(p: real, d: real)
    requires d != 0.0
    ensures d * Over(p, d) == p
  {}

  /** An elimination step neither gains nor loses solutions. */
  lemma StepSolves(a: Rows, b: Vector, xs: Vector)
    requires Compact(a) && |a| == |b| == |xs| + 1 && |xs| > 0 && a[0][0] != 0.0
    ensures Solves(a, b, [First(a, b, xs)] + xs) <==> Solves(Schur(a), Reduced(a, b), xs)
  {
    hide Dot, FullRow, Schur, Reduced, First;
    var x := [First(a, b, xs)] + xs;
    FirstIsRight(a, b, xs);
    forall i | 0 <= i < |xs|
      ensures Dot(FullRow(a, i + 1), x) - b[i + 1] == Dot(FullRow(Schur(a), i), xs) - Reduced(a, b)[i]
    {
      SameDefect(a, b, xs, i);
    }
    RowsShift(a, b, x, Schur(a), Reduced(a, b), xs);
  }

  /** Row for row the two systems are off by the same amount. */
  lemma RowsShift(a: Rows, b: Vector, x: Vector, s: Rows, r: Vector, xs: Vector)
    requires Compact(a) && Compact(s) && |a| == |b| == |x| == |s| + 1 && |s| == |r| == |xs|
    requires Dot(FullRow(a, 0), x) == b[0]
    requires forall i :: 0 <= i < |xs| ==> Dot(FullRow(a, i + 1), x) - b[i + 1] == Dot(FullRow(s, i), xs) - r[i]
    ensures Solves(a, b, x) <==> Solves(s, r, xs)
  {
    hide Dot, FullRow;
    if Solves(a, b, x) {
      forall i | 0 <= i < |s|
        ensures Dot(FullRow(s, i), xs) == r[i]
      {
        assert Dot(FullRow(a, i + 1), x) == b[i + 1];
      }
    }
    if Solves(s, r, xs) {
      forall i | 0 <= i < |a|
        ensures Dot(FullRow(a, i), x) == b[i]
      {
        if i > 0 {
          var k := i - 1;
          assert Dot(FullRow(s, k), xs) == r[k];
          assert Dot(FullRow(a, k + 1), x) - b[k + 1] == Dot(FullRow(s, k), xs) - r[k];
        }
      }
    }
  }

  // ---------------------------------------------------------------------------
  // When the answer is right

  /**
    * At every zero pivot on the way, row 0 is satisfied by the unknowns below it.
    * (The code leaves this check to a comment; see ZeroPivotMisses.)
    */
  ghost predicate Fits(a: Rows, b: Vector)
    requires Compact(a) && |a| == |b| > 0
    decreases |b|
  {
    if |b| == 1 then a[0][0] != 0.0 || b[0] == 0.0
    else if a[0][0] != 0.0 then Fits(Schur(a), Reduced(a, b))
    else Compact(a[1..]) && Fits(a[1..], b[1..]) && (Solve(a[1..], b[1..]).Some? ==> Dot(a[0][1..], Solve(a[1..], b[1..]).value) == 0.0)
  }

  lemma RestCompact(a: Rows)
    requires Compact(a) && |a| > 0
    ensures Compact(a[1..])
  {
    assert forall i :: 0 <= i < |a| - 1 ==> a[1..][i] == a[i + 1];
  }

  /** With a zero pivot and x0 = 0, the rows below are those of the rest. */
  lemma SkipSolves(a: Rows, b: Vector, xs: Vector)
    requires Compact(a) && |a| == |b| == |xs| + 1 && |xs| > 0 && a[0][0] == 0.0 && b[0] == 0.0
    ensures Compact(a[1..])
    ensures Solves(a, b, [0.0] + xs) <==> Solves(a[1..], b[1..], xs) && Dot(a[0][1..], xs) == 0.0
  {
    hide Dot, FullRow;
    RestCompact(a);
    FirstRow(a, xs, 0.0);
    var x := [0.0] + xs;
    if Dot(a[0][1..], xs) == 0.0 {
      forall i | 0 <= i < |xs|
        ensures Dot(FullRow(a, i + 1), x) - b[i + 1] == Dot(FullRow(a[1..], i), xs) - b[1..][i]
      {
        SkipRow(a, xs, i);
      }
      RowsShift(a, b, x, a[1..], b[1..], xs);
    } else {
      assert Dot(FullRow(a, 0), x) != b[0];
    }
  }

  lemma SkipRow(a: Rows, xs: Vector, i: nat)
    requires Compact(a) && |a| == |xs| + 1 && i < |xs| && Compact(a[1..])
    ensures Dot(FullRow(a, i + 1), [0.0] + xs) == Dot(FullRow(a[1..], i), xs)
  {
    var row, rest := FullRow(a, i + 1), FullRow(a[1..], i);
    DotFirst(row, [0.0] + xs);
    assert ([0.0] + xs)[1..] == xs;
    forall j | 0 <= j < |xs|
      ensures row[1..][j] == rest[j]
    {
      assert row[j + 1] == Entry(a, i + 1, j + 1) && rest[j] == Entry(a[1..], i, j);
    }
    assert row[1..] == rest;
  }

  lemma OneUnknown(a: Rows, b: Vector, x: real)
    requires Compact(a) && |a| == |b| == 1
    ensures Solves(a, b, [x]) <==> a[0][0] * x == b[0]
  {
    assert FullRow(a, 0) == [a[0][0]];
    assert Dot([a[0][0]], [x]) == Dot([], []) + a[0][0] * x;
  }

  /** An answer satisfies A x = b for the original A and b exactly when Fits says so; Pivoting says it of A alone. */
  lemma {:induction false} AnswerFits(a: Rows, b: Vector)
    requires Compact(a) && |a| == |b| > 0 && Solve(a, b).Some?
    ensures Solves(a, b, Solve(a, b).value) <==> Fits(a, b)
    decreases |b|
  {
    hide Dot, FullRow, Schur, Reduced, First, Solves, Over;
    var pivot := a[0][0];
    if |b| == 1 {
      OneUnknown(a, b, Solve(a, b).value[0]);
      if pivot != 0.0 {
        TimesQuotient(b[0], pivot);
      }
      assert Solve(a, b).value == [Solve(a, b).value[0]];
    } else if pivot != 0.0 {
      var xs := Solve(Schur(a), Reduced(a, b)).value;
      AnswerFits(Schur(a), Reduced(a, b));
      StepSolves(a, b, xs);
    } else {
      RestCompact(a);
      var xs := Solve(a[1..], b[1..]).value;
      AnswerFits(a[1..], b[1..]);
      SkipSolves(a, b, xs);
    }
  }

  /** Every pivot is non-zero, or has a zero row next to it and a zero right-hand side at the end. */
  ghost predicate Regular(a: Rows, b: Vector)
    requires Compact(a) && |a| == |b| > 0
    decreases |b|
  {
    if |b| == 1 then a[0][0] != 0.0 || b[0] == 0.0
    else if a[0][0] != 0.0 then Regular(Schur(a), Reduced(a, b))
    else Compact(a[1..]) && b[0] == 0.0 && (forall j :: 1 <= j < |a| ==> a[0][j] == 0.0) && Regular(a[1..], b[1..])
  }

  /** The successive pivots are non-zero. */
  ghost predicate PivotsNonZero(a: Rows)
    requires Compact(a)
    decreases |a|
  {
    |a| > 0 ==> a[0][0] != 0.0 && PivotsNonZero(Schur(a))
  }

  lemma {:induction false} PivotsAreRegular(a: Rows, b: Vector)
    requires Compact(a) && |a| == |b| > 0 && PivotsNonZero(a)
    ensures Regular(a, b)
    decreases |b|
  {
    hide Schur, Reduced;
    if |b| > 1 {
      PivotsAreRegular(Schur(a), Reduced(a, b));
    }
  }

  /** For such systems the solver answers, and the answer is right. */
  lemma {:induction false} RegularSolved(a: Rows, b: Vector)
    requires Compact(a) && |a| == |b| > 0 && Regular(a, b)
    ensures Solve(a, b).Some? && Solves(a, b, Solve(a, b).value)
  {
    hide Dot, FullRow, Schur, Reduced, First, Solves, Over;
    RegularFits(a, b);
    AnswerFits(a, b);
  }

  lemma {:induction false} RegularFits(a: Rows, b: Vector)
    requires Compact(a) && |a| == |b| > 0 && Regular(a, b)
    ensures Solve(a, b).Some? && Fits(a, b)
    decreases |b|
  {
    hide Dot, FullRow, Schur, Reduced, First, Solves, Over;
    if |b| > 1 {
      if a[0][0] != 0.0 {
        RegularFits(Schur(a), Reduced(a, b));
      } else {
        RestCompact(a);
        RegularFits(a[1..], b[1..]);
        DotZero(a[0][1..], Solve(a[1..], b[1..]).value);
      }
    }
  }

  /** A zero pivot beside a non-zero entry: an answer is given, and row 0 is not satisfied. */
  lemma ZeroPivotMisses()
    ensures var a, b := [[0.0, 1.0], [1.0]], [0.0, 1.0];
            Compact(a) && Solve(a, b).Some? && !Solves(a, b, Solve(a, b).value)
  {
    var a, b := [[0.0, 1.0], [1.0]], [0.0, 1.0];
    assert Compact(a) && a[1..] == [[1.0]] && b[1..] == [1.0];
    assert Solve([[1.0]], [1.0]) == Some([1.0]);
    assert Solve(a, b) == Some([0.0] + [1.0]);
    assert FullRow(a, 0) == [0.0, 1.0];
    FirstRow(a, [1.0], 0.0);
    assert a[0][1..] == [1.0] && Dot([1.0], [1.0]) == Dot([], []) + 1.0 * 1.0;
  }

  /** A right-hand side of 1/2 at a zero last pivot is truncated to 0 and accepted. */
  lemma TruncationMisses()
    ensures Compact([[0.0]]) && Solve([[0.0]], [0.5]) == Some([0.0]) && !Solves([[0.0]], [0.5], [0.0])
  {
    OneUnknown([[0.0]], [0.5], 0.0);
  }
}

/** The solver in place, as _positive_solver_rec runs it. */
module PositiveSolver {
  import opened NormalSystem
  import opened Symmetric

  ghost function RowsOf(a: seq<array<real>>): (r: Rows)
    reads a
    ensures |r| == |a| && forall i :: 0 <= i < |a| ==> r[i] == a[i][..]
  {
    seq(|a|, i requires 0 <= i < |a| reads a => a[i][..])
  }

  /** Row arrays of the right lengths, all different from each other and from x and b. */
  ghost predicate Apart(a: seq<array<real>>, x: array<real>, b: array<real>) {
    && x != b && x !in a && b !in a
    && (forall i :: 0 <= i < |a| ==> a[i].Length == |a| - i)
    && (forall i, j :: 0 <= i < j < |a| ==> a[i] != a[j])
  }

  /** The share of the work that row i belongs to. */
  function Share(i: nat, nT: nat): (t: nat)
    requires nT > 0
    ensures t < nT
  {
    (i - i / nT) % nT
  }

  /** Row i + 1 and its right-hand side after the elimination. */
  ghost predicate RowDone(a0: Rows, b0: Vector, row: seq<real>, rhs: real, i: nat)
    requires Compact(a0) && |a0| == |b0| && i + 1 < |a0| && a0[0][0] != 0.0
  {
    row == Schur(a0)[i] && rhs == Reduced(a0, b0)[i]
  }

  lemma SchurRow(a0: Rows, b0: Vector, i: nat, row: seq<real>, rhs: real)
    requires Compact(a0) && |a0| == |b0| && i + 1 < |a0| && a0[0][0] != 0.0
    requires |row| == |a0| - 1 - i
    requires forall j :: 0 <= j < |row| ==> row[j] == Eliminated(a0[i + 1][j], a0[0][i + 1], a0[0][i + 1 + j], a0[0][0])
    requires rhs == Eliminated(b0[i + 1], a0[0][i + 1], b0[0], a0[0][0])
    ensures RowDone(a0, b0, row, rhs, i)
  {
    hide Eliminated;
  }

  /** One row of the elimination loop. */
  method EliminateRow(a: seq<array<real>>, x: array<real>, b: array<real>, off: nat, i: nat, ghost a0: Rows, ghost b0: Vector)
    requires Apart(a, x, b) && i + 1 < |a| && off + |a| <= b.Length
    requires Compact(a0) && |a0| == |b0| == |a| && a0[0][0] != 0.0
    requires a[0][..] == a0[0] && a[i + 1][..] == a0[i + 1] && b[off] == b0[0] && b[off + i + 1] == b0[i + 1]
    modifies b, a[i + 1]
    ensures RowDone(a0, b0, a[i + 1][..], b[off + i + 1], i)
    ensures forall k :: 0 <= k < b.Length && k != off + i + 1 ==> b[k] == old(b[k])
  {
    hide Eliminated;
    ghost var row := a[i + 1];
    b[off + 1 + i] := Eliminated(b[off + 1 + i], a[0][i + 1], b[off], a[0][0]);
    var m := |a| - 1;
    var j := 0;
    while j < m - i
      modifies row
      invariant 0 <= j <= m - i
      invariant forall k :: 0 <= k < j ==> row[k] == Eliminated(a0[i + 1][k], a0[0][i + 1], a0[0][i + 1 + k], a0[0][0])
      invariant forall k :: j <= k < m - i ==> row[k] == a0[i + 1][k]
    {
      a[i + 1][j] := Eliminated(a[i + 1][j], a[0][i + 1], a[0][i + 1 + j], a[0][0]);
      j := j + 1;
    }
    SchurRow(a0, b0, i, row[..], b[off + i + 1]);
  }

  /** Shares that are not in todo have treated their rows, share t its rows below upto; other rows are as they were. */
  ghost predicate RowState(a: seq<array<real>>, b: array<real>, off: nat, a0: Rows, b0: Vector,
                           nT: nat, todo: set<nat>, t: nat, upto: nat, i: nat)
    requires i + 1 < |a| && off + |a| <= b.Length && nT > 0
    requires Compact(a0) && |a0| == |b0| == |a| && a0[0][0] != 0.0
    reads a, b
  {
    if Share(i, nT) !in todo || (Share(i, nT) == t && i < upto) then RowDone(a0, b0, a[i + 1][..], b[off + i + 1], i)
    else a[i + 1][..] == a0[i + 1] && b[off + i + 1] == b0[i + 1]
  }

  /**
    * The parallel loop: each of the nT shares treats its own rows, and the shares
    * may run in any order.
    */
  method Eliminate(a: seq<array<real>>, x: array<real>, b: array<real>, off: nat, nT: nat)
    requires Apart(a, x, b) && |a| > 1 && off + |a| <= b.Length && nT > 0
    requires Compact(RowsOf(a)) && a[0][0] != 0.0
    modifies b, a[1..]
    ensures RowsOf(a[1..]) == Schur(old(RowsOf(a))) && b[off + 1..off + |a|] == Reduced(old(RowsOf(a)), old(b[off..off + |a|]))
    ensures a[0][..] == old(a[0][..]) && forall k :: 0 <= k <= off || off + |a| <= k < b.Length ==> b[k] == old(b[k])
  {
    hide Schur, Reduced, Eliminated, RowDone, Share;
    ghost var a0, b0 := RowsOf(a), b[off..off + |a|];
    var todo := Shares(nT);
    while todo != {}
      invariant forall t: nat :: t in todo ==> t < nT
      invariant forall i: nat :: i + 1 < |a| ==> RowState(a, b, off, a0, b0, nT, todo, 0, 0, i)
      invariant a[0][..] == a0[0] && forall k :: 0 <= k <= off || off + |a| <= k < b.Length ==> b[k] == old(b[k])
      decreases todo
    {
      var t: nat :| t in todo;
      EliminateShare(a, x, b, off, nT, t, todo, a0, b0);
      todo := todo - {t};
    }
    forall i: nat | i + 1 < |a|
      ensures a[1..][i][..] == Schur(a0)[i] && b[off + 1..off + |a|][i] == Reduced(a0, b0)[i]
    {
      assert RowState(a, b, off, a0, b0, nT, {}, 0, 0, i);
      Open(a0, b0, a[i + 1][..], b[off + i + 1], i);
    }
    assert RowsOf(a[1..]) == Schur(a0);
  }

  lemma Open(a0: Rows, b0: Vector, row: seq<real>, rhs: real, i: nat)
    requires Compact(a0) && |a0| == |b0| && i + 1 < |a0| && a0[0][0] != 0.0
    requires RowDone(a0, b0, row, rhs, i)
    ensures row == Schur(a0)[i] && rhs == Reduced(a0, b0)[i]
  {}

  function Shares(nT: nat): (s: set<nat>)
    ensures forall t: nat :: t in s <==> t < nT
  {
    if nT == 0 then {} else Shares(nT - 1) + {nT - 1}
  }

  method EliminateShare(a: seq<array<real>>, x: array<real>, b: array<real>, off: nat, nT: nat, t: nat,
                        ghost todo: set<nat>, ghost a0: Rows, ghost b0: Vector)
    requires Apart(a, x, b) && |a| > 1 && off + |a| <= b.Length && nT > 0 && t in todo
    requires Compact(a0) && |a0| == |b0| == |a| && a0[0][0] != 0.0 && a[0][..] == a0[0] && b[off] == b0[0]
    requires forall i: nat :: i + 1 < |a| ==> RowState(a, b, off, a0, b0, nT, todo, 0, 0, i)
    modifies b, a[1..]
    ensures forall i: nat :: i + 1 < |a| ==> RowState(a, b, off, a0, b0, nT, todo - {t}, 0, 0, i)
    ensures a[0][..] == old(a[0][..]) && forall k :: 0 <= k <= off || off + |a| <= k < b.Length ==> b[k] == old(b[k])
  {
    hide Schur, Reduced, Eliminated, RowDone, Share;
    var m := |a| - 1;
    var i := 0;
    assert forall k: nat :: k + 1 < |a| ==> RowState(a, b, off, a0, b0, nT, todo, 0, 0, k) ==> RowState(a, b, off, a0, b0, nT, todo, t, 0, k);
    while i < m
      invariant 0 <= i <= m
      invariant forall k: nat :: k + 1 < |a| ==>
                  RowState(a, b, off, a0, b0, nT, todo, t, i, k)
      invariant a[0][..] == a0[0] && forall k :: 0 <= k <= off || off + |a| <= k < b.Length ==> b[k] == old(b[k])
    {
      assert RowState(a, b, off, a0, b0, nT, todo, t, i, i);
      var next := i + 1;
      label Before:
      if Share(i, nT) == t {
        assert a[1..][i] == a[i + 1];
        EliminateRow(a, x, b, off, i, a0, b0);
      }
      forall k: nat | k + 1 < |a|
        ensures RowState(a, b, off, a0, b0, nT, todo, t, next, k)
      {
        assert old@Before(RowState(a, b, off, a0, b0, nT, todo, t, i, k));
      }
      i := next;
    }
    ghost var rest := todo - {t};
    forall k: nat | k + 1 < |a|
      ensures RowState(a, b, off, a0, b0, nT, rest, 0, 0, k)
    {
      assert RowState(a, b, off, a0, b0, nT, todo, t, i, k);
    }
  }

  /** The last unknown. */
  method SolveLast(pivot: real, x: array<real>, b: array<real>, off: nat) returns (status: int)
    requires x != b && off < b.Length && off < x.Length
    modifies x
    ensures status == if pivot == 0.0 && TooLarge(b[off]) then -1 else 0
    ensures status == 0 ==> x[off] == if pivot != 0.0 then Over(b[off], pivot) else 0.0
    ensures forall k :: 0 <= k < x.Length && k != off ==> x[k] == old(x[k])
  {
    if pivot == 0.0 {
      if TooLarge(b[off]) {
        return -1;
      }
      x[off] := 0.0;
      return 0;
    }
    x[off] := Over(b[off], pivot);
    status := 0;
  }

  /** x0 = (b0 - p) / pivot, with p summed over the unknowns already known. */
  method BackSubstitute(row: array<real>, x: array<real>, b: array<real>, off: nat, ghost xs: Vector)
    requires x != b && x != row && |xs| + 1 == row.Length && row[0] != 0.0
    requires off < b.Length && off + row.Length <= x.Length && x[off + 1..off + row.Length] == xs
    modifies x
    ensures x[off] == Over(b[off] - Dot(row[1..], xs), row[0])
    ensures forall k :: 0 <= k < x.Length && k != off ==> x[k] == old(x[k])
  {
    hide Dot, Over;
    ghost var u := row[1..];
    var m := row.Length - 1;
    var p := 0.0;
    var k := 0;
    NoTerms(u, xs);
    while k < m
      modifies {}
      invariant 0 <= k <= m && p == Dot(u[..k], xs[..k])
    {
      DotOn(u, xs, k);
      assert u[k] == row[k + 1] && xs[k] == x[off + 1 + k];
      p := p + row[k + 1] * x[off + 1 + k];
      k := k + 1;
    }
    assert u[..m] == u && xs[..m] == xs;
    x[off] := Over(b[off] - p, row[0]);
  }

  lemma NoTerms(u: Vector, v: Vector)
    requires |u| == |v|
    ensures Dot(u[..0], v[..0]) == 0.0
  {}

  /** The system that is left for the recursion. */
  function RestRows(a: Rows): (r: Rows)
    requires Compact(a) && |a| > 0
    ensures Compact(r) && |r| == |a| - 1
  {
    assert forall i :: 0 <= i < |a| - 1 ==> a[1..][i] == a[i + 1];
    if a[0][0] != 0.0 then Schur(a) else a[1..]
  }

  function RestRhs(a: Rows, b: Vector): (r: Vector)
    requires Compact(a) && |a| == |b| > 0
    ensures |r| == |b| - 1
  {
    if a[0][0] != 0.0 then Reduced(a, b) else b[1..]
  }

  function FirstUnknown(a: Rows, b: Vector, xs: Vector): real
    requires Compact(a) && |a| == |b| == |xs| + 1
  {
    if a[0][0] != 0.0 then First(a, b, xs) else 0.0
  }

  /** How an answer is put together from the one of the recursion. */
  lemma SolveSteps(a: Rows, b: Vector)
    requires Compact(a) && |a| == |b| > 0
    ensures |b| == 1 ==> Solve(a, b) == (if a[0][0] != 0.0 then Some([Over(b[0], a[0][0])])
                                         else if TooLarge(b[0]) then None else Some([0.0]))
    ensures |b| > 1 ==>
              var r := Solve(RestRows(a), RestRhs(a, b));
              Solve(a, b) == if r.None? || (a[0][0] == 0.0 && b[0] != 0.0) then None
                             else Some([FirstUnknown(a, b, r.value)] + r.value)
  {
    RestCompact(a);
  }

  /** Eliminate where the pivot allows it. */
  method ReduceSystem(a: seq<array<real>>, x: array<real>, b: array<real>, off: nat, nT: nat)
    requires Apart(a, x, b) && |a| > 1 && off + |a| <= b.Length && nT > 0 && Compact(RowsOf(a))
    modifies b, a[1..]
    ensures RowsOf(a[1..]) == RestRows(old(RowsOf(a)))
    ensures b[off + 1..off + |a|] == RestRhs(old(RowsOf(a)), old(b[off..off + |a|]))
    ensures a[0][..] == old(a[0][..]) && forall k :: 0 <= k <= off || off + |a| <= k < b.Length ==> b[k] == old(b[k])
  {
    hide Schur, Reduced;
    if a[0][0] != 0.0 {
      Eliminate(a, x, b, off, nT);
    } else {
      assert RowsOf(a[1..]) == RowsOf(a)[1..];
    }
  }

  lemma FirstOf(a: Rows, b: Vector, xs: Vector)
    requires Compact(a) && |a| == |b| == |xs| + 1 && a[0][0] != 0.0
    ensures First(a, b, xs) == Over(b[0] - Dot(a[0][1..], xs), a[0][0])
  {}

  /**
    * _positive_solver_rec, on the part of x and b that starts at off.  It returns 0
    * exactly when Solve has an answer, and leaves that answer in x.
    */
  method SolveRec(a: seq<array<real>>, x: array<real>, b: array<real>, off: nat, nT: nat) returns (status: int)
    requires Apart(a, x, b) && off + |a| <= b.Length && off + |a| <= x.Length && nT > 0
    requires Compact(RowsOf(a))
    modifies x, b, a
    ensures a == [] ==> status == -1
    ensures a != [] ==>
              var r := Solve(old(RowsOf(a)), old(b[off..off + |a|]));
              && status == (if r.Some? then 0 else -1)
              && (r.Some? ==> x[off..off + |a|] == r.value)
    ensures forall k :: 0 <= k < off || off + |a| <= k < x.Length ==> x[k] == old(x[k])
    ensures forall k :: 0 <= k < off || off + |a| <= k < b.Length ==> b[k] == old(b[k])
    decreases |a|
  {
    hide Solve, RestRows, RestRhs, FirstUnknown, Over, Compact;
    if |a| < 1 {
      return -1;
    }
    ghost var a0, b0 := RowsOf(a), b[off..off + |a|];
    SolveSteps(a0, b0);
    RowLength(a0);
    if |a| == 1 {
      status := SolveLast(a[0][0], x, b, off);
      return;
    }
    ApartRest(a, x, b);
    ReduceSystem(a, x, b, off, nT);
    status := SolveRec(a[1..], x, b, off + 1, nT);
    if status < 0 {
      return;
    }
    status := Finish(a[0], x, b, off, a0, b0, x[off + 1..off + |a|]);
  }

  lemma RowLength(a: Rows)
    requires Compact(a) && |a| > 0
    ensures |a[0]| == |a|
  {}

  /** The first unknown, once the recursion has found the others. */
  method Finish(row: array<real>, x: array<real>, b: array<real>, off: nat, ghost a0: Rows, ghost b0: Vector, ghost xs: Vector)
    returns (status: int)
    requires x != b && x != row && Compact(a0) && |a0| == |b0| == |xs| + 1 == row.Length
    requires off < b.Length && off + row.Length <= x.Length && x[off + 1..off + row.Length] == xs
    requires row[..] == a0[0] && b[off] == b0[0]
    modifies x
    ensures status == if a0[0][0] == 0.0 && b0[0] != 0.0 then -1 else 0
    ensures status == 0 ==> x[off..off + row.Length] == [FirstUnknown(a0, b0, xs)] + xs
    ensures forall k :: 0 <= k < x.Length && k != off ==> x[k] == old(x[k])
  {
    hide First, Dot, Over;
    assert row[0] == a0[0][0] && row[1..] == a0[0][1..];
    if row[0] == 0.0 {
      if b[off] != 0.0 {
        return -1;
      }
      x[off] := 0.0;
    } else {
      FirstOf(a0, b0, xs);
      BackSubstitute(row, x, b, off, xs);
    }
    status := 0;
    assert x[off + 1..off + row.Length] == xs;
    assert x[off..off + row.Length] == [x[off]] + x[off + 1..off + row.Length];
  }

  lemma DotOn(u: Vector, v: Vector, k: nat)
    requires |u| == |v| && k < |u|
    ensures Dot(u[..k + 1], v[..k + 1]) == Dot(u[..k], v[..k]) + u[k] * v[k]
  {
    assert u[..k + 1][..k] == u[..k] && v[..k + 1][..k] == v[..k];
    if k == 0 {
      assert u[..0] == [] && v[..0] == [];
    }
  }

  lemma ApartRest(a: seq<array<real>>, x: array<real>, b: array<real>)
    requires Apart(a, x, b) && a != []
    ensures Apart(a[1..], x, b)
    ensures a[0] !in a[1..] && forall i :: 0 <= i < |a| - 1 ==> a[1..][i] == a[i + 1] && a[1..][i] in a
  {}

  // ---------------------------------------------------------------------------
  // The normal equations

  /** A^T A x = A^T b, for the matrix with the given columns. */
  ghost predicate NormalEquations(cols: seq<Vector>, b: Vector, x: Vector)
    requires |x| == |b| == |cols| && Level(cols, |cols|)
  {
    forall i :: 0 <= i < |cols| ==>
      Dot(seq(|cols|, (j: nat) requires j < |cols| && i < |cols| && |cols[i]| == |cols[j]| => Dot(cols[i], cols[j])), x) == Dot(cols[i], b)
  }

  lemma GramSolves(cols: seq<Vector>, b: Vector, x: Vector)
    requires |x| == |b| == |cols| && Level(cols, |cols|)
    ensures Solves(Gram(cols, |cols|), Products(cols, b), x) <==> NormalEquations(cols, b, x)
  {
    hide Dot, Gram;
    forall i | 0 <= i < |cols|
      ensures FullRow(Gram(cols, |cols|), i) == seq(|cols|, (j: nat) requires j < |cols| && i < |cols| && |cols[i]| == |cols[j]| => Dot(cols[i], cols[j]))
    {
      forall j: nat | j < |cols|
        ensures FullRow(Gram(cols, |cols|), i)[j] == Dot(cols[i], cols[j])
      {
        GramEntry(cols, |cols|, i, j);
      }
    }
  }

  /** sum += u[k] * v[k] */
  method SumOfProducts(u: Vector, v: Vector) returns (sum: real)
    requires |u| == |v|
    ensures sum == Dot(u, v)
  {
    hide Dot;
    sum := 0.0;
    NoTerms(u, v);
    var k := 0;
    while k < |u|
      invariant 0 <= k <= |u| && sum == Dot(u[..k], v[..k])
    {
      DotOn(u, v, k);
      sum := sum + u[k] * v[k];
      k := k + 1;
    }
    assert u[..|u|] == u && v[..|v|] == v;
  }

  /** multiply_symm_matrix_vector: what it returns is the right-hand side that x solves. */
  method MultiplySymm(a: Rows, x: Vector) returns (b: array<real>)
    requires Compact(a) && |a| == |x|
    ensures fresh(b) && b.Length == |a| && Solves(a, b[..], x)
  {
    hide Dot, Entry;
    b := new real[|a|];
    for i := 0 to |a|
      invariant forall k :: 0 <= k < i ==> b[k] == Dot(FullRow(a, k), x)
    {
      var sum := 0.0;
      ghost var row := FullRow(a, i);
      NoTerms(row, x);
      for j := 0 to |a|
        invariant sum == Dot(row[..j], x[..j])
        modifies {}
      {
        DotOn(row, x, j);
        var e := Entry(a, i, j);
        assert e == row[j] && e * x[j] == row[j] * x[j];
        sum := sum + e * x[j];
      }
      assert row[..|a|] == row && x[..|a|] == x;
      b[i] := sum;
    }
  }

  /** transpose_and_multiply into freshly allocated rows. */
  method TransposeAndMultiply(cols: seq<Vector>) returns (a: seq<array<real>>)
    requires Level(cols, |cols|)
    ensures |a| == |cols| && RowsOf(a) == Gram(cols, |cols|)
    ensures (forall i :: 0 <= i < |a| ==> fresh(a[i])) && forall i, j :: 0 <= i < j < |a| ==> a[i] != a[j]
  {
    hide Dot, Gram;
    a := [];
    var n := |cols|;
    var i := 0;
    while i < n
      invariant 0 <= i == |a| <= n
      invariant forall k :: 0 <= k < i ==> fresh(a[k]) && a[k][..] == Gram(cols, |cols|)[k]
      invariant forall k, l :: 0 <= k < l < i ==> a[k] != a[l]
      modifies {}
    {
      var row := new real[n - i](_ => 0.0);
      var j := 0;
      while j < n - i
        invariant 0 <= j <= n - i
        invariant forall k :: 0 <= k < j ==> row[k] == Gram(cols, |cols|)[i][k]
        modifies row
      {
        row[j] := SumOfProducts(cols[i], cols[j + i]);
        GramRow(cols, |cols|, i, j);
        j := j + 1;
      }
      assert row[..] == Gram(cols, |cols|)[i];
      a := a + [row];
      i := i + 1;
    }
    assert RowsOf(a) == Gram(cols, |cols|);
  }

  /** transpose_and_multiply_matrix_vector */
  method TransposeAndMultiplyVector(cols: seq<Vector>, b: Vector) returns (r: array<real>)
    requires Level(cols, |b|)
    ensures fresh(r) && r[..] == Products(cols, b)
  {
    hide Dot;
    r := new real[|cols|](_ => 0.0);
    var i := 0;
    while i < |cols|
      invariant 0 <= i <= |cols| && forall k :: 0 <= k < i ==> r[k] == Dot(cols[k], b)
    {
      r[i] := SumOfProducts(cols[i], b);
      i := i + 1;
    }
  }

  /**
    * positive_solver, for a square matrix stored by columns: it always succeeds, and
    * x satisfies the normal equations, also when the matrix is singular.
    */
  method SolveNormal(cols: seq<Vector>, x: array<real>, b: Vector, nT: nat) returns (status: int)
    requires |cols| == |b| == x.Length > 0 && nT > 0 && Level(cols, |cols|)
    modifies x
    ensures status == 0 && NormalEquations(cols, b, x[..])
  {
    hide Dot, Gram, Products, Solve, Fits, Solves, NormalEquations, Regular;
    var ata := TransposeAndMultiply(cols);
    var atb := TransposeAndMultiplyVector(cols, b);
    assert Apart(ata, x, atb) by {
      forall i | 0 <= i < |ata|
        ensures ata[i].Length == |ata| - i
      {
        assert RowsOf(ata)[i] == ata[i][..];
      }
    }
    assert atb[0..0 + |ata|] == atb[..];
    status := SolveRec(ata, x, atb, 0, nT);
    assert x[0..0 + |ata|] == x[..];
    NormalIsRegular(cols, b);
    RegularSolved(Gram(cols, |cols|), Products(cols, b));
    GramSolves(cols, b, x[..]);
  }
}
