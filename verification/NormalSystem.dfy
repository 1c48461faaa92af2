/**
  * The system that positive_solver sets up: the products of the columns of A with
  * one another and with b (OPERATORS/AX_EQUALS_B/src/matrix_helpers.c:105-162).
  * Elimination never meets a harmful pivot there, also when A is singular.
  */
module NormalSystem {
  import Gini
  import opened Symmetric

  /** All columns have m entries. */
  predicate Level(cols: seq<Vector>, m: nat) { forall k :: 0 <= k < |cols| ==> |cols[k]| == m }

  /** The upper rows of the matrix of all products of two columns. */
  function Gram(cols: seq<Vector>, m: nat): (g: Rows)
    requires Level(cols, m)
    ensures Compact(g) && |g| == |cols|
  {
    seq(|cols|, (i: nat) requires i < |cols| && Level(cols, m) =>
          seq(|cols| - i, (j: nat) requires j < |cols| - i && i < |cols| && Level(cols, m) => Dot(cols[i], cols[j + i])))
  }

  function Products(cols: seq<Vector>, b: Vector): (r: Vector)
    requires Level(cols, |b|)
    ensures |r| == |cols|
  {
    seq(|cols|, (i: nat) requires i < |cols| && |cols[i]| == |b| => Dot(cols[i], b))
  }

  lemma GramRow(cols: seq<Vector>, m: nat, i: nat, j: nat)
    requires Level(cols, m) && i < |cols| && j < |cols| - i
    ensures Gram(cols, m)[i][j] == Dot(cols[i], cols[j + i])
  {
    hide Dot;
  }

  /** Row i, column j of the full matrix is the product of columns i and j. */
  lemma GramEntry(cols: seq<Vector>, m: nat, i: nat, j: nat)
    requires Level(cols, m) && i < |cols| && j < |cols|
    ensures FullRow(Gram(cols, m), i)[j] == Dot(cols[i], cols[j])
  {
    hide Dot;
    DotCommutes(cols[i], cols[j]);
  }

  // ---------------------------------------------------------------------------
  // An elimination step takes the part along the first column off all others

  function Minus(c: Vector, r: real, v: Vector): (u: Vector)
    requires |c| == |v|
    ensures |u| == |c| && forall k :: 0 <= k < |u| ==> u[k] == c[k] + Times(0.0 - r, v[k])
  {
    seq(|c|, k requires 0 <= k < |c| && |c| == |v| => c[k] + Times(0.0 - r, v[k]))
  }

  /** The multiple of column 0 that column i contains. */
  function Part(cols: seq<Vector>, m: nat, i: nat): real
    requires Level(cols, m) && i < |cols| && Dot(cols[0], cols[0]) != 0.0
  {
    Over(Dot(cols[0], cols[i]), Dot(cols[0], cols[0]))
  }

  function Projected(cols: seq<Vector>, m: nat): (p: seq<Vector>)
    requires Level(cols, m) && cols != [] && Dot(cols[0], cols[0]) != 0.0
    ensures |p| == |cols| - 1 && Level(p, m)
  {
    seq(|cols| - 1, i requires 0 <= i < |cols| - 1 && Level(cols, m) && Dot(cols[0], cols[0]) != 0.0 =>
          Minus(cols[i + 1], Part(cols, m, i + 1), cols[0]))
  }

  lemma MinusDot(c: Vector, r: real, v: Vector, w: Vector)
    requires |c| == |v| == |w|
    ensures Dot(Minus(c, r, v), w) == Dot(c, w) + Times(0.0 - r, Dot(v, w))
  {
    hide *;
    var u, s := Minus(c, r, v), 0.0 - r;
    forall j | 0 <= j < |u|
      ensures u[j] == c[j] + Times(s, v[j])
    {
    }
    DotLinear(u, c, v, s, w);
  }

  /** What is left of a column is at right angles to column 0. */
  lemma Orthogonal(c: Vector, v: Vector)
    requires |c| == |v| && Dot(v, v) != 0.0
    ensures Dot(v, Minus(c, Over(Dot(v, c), Dot(v, v)), v)) == 0.0
  {
    hide Dot, Over;
    var r := Over(Dot(v, c), Dot(v, v));
    MinusDot(c, r, v, v);
    DotCommutes(v, Minus(c, r, v));
    DotCommutes(v, c);
    TimesQuotient(Dot(v, c), Dot(v, v));
  }

  /** The product of what is left of two columns is the entry after elimination. */
  lemma ProjectedDot(v: Vector, c: Vector, e: Vector)
    requires |c| == |v| == |e| && Dot(v, v) != 0.0
    ensures var d := Dot(v, v);
      Dot(Minus(c, Over(Dot(v, c), d), v), Minus(e, Over(Dot(v, e), d), v)) == Eliminated(Dot(c, e), Dot(v, c), Dot(v, e), d)
  {
    hide Dot, Over, Times, Eliminated;
    var d := Dot(v, v);
    var r := Over(Dot(v, e), d);
    var e' := Minus(e, r, v);
    MinusDot(c, Over(Dot(v, c), d), v, e');
    Orthogonal(e, v);
    TimesZero(0.0 - Over(Dot(v, c), d));
    DotCommutes(c, e');
    MinusDot(e, r, v, c);
    DotCommutes(e, c);
    Taken(Dot(c, e), Dot(v, c), Dot(v, e), d);
  }

  lemma TimesZero(c: real)
    ensures Times(c, 0.0) == 0.0
  {}

  lemma Taken(entry: real, v: real, w: real, d: real)
    requires d != 0.0
    ensures Eliminated(entry, v, w, d) == entry + Times(0.0 - Over(w, d), v)
    ensures Eliminated(entry, v, w, d) == entry + Times(0.0 - Over(v, d), w)
  {
    hide Eliminated, Over;
    Restored(entry, v, w, d);
    assert Times(0.0 - Over(w, d), v) == 0.0 - Times(Over(w, d), v);
    assert Times(0.0 - Over(v, d), w) == 0.0 - Times(Over(v, d), w);
  }

  /** An entry after elimination is a product of projected columns. */
  lemma EntryLeft(cols: seq<Vector>, m: nat, i: nat, j: nat)
    requires Level(cols, m) && cols != [] && Dot(cols[0], cols[0]) != 0.0 && i + 1 < |cols| && j < |cols| - 1 - i
    ensures Gram(cols, m)[0][0] == Dot(cols[0], cols[0])
    ensures Schur(Gram(cols, m))[i][j] == Gram(Projected(cols, m), m)[i][j]
  {
    hide Dot, Over, Eliminated, Minus, Gram;
    var g, p, v := Gram(cols, m), Projected(cols, m), cols[0];
    GramRow(cols, m, 0, 0);
    GramRow(cols, m, i + 1, j);
    GramRow(cols, m, 0, i + 1);
    GramRow(cols, m, 0, i + 1 + j);
    GramRow(p, m, i, j);
    ProjectedDot(v, cols[i + 1], cols[i + 1 + j]);
    assert p[j + i] == Minus(cols[i + 1 + j], Part(cols, m, i + 1 + j), v);
  }

  /** Eliminating the first unknown leaves the matrix of the projected columns ... */
  lemma SchurIsGram(cols: seq<Vector>, m: nat)
    requires Level(cols, m) && cols != [] && Dot(cols[0], cols[0]) != 0.0
    ensures Gram(cols, m)[0][0] == Dot(cols[0], cols[0]) && Schur(Gram(cols, m)) == Gram(Projected(cols, m), m)
  {
    hide Dot, Gram, Schur, Projected;
    var p := Projected(cols, m);
    GramRow(cols, m, 0, 0);
    forall i: nat | i < |p|
      ensures Schur(Gram(cols, m))[i] == Gram(p, m)[i]
    {
      forall j: nat | j < |p| - i
        ensures Schur(Gram(cols, m))[i][j] == Gram(p, m)[i][j]
      {
        EntryLeft(cols, m, i, j);
      }
    }
  }

  /** ... and their products with the same right-hand side. */
  lemma ReducedIsProducts(cols: seq<Vector>, b: Vector)
    requires Level(cols, |b|) && cols != [] && Dot(cols[0], cols[0]) != 0.0
    ensures Gram(cols, |b|)[0][0] != 0.0 && Reduced(Gram(cols, |b|), Products(cols, b)) == Products(Projected(cols, |b|), b)
  {
    hide Dot, Over, Eliminated, Times, Minus;
    var g, p, v := Gram(cols, |b|), Projected(cols, |b|), cols[0];
    GramRow(cols, |b|, 0, 0);
    forall i: nat | i < |p|
      ensures Reduced(g, Products(cols, b))[i] == Products(p, b)[i]
    {
      GramRow(cols, |b|, 0, i + 1);
      MinusDot(cols[i + 1], Part(cols, |b|, i + 1), v, b);
      Taken(Dot(cols[i + 1], b), Dot(v, cols[i + 1]), Dot(v, b), Dot(v, v));
    }
  }

  // ---------------------------------------------------------------------------
  // A zero pivot is a zero column

  lemma {:induction false} SumOfSquares(c: Vector)
    ensures Dot(c, c) >= 0.0
    ensures Dot(c, c) == 0.0 ==> forall k :: 0 <= k < |c| ==> c[k] == 0.0
  {
    if c != [] {
      SumOfSquares(c[..|c| - 1]);
      Gini.SquareSign(c[|c| - 1]);
      assert forall k :: 0 <= k < |c| - 1 ==> c[..|c| - 1][k] == c[k];
    }
  }

  lemma ZeroColumn(c: Vector, w: Vector)
    requires |c| == |w| && Dot(c, c) == 0.0
    ensures Dot(c, w) == 0.0
  {
    SumOfSquares(c);
    DotZero(c, w);
  }

  lemma RestIsGram(cols: seq<Vector>, b: Vector)
    requires Level(cols, |b|) && cols != []
    ensures Level(cols[1..], |b|)
    ensures Gram(cols, |b|)[1..] == Gram(cols[1..], |b|) && Products(cols, b)[1..] == Products(cols[1..], b)
  {
    hide Dot;
    var m, rest := |b|, cols[1..];
    forall i: nat | i < |rest|
      ensures Gram(cols, m)[i + 1] == Gram(rest, m)[i] && Products(cols, b)[i + 1] == Products(rest, b)[i]
    {
      assert rest[i] == cols[i + 1];
      forall j: nat | j < |rest| - i
        ensures Gram(cols, m)[i + 1][j] == Gram(rest, m)[i][j]
      {
        GramRow(cols, m, i + 1, j);
        GramRow(rest, m, i, j);
        assert rest[j + i] == cols[j + (i + 1)];
      }
    }
  }

  /** Whatever the columns, a pivot that vanishes has a zero row and a zero right-hand side. */
  lemma {:induction false} NormalIsRegular(cols: seq<Vector>, b: Vector)
    requires Level(cols, |b|) && cols != []
    ensures Regular(Gram(cols, |b|), Products(cols, b))
    decreases |cols|
  {
    hide Dot, Schur, Reduced, Gram, Products, Projected;
    var g, c, m := Gram(cols, |b|), Products(cols, b), |b|;
    FirstEntries(cols, b);
    if Dot(cols[0], cols[0]) == 0.0 {
      ZeroColumn(cols[0], b);
      forall j | 0 <= j < |cols|
        ensures g[0][j] == 0.0
      {
        GramRow(cols, m, 0, j);
        ZeroColumn(cols[0], cols[j]);
      }
      if |cols| > 1 {
        RestIsGram(cols, b);
        NormalIsRegular(cols[1..], b);
      }
    } else if |cols| > 1 {
      SchurIsGram(cols, m);
      ReducedIsProducts(cols, b);
      NormalIsRegular(Projected(cols, m), b);
    }
  }

  lemma FirstEntries(cols: seq<Vector>, b: Vector)
    requires Level(cols, |b|) && cols != []
    ensures Gram(cols, |b|)[0][0] == Dot(cols[0], cols[0]) && Products(cols, b)[0] == Dot(cols[0], b)
  {
    hide Dot;
    GramRow(cols, |b|, 0, 0);
  }
}
