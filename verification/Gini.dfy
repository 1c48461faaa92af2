/**
  * The split metric (DT/src/eval_metrics.c, DT/src/eval_metrics_isp.c), over reals.
  */
module Gini {
  function Share(part: real, whole: real): real
    requires whole > 0.0
  {
    part / whole
  }

  function Square(x: real): real { x * x }

  /** Impurity of a set with t tails and h heads. */
  function Impurity(t: real, h: real): real
    requires t + h > 0.0
  {
    1.0 - Square(Share(t, t + h)) - Square(Share(h, t + h))
  }

  /** The average of x and y under weights w and v. */
  function Mix(w: real, x: real, v: real, y: real): real { w * x + v * y }

  function TwiceProduct(p: real, q: real): real { 2.0 * (p * q) }

  function Weighted(nTL: real, nHL: real, nTR: real, nHR: real): real
    requires nTL + nHL > 0.0 && nTR + nHR > 0.0
  {
    var nL, nR := nTL + nHL, nTR + nHR;
    Mix(Share(nL, nL + nR), Impurity(nTL, nHL), Share(nR, nL + nR), Impurity(nTR, nHR))
  }

  const BAD := -1.0

  /** The scalar form.  The guard tests the tails of the whole segment, not the left side. */
  function Metric(nTL: nat, nHL: nat, nT: nat, nH: nat): real
    requires nTL + nHL > 0 && nTL <= nT && nHL <= nH
  {
    if nT + nH == nTL + nHL || nT == 0 then BAD
    else Weighted(nTL as real, nHL as real, (nT - nTL) as real, (nH - nHL) as real)
  }

  /** The gang form tests the left side, as the formula needs. */
  function MetricGang(nTL: nat, nHL: nat, nT: nat, nH: nat): real
    requires nTL <= nT && nHL <= nH
  {
    if nT + nH == nTL + nHL || nTL + nHL == 0 then BAD
    else Weighted(nTL as real, nHL as real, (nT - nTL) as real, (nH - nHL) as real)
  }

  // ---------------------------------------------------------------------------
  // Arithmetic of shares

  lemma ShareProduct(p: real, q: real)
    requires p + q == 1.0
    ensures 1.0 - Square(p) - Square(q) == TwiceProduct(p, q)
  {
    assert (p + q) * (p + q) == p * p + 2.0 * (p * q) + q * q;
  }

  lemma ShareOfPart(a: real, b: real, n: real)
    requires b > 0.0 && n > 0.0
    ensures Share(b, n) * Share(a, b) == Share(a, n)
  {
    var p, w := a / b, b / n;
    assert a == p * b && b == w * n;
    assert a == (w * p) * n;
    assert (w * p) * n / n == w * p;
  }

  lemma ShareOfSum(a: real, b: real, n: real)
    requires n > 0.0
    ensures Share(a, n) + Share(b, n) == Share(a + b, n)
  {}

  lemma ShareSign(a: real, n: real)
    requires n > 0.0
    ensures a >= 0.0 ==> Share(a, n) >= 0.0
    ensures a > 0.0 ==> Share(a, n) > 0.0
  {
    var p := a / n;
    assert a == p * n;
    if p < 0.0 {
      TimesSign(n, -p);
      assert n * -p == -a;
    }
  }

  lemma WholeShare(n: real)
    requires n > 0.0
    ensures Share(n, n) == 1.0
  {}

  lemma SharesOf(t: real, h: real)
    requires t >= 0.0 && h >= 0.0 && t + h > 0.0
    ensures Share(t, t + h) >= 0.0 && Share(h, t + h) >= 0.0
    ensures t > 0.0 ==> Share(t, t + h) > 0.0
    ensures h > 0.0 ==> Share(h, t + h) > 0.0
    ensures Share(t, t + h) + Share(h, t + h) == 1.0
  {
    hide Share;
    ShareOfSum(t, h, t + h);
    WholeShare(t + h);
    ShareSign(t, t + h);
    ShareSign(h, t + h);
  }

  lemma ImpurityIsProduct(t: real, h: real)
    requires t >= 0.0 && h >= 0.0 && t + h > 0.0
    ensures Impurity(t, h) == TwiceProduct(Share(t, t + h), Share(h, t + h))
  {
    hide Share, Square, TwiceProduct;
    SharesOf(t, h);
    ShareProduct(Share(t, t + h), Share(h, t + h));
  }

  /** The share of the whole is the average of the shares of its two parts. */
  lemma MixOfShares(a: real, nL: real, b: real, nR: real, n: real)
    requires nL > 0.0 && nR > 0.0 && n > 0.0
    ensures Mix(Share(nL, n), Share(a, nL), Share(nR, n), Share(b, nR)) == Share(a + b, n)
  {
    hide Share;
    ShareOfPart(a, nL, n);
    ShareOfPart(b, nR, n);
    ShareOfSum(a, b, n);
  }

  lemma TimesSign(a: real, b: real)
    requires a > 0.0 && b >= 0.0
    ensures a * b >= 0.0 && (a * b == 0.0 <==> b == 0.0)
  {}

  lemma NonNegative(a: real, b: real)
    requires a >= 0.0 && b >= 0.0
    ensures a * b >= 0.0
  {}

  lemma SquareSign(x: real)
    ensures x * x >= 0.0 && (x * x == 0.0 <==> x == 0.0)
  {
    if x > 0.0 {
      TimesSign(x, x);
    } else if x < 0.0 {
      TimesSign(-x, -x);
    }
  }

  /** Mixing two coins of bias p and r never lowers the spread: the gap is w * v * (p - r)^2. */
  lemma Mixing(w: real, v: real, p: real, q: real, r: real, s: real)
    requires w + v == 1.0 && p + q == 1.0 && r + s == 1.0
    ensures (w * p + v * r) * (w * q + v * s) - w * (p * q) - v * (r * s) == (w * v) * ((p - r) * (p - r))
  {
    assert q == 1.0 - p && s == 1.0 - r && v == 1.0 - w;
  }

  lemma MixtureGap(w: real, v: real, p: real, q: real, r: real, s: real)
    requires w > 0.0 && v > 0.0 && p >= 0.0 && q >= 0.0 && r >= 0.0 && s >= 0.0
    requires w + v == 1.0 && p + q == 1.0 && r + s == 1.0
    ensures
      var split := Mix(w, TwiceProduct(p, q), v, TwiceProduct(r, s));
      var whole := TwiceProduct(Mix(w, p, v, r), Mix(w, q, v, s));
      0.0 <= split <= whole && (split == whole <==> p == r)
  {
    Mixing(w, v, p, q, r, s);
    SquareSign(p - r);
    TimesSign(w, v);
    TimesSign(w * v, (p - r) * (p - r));
    NonNegative(p, q);
    NonNegative(r, s);
    TimesSign(w, p * q);
    TimesSign(v, r * s);
  }

  /**
    * Splitting never raises the weighted impurity above the impurity of the
    * unsplit segment, and keeps it exactly when both sides have the same share of
    * tails.  (The builder takes the candidate of greatest metric.)
    */
  lemma NeverAboveParent(nTL: real, nHL: real, nTR: real, nHR: real)
    requires nTL >= 0.0 && nHL >= 0.0 && nTR >= 0.0 && nHR >= 0.0
    requires nTL + nHL > 0.0 && nTR + nHR > 0.0
    ensures 0.0 <= Weighted(nTL, nHL, nTR, nHR) <= Impurity(nTL + nTR, nHL + nHR)
    ensures Weighted(nTL, nHL, nTR, nHR) == Impurity(nTL + nTR, nHL + nHR) <==>
            Share(nTL, nTL + nHL) == Share(nTR, nTR + nHR)
  {
    hide Share, Impurity, Mix, TwiceProduct;
    var nL, nR := nTL + nHL, nTR + nHR;
    var n := nL + nR;
    assert (nTL + nTR) + (nHL + nHR) == n;
    SharesOf(nL, nR);
    SharesOf(nTL, nHL);
    SharesOf(nTR, nHR);
    ImpurityIsProduct(nTL, nHL);
    ImpurityIsProduct(nTR, nHR);
    ImpurityIsProduct(nTL + nTR, nHL + nHR);
    MixOfShares(nTL, nL, nTR, nR, n);
    MixOfShares(nHL, nL, nHR, nR, n);
    MixtureGap(Share(nL, n), Share(nR, n), Share(nTL, nL), Share(nHL, nL), Share(nTR, nR), Share(nHR, nR));
  }

  /** A metric is -1 or an impurity between 0 and that of the segment, never anything else. */
  lemma MetricRange(nTL: nat, nHL: nat, nT: nat, nH: nat)
    requires nTL + nHL > 0 && nTL <= nT && nHL <= nH
    ensures nT + nH == nTL + nHL || nT == 0 ==> Metric(nTL, nHL, nT, nH) == BAD
    ensures nT + nH > nTL + nHL && nT > 0 ==>
              0.0 <= Metric(nTL, nHL, nT, nH) <= Impurity(nT as real, nH as real)
  {
    hide Share, Impurity, Weighted;
    if nT + nH > nTL + nHL && nT > 0 {
      NeverAboveParent(nTL as real, nHL as real, (nT - nTL) as real, (nH - nHL) as real);
    }
  }

  /** The scalar and the gang form differ only on segments without tails. */
  lemma ScalarMeetsGang(nTL: nat, nHL: nat, nT: nat, nH: nat)
    requires nTL + nHL > 0 && nTL <= nT && nHL <= nH
    ensures Metric(nTL, nHL, nT, nH) == MetricGang(nTL, nHL, nT, nH) <==> nT > 0 || nT + nH == nTL + nHL
  {
    hide Share, Impurity, Weighted;
    if nT == 0 && nT + nH > nTL + nHL {
      NeverAboveParent(nTL as real, nHL as real, (nT - nTL) as real, (nH - nHL) as real);
    }
  }
}
