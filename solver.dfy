/**
 * Solving the charge balance for the hydrogen-ion concentration on the
 * bracket [1e-14, 1.0]. The bracketing root-finder is modelled by bisection:
 * each step halves the bracket and keeps the half across which the residual
 * changes sign, until the bracket is no wider than the absolute tolerance or
 * the iteration cap is reached.
 */
module PhSolver {
  import opened Equilibrium

  const Lower: real := 1e-14
  const Upper: real := 1.0
  /** The value returned when the residual does not change sign over the bracket (pH 7). */
  const Fallback: real := 1e-7
  const XTol: real := 1e-12
  const MaxIter: nat := 100

  /** The residual changes sign (or vanishes) between two points with these values. */
  predicate Straddles(fa: real, fb: real)
  {
    (fa <= 0.0 && 0.0 <= fb) || (fb <= 0.0 && 0.0 <= fa)
  }

  /** Straddling is the root-finder's own test for a valid bracket, f(a) * f(b) <= 0. */
  lemma StraddlesIffProductNonPositive(fa: real, fb: real)
    ensures Straddles(fa, fb) <==> fa * fb <= 0.0
  {
    if fa > 0.0 && fb > 0.0 {
      assert fa * fb > 0.0;
    } else if fa < 0.0 && fb < 0.0 {
      assert fa * fb == (-fa) * (-fb);
      assert (-fa) * (-fb) > 0.0;
    }
  }

  /** d halved k times. */
  function Halved(d: real, k: nat): real
  {
    if k == 0 then d else Halved(d, k - 1) / 2.0
  }

  lemma {:induction false} HalvedShift(d: real, k: nat)
    ensures Halved(d / 2.0, k) == Halved(d, k + 1)
  {
    if k > 0 {
      HalvedShift(d, k - 1);
    }
  }

  lemma {:induction false} HalvedCompose(d: real, a: nat, b: nat)
    ensures Halved(Halved(d, a), b) == Halved(d, a + b)
  {
    if b > 0 {
      HalvedCompose(d, a, b - 1);
    }
  }

  lemma {:induction false} HalvedMonotone(d: real, e: real, k: nat)
    requires d <= e
    ensures Halved(d, k) <= Halved(e, k)
  {
    if k > 0 {
      HalvedMonotone(d, e, k - 1);
    }
  }

  lemma {:induction false} HalvedNonNegative(d: real, k: nat)
    requires d >= 0.0
    ensures Halved(d, k) >= 0.0
  {
    if k > 0 {
      HalvedNonNegative(d, k - 1);
    }
  }

  lemma {:induction false} HalvedDecreasing(d: real, a: nat, b: nat)
    requires d >= 0.0 && a <= b
    ensures Halved(d, b) <= Halved(d, a)
  {
    if a < b {
      HalvedDecreasing(d, a, b - 1);
      HalvedNonNegative(d, b - 1);
    }
  }

  lemma HalvedTenTimes(d: real)
    ensures Halved(d, 10) == d / 1024.0
  {
    assert Halved(d, 1) == d / 2.0;
    assert Halved(d, 2) == d / 4.0;
    assert Halved(d, 3) == d / 8.0;
    assert Halved(d, 4) == d / 16.0;
    assert Halved(d, 5) == d / 32.0;
    assert Halved(d, 6) == d / 64.0;
    assert Halved(d, 7) == d / 128.0;
    assert Halved(d, 8) == d / 256.0;
    assert Halved(d, 9) == d / 512.0;
  }

  /** Halving a width of at most 1 forty times or more brings it below 1e-12 (2^40 > 10^12). */
  lemma HalvedBelowTolerance(d: real, k: nat)
    requires 0.0 <= d <= 1.0 && k >= 40
    ensures Halved(d, k) <= XTol
  {
    HalvedDecreasing(d, 40, k);
    HalvedMonotone(d, 1.0, 40);
    HalvedTenTimes(1.0);
    HalvedTenTimes(Halved(1.0, 10));
    HalvedCompose(1.0, 10, 10);
    HalvedTenTimes(Halved(1.0, 20));
    HalvedCompose(1.0, 20, 10);
    HalvedTenTimes(Halved(1.0, 30));
    HalvedCompose(1.0, 30, 10);
  }

  /**
   * The residual handed to the root-finder: the charge balance as a function
   * of h (only positive h is ever sampled).
   */
  function Residual(m: Molarities, ka: Constants): real -> real
    requires ka.Valid()
  {
    h => if h > 0.0 then ChargeBalance(h, m, ka) else 0.0
  }

  /** One bisection step: the half of [lo, hi] across which f changes sign, the upper half when f does not change sign over the lower. */
  function Narrow(f: real -> real, lo: real, hi: real): (b: (real, real))
    requires lo < hi
    ensures lo <= b.0 < b.1 <= hi && b.1 - b.0 == (hi - lo) / 2.0
    ensures Straddles(f(lo), f(hi)) ==> Straddles(f(b.0), f(b.1))
  {
    var mid := (lo + hi) / 2.0;
    if Straddles(f(lo), f(mid)) then (lo, mid) else (mid, hi)
  }

  /**
   * The bisection of f from the bracket [lo, hi] after n of the MaxIter
   * steps: each step keeps the half across which f changes sign, and the
   * final bracket is nested in the first.
   */
  function Bisection(f: real -> real, lo: real, hi: real, n: nat): (b: (real, real))
    requires lo < hi && n <= MaxIter
    decreases MaxIter - n
    ensures lo <= b.0 < b.1 <= hi
  {
    if n == MaxIter || hi - lo <= XTol then (lo, hi)
    else
      var b := Narrow(f, lo, hi);
      Bisection(f, b.0, b.1, n + 1)
  }

  /** The bisection keeps a sign change of f inside its bracket. */
  lemma {:induction false} BisectionKeepsSignChange(f: real -> real, lo: real, hi: real, n: nat)
    requires lo < hi && n <= MaxIter && Straddles(f(lo), f(hi))
    decreases MaxIter - n
    ensures var b := Bisection(f, lo, hi, n); Straddles(f(b.0), f(b.1))
  {
    if n < MaxIter && hi - lo > XTol {
      var b := Narrow(f, lo, hi);
      BisectionKeepsSignChange(f, b.0, b.1, n + 1);
    }
  }

  /** The final bracket is within the tolerance, or the bracket was halved at every remaining step. */
  lemma {:induction false} BisectionWidth(f: real -> real, lo: real, hi: real, n: nat)
    requires lo < hi && n <= MaxIter
    decreases MaxIter - n
    ensures var b := Bisection(f, lo, hi, n);
            b.1 - b.0 <= XTol || b.1 - b.0 == Halved(hi - lo, MaxIter - n)
  {
    if n < MaxIter && hi - lo > XTol {
      var b := Narrow(f, lo, hi);
      HalvedShift(hi - lo, MaxIter - (n + 1));
      BisectionWidth(f, b.0, b.1, n + 1);
    }
  }

  /** Starting from the full bracket, the bisection always ends within the tolerance. */
  lemma BisectionConverges(f: real -> real)
    ensures var b := Bisection(f, Lower, Upper, 0); b.1 - b.0 <= XTol
  {
    BisectionWidth(f, Lower, Upper, 0);
    HalvedBelowTolerance(Upper - Lower, MaxIter);
  }

  /** The hydrogen-ion concentration the solver reports. */
  function SolvedHydrogen(m: Molarities, ka: Constants): (h: real)
    requires ka.Valid()
    ensures Lower <= h <= Upper
    ensures !Straddles(ChargeBalance(Lower, m, ka), ChargeBalance(Upper, m, ka)) ==> h == Fallback
  {
    var f := Residual(m, ka);
    if Straddles(f(Lower), f(Upper)) then Bisection(f, Lower, Upper, 0).0 else Fallback
  }

  /**
   * Where the residual is increasing, a bracket across which it changes sign
   * holds every root: below lo it is negative, above hi it is positive.
   */
  lemma BracketHoldsRoot(m: Molarities, ka: Constants, lo: real, hi: real, r: real)
    requires NonNegative(m) && ka.Valid() && 0.0 < lo < hi && r > 0.0
    requires Straddles(ChargeBalance(lo, m, ka), ChargeBalance(hi, m, ka))
    requires ChargeBalance(r, m, ka) == 0.0
    ensures lo <= r <= hi
  {
    ChargeBalanceIncreasing(m, ka, lo, hi);
    if r < lo {
      ChargeBalanceIncreasing(m, ka, r, lo);
    } else if r > hi {
      ChargeBalanceIncreasing(m, ka, hi, r);
    }
  }

  /** For non-negative molarities, a root of the charge balance in the bracket makes the residual change sign over it. */
  lemma RootInBracketStraddles(m: Molarities, ka: Constants, r: real)
    requires NonNegative(m) && ka.Valid() && Lower <= r <= Upper
    requires ChargeBalance(r, m, ka) == 0.0
    ensures Straddles(ChargeBalance(Lower, m, ka), ChargeBalance(Upper, m, ka))
  {
    if Lower < r {
      ChargeBalanceIncreasing(m, ka, Lower, r);
    }
    if r < Upper {
      ChargeBalanceIncreasing(m, ka, r, Upper);
    }
  }

  /** The final bracket of the bisection of the residual, in terms of the charge balance. */
  lemma SolvedBracket(m: Molarities, ka: Constants)
    requires ka.Valid()
    requires Straddles(ChargeBalance(Lower, m, ka), ChargeBalance(Upper, m, ka))
    ensures var b := Bisection(Residual(m, ka), Lower, Upper, 0);
            && SolvedHydrogen(m, ka) == b.0 && b.1 - b.0 <= XTol && 0.0 < b.0
            && Straddles(ChargeBalance(b.0, m, ka), ChargeBalance(b.1, m, ka))
  {
    var f := Residual(m, ka);
    var b := Bisection(f, Lower, Upper, 0);
    BisectionConverges(f);
    BisectionKeepsSignChange(f, Lower, Upper, 0);
    assert f(b.0) == ChargeBalance(b.0, m, ka) && f(b.1) == ChargeBalance(b.1, m, ka);
  }

  /**
   * For non-negative molarities: if the charge balance has a root in the
   * bracket, the solver does not fall back and reports a value within the
   * tolerance of that root; and whenever it does not fall back, it is within
   * the tolerance of every root there is.
   */
  lemma SolvedHydrogenNearRoot(m: Molarities, ka: Constants, r: real)
    requires NonNegative(m) && ka.Valid() && r > 0.0
    requires ChargeBalance(r, m, ka) == 0.0
    ensures Lower <= r <= Upper ==> Straddles(ChargeBalance(Lower, m, ka), ChargeBalance(Upper, m, ka))
    ensures Straddles(ChargeBalance(Lower, m, ka), ChargeBalance(Upper, m, ka)) ==>
              -XTol <= SolvedHydrogen(m, ka) - r <= XTol
  {
    if Lower <= r <= Upper {
      RootInBracketStraddles(m, ka, r);
    }
    if Straddles(ChargeBalance(Lower, m, ka), ChargeBalance(Upper, m, ka)) {
      SolvedBracket(m, ka);
      var b := Bisection(Residual(m, ka), Lower, Upper, 0);
      BracketHoldsRoot(m, ka, b.0, b.1, r);
    }
  }

  /**
   * The tolerance is absolute, so a final bracket within it does not keep the
   * residual small where the root lies near 1e-12 (pH about 12). With
   * 0.01 mol/L of strong cations and nothing else, the root lies in
   * [9e-13, 1e-12], a bracket within the tolerance across which the residual
   * changes sign, yet at its left end the residual is below -1e-3.
   */
  lemma ToleranceAdmitsLargeResidual(ka: Constants, r: real)
    requires ka.Valid() && ka.kw == 1e-14 && r > 0.0
    requires ChargeBalance(r, map[SCat := 0.01], ka) == 0.0
    ensures 9e-13 < r < 1e-12 && 1e-12 - 9e-13 <= XTol
    ensures Straddles(ChargeBalance(9e-13, map[SCat := 0.01], ka), ChargeBalance(1e-12, map[SCat := 0.01], ka))
    ensures ChargeBalance(9e-13, map[SCat := 0.01], ka) < -1e-3
  {
    var m := map[SCat := 0.01];
    assert SIN !in m && SAn !in m && SIC !in m && SAc !in m;
    assert SPro !in m && SBu !in m && SVa !in m;
    assert Dissociated(0.0, ka.kaNh, 9e-13) == 0.0 && Dissociated(0.0, ka.kaNh, 1e-12) == 0.0;
    assert Dissociated(0.0, ka.kaCo2, 9e-13) == 0.0 && Dissociated(0.0, ka.kaCo2, 1e-12) == 0.0;
    assert Dissociated(0.0, ka.kaAc, 9e-13) == 0.0 && Dissociated(0.0, ka.kaAc, 1e-12) == 0.0;
    assert Dissociated(0.0, ka.kaPro, 9e-13) == 0.0 && Dissociated(0.0, ka.kaPro, 1e-12) == 0.0;
    assert Dissociated(0.0, ka.kaBu, 9e-13) == 0.0 && Dissociated(0.0, ka.kaBu, 1e-12) == 0.0;
    assert Dissociated(0.0, ka.kaVa, 9e-13) == 0.0 && Dissociated(0.0, ka.kaVa, 1e-12) == 0.0;
    assert ChargeBalance(9e-13, m, ka) == 0.01 + 9e-13 - 1e-14 / 9e-13;
    assert ChargeBalance(1e-12, m, ka) == 1e-12;
    assert NonNegative(m) by {
      forall id ensures Get(m, id) >= 0.0 {
      }
    }
    BracketHoldsRoot(m, ka, 9e-13, 1e-12, r);
  }

  /**
   * The bracketing root-finder on [Lower, Upper], for a residual that
   * changes sign over the bracket: bisection until the bracket is within the
   * tolerance or the iteration cap is reached.
   */
  method FindRoot(f: real -> real) returns (h: real)
    requires Straddles(f(Lower), f(Upper))
    ensures h == Bisection(f, Lower, Upper, 0).0
  {
    var lo, hi, n := Lower, Upper, 0;
    while n < MaxIter && hi - lo > XTol
      invariant lo < hi && n <= MaxIter
      invariant Bisection(f, lo, hi, n) == Bisection(f, Lower, Upper, 0)
      decreases MaxIter - n
    {
      lo, hi := Narrow(f, lo, hi).0, Narrow(f, lo, hi).1;
      n := n + 1;
    }
    h := lo;
  }

  /**
   * Solves the charge balance for h. When the residual has the same strict
   * sign at both ends of the bracket the root-finder rejects the bracket and
   * the neutral fallback is returned instead.
   */
  method SolvePh(m: Molarities, ka: Constants) returns (h: real)
    requires ka.Valid()
    ensures h == SolvedHydrogen(m, ka)
  {
    var f := Residual(m, ka);
    if !Straddles(f(Lower), f(Upper)) {
      return Fallback;
    }
    h := FindRoot(f);
  }
}
