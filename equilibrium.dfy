/**
 * The equilibrium model of the acid-base speciation core: the charge-balance
 * residual whose root is the hydrogen-ion concentration, and the alkalinity
 * sum evaluated at a given pH. All quantities are exact reals.
 */
module Equilibrium {

  /** Identifiers of the eight species the speciation reads, as the stream names them. */
  const SCat := "S_cat"
  const SAn := "S_an"
  const SIN := "S_IN"
  const SIC := "S_IC"
  const SAc := "S_ac"
  const SPro := "S_pro"
  const SBu := "S_bu"
  const SVa := "S_va"

  const SpeciesIds: set<string> := {SCat, SAn, SIN, SIC, SAc, SPro, SBu, SVa}

  /** Approximate molecular weights of the four volatile fatty acids (g/mol). */
  const MwAc: real := 60.0
  const MwPro: real := 74.0
  const MwBu: real := 88.0
  const MwVa: real := 102.0

  /** A map from species identifier to molarity (mol/L); absent species count as zero. */
  type Molarities = map<string, real>

  function Get(m: Molarities, id: string): real
  {
    if id in m then m[id] else 0.0
  }

  ghost predicate NonNegative(m: Molarities)
  {
    forall id :: Get(m, id) >= 0.0
  }

  /**
   * The dissociation constants, in the order of the source vector:
   * water, ammonium/ammonia, carbonic acid/bicarbonate, acetic, propionic,
   * butyric and valeric acid.
   */
  datatype Constants = Constants(kw: real, kaNh: real, kaCo2: real, kaAc: real, kaPro: real, kaBu: real, kaVa: real)
  {
    predicate Valid()
    {
      kw > 0.0 && kaNh > 0.0 && kaCo2 > 0.0 && kaAc > 0.0 && kaPro > 0.0 && kaBu > 0.0 && kaVa > 0.0
    }

    function AsVector(): (v: seq<real>)
      ensures |v| == |PKaBase|
    {
      [kw, kaNh, kaCo2, kaAc, kaPro, kaBu, kaVa]
    }
  }

  /** The pKa values at 25 degrees C from which the constants are derived, in vector order. */
  const PKaBase: seq<real> := [14.0, 9.25, 6.35, 4.76, 4.88, 4.82, 4.86]

  /** 10 to the power -n, for a natural n. */
  function Pow10Neg(n: nat): (r: real)
    ensures r > 0.0
  {
    if n == 0 then 1.0 else Pow10Neg(n - 1) / 10.0
  }

  /**
   * What can be said of k == 10^(-p) with rationals only: k is exactly 10^(-p)
   * when p is a whole number, and strictly between the neighbouring powers of
   * ten otherwise.
   */
  predicate IsPowerOfPKa(k: real, p: real)
    requires p >= 0.0
  {
    if p == p.Floor as real then k == Pow10Neg(p.Floor)
    else Pow10Neg(p.Floor + 1) < k < Pow10Neg(p.Floor)
  }

  /** The constants the stream update derives from PKaBase. */
  predicate StandardConstants(ka: Constants)
  {
    forall i | 0 <= i < |PKaBase| :: IsPowerOfPKa(ka.AsVector()[i], PKaBase[i])
  }

  /** Constants derived from the pKa table are positive, and Kw is exactly 1e-14. */
  lemma StandardConstantsAreValid(ka: Constants)
    requires StandardConstants(ka)
    ensures ka.Valid()
    ensures ka.kw == 1e-14
  {
    var v := ka.AsVector();
    forall i | 0 <= i < |PKaBase|
      ensures v[i] > 0.0
    {
      assert IsPowerOfPKa(v[i], PKaBase[i]);
    }
    assert v[0] > 0.0 && v[1] > 0.0 && v[2] > 0.0 && v[3] > 0.0;
    assert v[4] > 0.0 && v[5] > 0.0 && v[6] > 0.0;
    assert IsPowerOfPKa(v[0], PKaBase[0]);
    assert Pow10Neg(14) == 1e-14;
  }

  /**
   * The dissociated (basic) part S * Ka / (Ka + h) of a weak pair of total
   * molarity s: a share of a non-negative total, never more than all of it.
   */
  function Dissociated(s: real, k: real, h: real): (d: real)
    requires k > 0.0 && h > 0.0
    ensures s >= 0.0 ==> 0.0 <= d <= s
  {
    assert s >= 0.0 ==> 0.0 <= s * k <= s * (k + h) by {
      assert s * (k + h) - s * k == s * h;
      if s >= 0.0 { assert s * h >= 0.0 && s * k >= 0.0; }
    }
    s * k / (k + h)
  }

  /**
   * The charge-balance residual at hydrogen-ion concentration h: the excess
   * of positive over negative charge, zero exactly at equilibrium.
   */
  function ChargeBalance(h: real, m: Molarities, ka: Constants): (r: real)
    requires h > 0.0 && ka.Valid()
    ensures r == Cations(h, m, ka) - Anions(h, m, ka)
  {
    var sIN := Get(m, SIN);
    UndissociatedPart(sIN, ka.kaNh, h);
    Get(m, SCat) + h + (sIN - Dissociated(sIN, ka.kaNh, h)) - Get(m, SAn)
      - ka.kw / h
      - Dissociated(Get(m, SIC), ka.kaCo2, h)
      - Dissociated(Get(m, SAc), ka.kaAc, h)
      - Dissociated(Get(m, SPro), ka.kaPro, h)
      - Dissociated(Get(m, SBu), ka.kaBu, h)
      - Dissociated(Get(m, SVa), ka.kaVa, h)
  }

  /** Total positive charge: strong cations, hydrogen ions and ammonium. */
  function Cations(h: real, m: Molarities, ka: Constants): real
    requires h > 0.0 && ka.Valid()
  {
    Get(m, SCat) + h + Get(m, SIN) * h / (ka.kaNh + h)
  }

  /** Total negative charge: strong anions, hydroxide and the five weak-acid anions. */
  function Anions(h: real, m: Molarities, ka: Constants): real
    requires h > 0.0 && ka.Valid()
  {
    Get(m, SAn) + ka.kw / h + Dissociated(Get(m, SIC), ka.kaCo2, h)
      + Dissociated(Get(m, SAc), ka.kaAc, h) + Dissociated(Get(m, SPro), ka.kaPro, h)
      + Dissociated(Get(m, SBu), ka.kaBu, h) + Dissociated(Get(m, SVa), ka.kaVa, h)
  }

  /** The undissociated part of a weak base is the total less the dissociated part. */
  lemma UndissociatedPart(s: real, k: real, h: real)
    requires k > 0.0 && h > 0.0
    ensures s - Dissociated(s, k, h) == s * h / (k + h)
  {
    calc {
      s - Dissociated(s, k, h);
      s * (k + h) / (k + h) - s * k / (k + h);
      (s * (k + h) - s * k) / (k + h);
      s * h / (k + h);
    }
  }

  /** With no species at all, only water's self-ionisation is left. */
  lemma ChargeBalanceOfPureWater(h: real, ka: Constants)
    requires h > 0.0 && ka.Valid()
    ensures ChargeBalance(h, map[], ka) == h - ka.kw / h
  {
  }

  /** A larger h leaves a smaller dissociated part of a non-negative total. */
  lemma DissociatedAntitone(s: real, k: real, h1: real, h2: real)
    requires s >= 0.0 && k > 0.0 && 0.0 < h1 <= h2
    ensures Dissociated(s, k, h2) <= Dissociated(s, k, h1)
  {
    var a, b := k + h1, k + h2;
    assert s * k >= 0.0;
    assert s * k / a - s * k / b == s * k * (b - a) / (a * b);
  }

  /** Kw / h strictly decreases in h. */
  lemma HydroxideDecreasing(kw: real, h1: real, h2: real)
    requires kw > 0.0 && 0.0 < h1 < h2
    ensures kw / h2 < kw / h1
  {
    assert kw / h1 - kw / h2 == kw * (h2 - h1) / (h1 * h2);
    assert kw * (h2 - h1) > 0.0;
  }

  /**
   * For non-negative molarities the residual is strictly increasing in h
   * (every term either grows with h or is subtracted and shrinks with h).
   */
  lemma ChargeBalanceIncreasing(m: Molarities, ka: Constants, h1: real, h2: real)
    requires NonNegative(m) && ka.Valid() && 0.0 < h1 < h2
    ensures ChargeBalance(h1, m, ka) < ChargeBalance(h2, m, ka)
  {
    assert Get(m, SIN) >= 0.0 && Get(m, SIC) >= 0.0 && Get(m, SAc) >= 0.0;
    assert Get(m, SPro) >= 0.0 && Get(m, SBu) >= 0.0 && Get(m, SVa) >= 0.0;
    DissociatedAntitone(Get(m, SIN), ka.kaNh, h1, h2);
    DissociatedAntitone(Get(m, SIC), ka.kaCo2, h1, h2);
    DissociatedAntitone(Get(m, SAc), ka.kaAc, h1, h2);
    DissociatedAntitone(Get(m, SPro), ka.kaPro, h1, h2);
    DissociatedAntitone(Get(m, SBu), ka.kaBu, h1, h2);
    DissociatedAntitone(Get(m, SVa), ka.kaVa, h1, h2);
    HydroxideDecreasing(ka.kw, h1, h2);
  }

  /** Hence the charge balance has at most one root. */
  lemma ChargeBalanceRootUnique(m: Molarities, ka: Constants, r1: real, r2: real)
    requires NonNegative(m) && ka.Valid() && r1 > 0.0 && r2 > 0.0
    requires ChargeBalance(r1, m, ka) == 0.0 && ChargeBalance(r2, m, ka) == 0.0
    ensures r1 == r2
  {
    if r1 < r2 {
      ChargeBalanceIncreasing(m, ka, r1, r2);
    } else if r2 < r1 {
      ChargeBalanceIncreasing(m, ka, r2, r1);
    }
  }

  /** A species left out of the map behaves exactly like one present with molarity zero. */
  lemma MissingSpeciesCountAsZero(m: Molarities, id: string, h: real, ka: Constants)
    requires id !in m && h > 0.0 && ka.Valid()
    ensures ChargeBalance(h, m[id := 0.0], ka) == ChargeBalance(h, m, ka)
    ensures AlkalinitySum(h, m[id := 0.0], ka) == AlkalinitySum(h, m, ka)
  {
    assert forall j :: Get(m[id := 0.0], j) == Get(m, j);
  }

  /**
   * A pH value, represented by the hydrogen-ion concentration h whose
   * negative decimal logarithm it is: NegLog10(h) stands for -log10 h.
   */
  datatype PH = NegLog10(h: real)

  /** pH 7.0, the neutral default: -log10(1e-7). */
  const Neutral: PH := NegLog10(1e-7)

  /**
   * The raw alkalinity sum in mol/L at hydrogen-ion concentration h. It and
   * the residual add up to a quantity that does not depend on h: every
   * h-dependent term of one cancels a term of the other.
   */
  function AlkalinitySum(h: real, m: Molarities, ka: Constants): (a: real)
    requires h > 0.0 && ka.Valid()
    ensures a + ChargeBalance(h, m, ka) == 2.0 * (Get(m, SCat) - Get(m, SAn)) + Get(m, SIN)
  {
    Dissociated(Get(m, SIC), ka.kaCo2, h) + ka.kw / h - h
      + Dissociated(Get(m, SIN), ka.kaNh, h)
      + Dissociated(Get(m, SAc), ka.kaAc, h)
      + Dissociated(Get(m, SPro), ka.kaPro, h)
      + Dissociated(Get(m, SBu), ka.kaBu, h)
      + Dissociated(Get(m, SVa), ka.kaVa, h)
      + Get(m, SCat) - Get(m, SAn)
  }

  /**
   * Alkalinity in meq/L at the given pH: the raw sum scaled by 1000 and
   * clamped at zero. The hydrogen-ion concentration 10^(-pH) is pH.h.
   */
  function CalculateAlkalinity(m: Molarities, pH: PH, ka: Constants): (alk: real)
    requires pH.h > 0.0 && ka.Valid()
    ensures alk >= 0.0
    ensures alk >= 1000.0 * AlkalinitySum(pH.h, m, ka)
    ensures alk == 0.0 || alk == 1000.0 * AlkalinitySum(pH.h, m, ka)
  {
    var alkMolar := AlkalinitySum(pH.h, m, ka);
    if 0.0 >= alkMolar * 1000.0 then 0.0 else alkMolar * 1000.0
  }

  /**
   * So at a root of the charge balance the alkalinity is fixed by the strong
   * ions and the inorganic nitrogen alone: the strong-ion difference is
   * counted twice, once through the charge balance and once directly.
   */
  lemma AlkalinityAtRoot(m: Molarities, pH: PH, ka: Constants)
    requires pH.h > 0.0 && ka.Valid()
    requires ChargeBalance(pH.h, m, ka) == 0.0
    ensures var q := 1000.0 * (2.0 * (Get(m, SCat) - Get(m, SAn)) + Get(m, SIN));
            CalculateAlkalinity(m, pH, ka) == if q > 0.0 then q else 0.0
  {
  }
}
