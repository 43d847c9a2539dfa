/**
 * The speciation solver: reads a stream's mass concentrations, converts them
 * to molarities, solves the charge balance for the hydrogen-ion
 * concentration, derives pH and alkalinity, applies the bicarbonate floor
 * for high inorganic carbon, and writes the two results back onto the stream.
 */
module Speciation {
  import opened Wrappers
  import opened Equilibrium
  import opened PhSolver

  /** The component that is read from the stream besides the eight species. */
  const Water := "H2O"
  const TrackedIds: set<string> := SpeciesIds + {Water}

  /** The phase of a liquid stream. */
  const Liquid := "l"

  /** Molar masses of carbon and nitrogen (g/mol), taken from an element table. */
  datatype ElementMasses = ElementMasses(carbon: real, nitrogen: real)
  {
    predicate Valid()
    {
      carbon > 0.0 && nitrogen > 0.0
    }
  }

  /**
   * The molar mass a species is converted with: strong cations and anions are
   * taken as monovalent with unit mass, inorganic nitrogen and carbon as the
   * element, the acids with their approximate molecular weights.
   */
  function MolarMass(id: string, el: ElementMasses): (mw: real)
    requires id in SpeciesIds && el.Valid()
    ensures mw > 0.0
  {
    if id == SCat || id == SAn then 1.0
    else if id == SIN then el.nitrogen
    else if id == SIC then el.carbon
    else if id == SAc then MwAc
    else if id == SPro then MwPro
    else if id == SBu then MwBu
    else MwVa
  }

  /** The divisor that turns a concentration of the species in mg/L into mol/L. */
  function Divisor(id: string, el: ElementMasses): (d: real)
    requires id in SpeciesIds && el.Valid()
    ensures d > 0.0
  {
    MolarMass(id, el) * 1000.0
  }

  /** Every component identifier of the stream has a concentration. */
  ghost predicate Covers(ids: seq<string>, iconc: map<string, real>)
  {
    forall id | id in ids :: id in iconc
  }

  /**
   * The molarity map built from a stream's components (mass concentrations in
   * mg/L, molarities in mol/L): exactly the species among the stream's
   * components, each divided by its divisor.
   */
  function ComponentMolarities(ids: seq<string>, iconc: map<string, real>, el: ElementMasses): (m: Molarities)
    requires Covers(ids, iconc) && el.Valid()
    ensures m.Keys <= SpeciesIds && Water !in m
    ensures forall id | id in SpeciesIds :: id in m <==> id in ids
  {
    map id | id in SpeciesIds && id in ids :: iconc[id] / Divisor(id, el)
  }

  /** The molarity map is empty exactly when the stream has none of the eight species. */
  lemma ComponentMolaritiesEmpty(ids: seq<string>, iconc: map<string, real>, el: ElementMasses)
    requires Covers(ids, iconc) && el.Valid()
    ensures ComponentMolarities(ids, iconc, el) == map[] <==> forall id | id in ids :: id !in SpeciesIds
  {
    var m := ComponentMolarities(ids, iconc, el);
    if m == map[] {
      forall id | id in ids
        ensures id !in SpeciesIds
      {
      }
    } else {
      var id :| id in m;
      assert id in ids && id in SpeciesIds;
    }
  }

  /** Non-negative concentrations give non-negative molarities. */
  lemma ComponentMolaritiesNonNegative(ids: seq<string>, iconc: map<string, real>, el: ElementMasses)
    requires Covers(ids, iconc) && el.Valid()
    requires forall id | id in iconc :: iconc[id] >= 0.0
    ensures NonNegative(ComponentMolarities(ids, iconc, el))
  {
    var m := ComponentMolarities(ids, iconc, el);
    forall id
      ensures Get(m, id) >= 0.0
    {
      if id in m {
        assert m[id] == iconc[id] / Divisor(id, el);
      }
    }
  }

  /**
   * The stream as the speciation sees it: its phase, the identifiers of its
   * components with their mass concentrations, and the two output attributes,
   * None while the stream does not have them.
   */
  class Stream {
    var phase: string
    var ids: seq<string>
    var iconc: map<string, real>
    var pH: Option<PH>
    var sAlk: Option<real>

    ghost predicate Valid()
      reads this
    {
      Covers(ids, iconc)
    }

    constructor (phase: string, ids: seq<string>, iconc: map<string, real>, pH: Option<PH>, sAlk: Option<real>)
      requires Covers(ids, iconc)
      ensures Valid()
      ensures this.phase == phase && this.ids == ids && this.iconc == iconc
      ensures this.pH == pH && this.sAlk == sAlk
    {
      this.phase, this.ids, this.iconc := phase, ids, iconc;
      this.pH, this.sAlk := pH, sAlk;
    }
  }

  /** Reads the mass concentrations of the tracked components present in the stream. */
  method ReadConcentrations(stream: Stream) returns (concentrations: map<string, real>)
    requires stream.Valid()
    ensures forall id :: id in concentrations <==> id in TrackedIds && id in stream.ids
    ensures forall id | id in concentrations :: concentrations[id] == stream.iconc[id]
  {
    concentrations := map[];
    var i := 0;
    while i < |stream.ids|
      invariant 0 <= i <= |stream.ids|
      invariant forall id :: id in concentrations <==> id in TrackedIds && id in stream.ids[..i]
      invariant forall id | id in concentrations :: concentrations[id] == stream.iconc[id]
    {
      var id := stream.ids[i];
      if id in TrackedIds {
        concentrations := concentrations[id := stream.iconc[id]];
      }
      i := i + 1;
    }
    assert stream.ids[..i] == stream.ids;
  }

  /** The divisors by name. */
  lemma DivisorOf(el: ElementMasses)
    requires el.Valid()
    ensures Divisor(SCat, el) == 1000.0 && Divisor(SAn, el) == 1000.0
    ensures Divisor(SIN, el) == el.nitrogen * 1000.0 && Divisor(SIC, el) == el.carbon * 1000.0
    ensures Divisor(SAc, el) == MwAc * 1000.0 && Divisor(SPro, el) == MwPro * 1000.0
    ensures Divisor(SBu, el) == MwBu * 1000.0 && Divisor(SVa, el) == MwVa * 1000.0
  {
    MolarMassOf(el);
  }

  /**
   * The species of done that have a concentration, and only those, are in m,
   * each divided by its divisor.
   */
  ghost predicate ConvertedSoFar(m: Molarities, concentrations: map<string, real>, el: ElementMasses, done: set<string>)
    requires el.Valid() && done <= SpeciesIds
  {
    && (forall id :: id in m <==> id in done && id in concentrations)
    && (forall id | id in m :: m[id] == concentrations[id] / Divisor(id, el))
  }

  /** The molar mass of each species, by name. */
  lemma MolarMassOf(el: ElementMasses)
    requires el.Valid()
    ensures MolarMass(SCat, el) == 1.0 && MolarMass(SAn, el) == 1.0
    ensures MolarMass(SIN, el) == el.nitrogen && MolarMass(SIC, el) == el.carbon
    ensures MolarMass(SAc, el) == MwAc && MolarMass(SPro, el) == MwPro
    ensures MolarMass(SBu, el) == MwBu && MolarMass(SVa, el) == MwVa
  {
    assert SIN != SCat && SIN != SAn;
    assert SIC != SCat && SIC != SAn && SIC != SIN;
    assert SAc != SCat && SAc != SAn && SAc != SIN && SAc != SIC;
    assert SPro != SCat && SPro != SAn && SPro != SIN && SPro != SIC && SPro != SAc;
    assert SBu != SCat && SBu != SAn && SBu != SIN && SBu != SIC && SBu != SAc && SBu != SPro;
    assert SVa != SCat && SVa != SAn && SVa != SIN && SVa != SIC && SVa != SAc && SVa != SPro && SVa != SBu;
  }

  /**
   * One conversion of the chain: when the species' concentration was read,
   * its molarity, the concentration divided by the species' divisor, is
   * added to m.
   */
  function ConvertIfPresent(m: Molarities, concentrations: map<string, real>, el: ElementMasses, id: string): (r: Molarities)
    requires id in SpeciesIds && el.Valid()
    ensures r.Keys == if id in concentrations then m.Keys + {id} else m.Keys
    ensures forall j | j in m && j != id :: r[j] == m[j]
    ensures id in concentrations ==> r[id] * Divisor(id, el) == concentrations[id]
  {
    if id in concentrations then m[id := concentrations[id] / Divisor(id, el)] else m
  }

  lemma ConvertStep(m: Molarities, concentrations: map<string, real>, el: ElementMasses,
                    done: set<string>, id: string)
    requires el.Valid() && done <= SpeciesIds && id in SpeciesIds
    requires ConvertedSoFar(m, concentrations, el, done)
    ensures ConvertedSoFar(ConvertIfPresent(m, concentrations, el, id), concentrations, el, done + {id})
  {
  }

  /** The conversions of the inorganic species, in the order the stream update performs them. */
  function ConvertInorganic(concentrations: map<string, real>, el: ElementMasses): Molarities
    requires el.Valid()
  {
    var m1 := ConvertIfPresent(map[], concentrations, el, SCat);
    var m2 := ConvertIfPresent(m1, concentrations, el, SAn);
    var m3 := ConvertIfPresent(m2, concentrations, el, SIN);
    ConvertIfPresent(m3, concentrations, el, SIC)
  }

  /** The conversions of the four volatile fatty acids, applied after the inorganic ones. */
  function ConvertAcids(m: Molarities, concentrations: map<string, real>, el: ElementMasses): Molarities
    requires el.Valid()
  {
    var m5 := ConvertIfPresent(m, concentrations, el, SAc);
    var m6 := ConvertIfPresent(m5, concentrations, el, SPro);
    var m7 := ConvertIfPresent(m6, concentrations, el, SBu);
    ConvertIfPresent(m7, concentrations, el, SVa)
  }

  /** Two consecutive conversions extend the converted species by both. */
  lemma ConvertTwoSteps(m: Molarities, concentrations: map<string, real>, el: ElementMasses,
                        done: set<string>, id1: string, id2: string)
    requires el.Valid() && done <= SpeciesIds && id1 in SpeciesIds && id2 in SpeciesIds
    requires ConvertedSoFar(m, concentrations, el, done)
    ensures ConvertedSoFar(ConvertIfPresent(ConvertIfPresent(m, concentrations, el, id1), concentrations, el, id2),
                           concentrations, el, done + {id1, id2})
  {
    ConvertStep(m, concentrations, el, done, id1);
    ConvertStep(ConvertIfPresent(m, concentrations, el, id1), concentrations, el, done + {id1}, id2);
    assert done + {id1} + {id2} == done + {id1, id2};
  }

  lemma ConvertInorganicCorrect(concentrations: map<string, real>, el: ElementMasses)
    requires el.Valid()
    ensures ConvertedSoFar(ConvertInorganic(concentrations, el), concentrations, el, {SCat, SAn, SIN, SIC})
  {
    var c := concentrations;
    ConvertTwoSteps(map[], c, el, {}, SCat, SAn);
    var m2 := ConvertIfPresent(ConvertIfPresent(map[], c, el, SCat), c, el, SAn);
    ConvertTwoSteps(m2, c, el, {SCat, SAn}, SIN, SIC);
    assert {SCat, SAn} + {SIN, SIC} == {SCat, SAn, SIN, SIC};
  }

  lemma ConvertAcidsCorrect(m: Molarities, concentrations: map<string, real>, el: ElementMasses)
    requires el.Valid()
    requires ConvertedSoFar(m, concentrations, el, {SCat, SAn, SIN, SIC})
    ensures ConvertedSoFar(ConvertAcids(m, concentrations, el), concentrations, el, SpeciesIds)
  {
    var c := concentrations;
    ConvertTwoSteps(m, c, el, {SCat, SAn, SIN, SIC}, SAc, SPro);
    var m6 := ConvertIfPresent(ConvertIfPresent(m, c, el, SAc), c, el, SPro);
    ConvertTwoSteps(m6, c, el, {SCat, SAn, SIN, SIC} + {SAc, SPro}, SBu, SVa);
    assert {SCat, SAn, SIN, SIC} + {SAc, SPro} + {SBu, SVa} == SpeciesIds;
  }

  /** A map converted for every species from the concentrations read from a stream is its molarity map. */
  lemma ConvertedAll(m: Molarities, concentrations: map<string, real>, ids: seq<string>,
                     iconc: map<string, real>, el: ElementMasses)
    requires Covers(ids, iconc) && el.Valid()
    requires forall id :: id in concentrations <==> id in TrackedIds && id in ids
    requires forall id | id in concentrations :: concentrations[id] == iconc[id]
    requires ConvertedSoFar(m, concentrations, el, SpeciesIds)
    ensures m == ComponentMolarities(ids, iconc, el)
  {
    var expected := ComponentMolarities(ids, iconc, el);
    assert forall id :: id in m <==> id in expected;
    assert forall id | id in m :: m[id] == expected[id];
  }

  /** The eight conversions over the concentrations read from a stream yield its molarity map. */
  lemma ConversionCorrect(concentrations: map<string, real>, ids: seq<string>,
                          iconc: map<string, real>, el: ElementMasses)
    requires Covers(ids, iconc) && el.Valid()
    requires forall id :: id in concentrations <==> id in TrackedIds && id in ids
    requires forall id | id in concentrations :: concentrations[id] == iconc[id]
    ensures ConvertAcids(ConvertInorganic(concentrations, el), concentrations, el) == ComponentMolarities(ids, iconc, el)
  {
    ConvertInorganicCorrect(concentrations, el);
    ConvertAcidsCorrect(ConvertInorganic(concentrations, el), concentrations, el);
    ConvertedAll(ConvertAcids(ConvertInorganic(concentrations, el), concentrations, el), concentrations, ids, iconc, el);
  }

  /**
   * Converts the concentrations of the eight species, where present, to
   * molarities; the water concentration that was read is not converted.
   */
  method GetComponentMolarities(stream: Stream, el: ElementMasses) returns (m: Molarities)
    requires stream.Valid() && el.Valid()
    ensures m == ComponentMolarities(stream.ids, stream.iconc, el)
  {
    var concentrations := ReadConcentrations(stream);

    m := map[];
    m := ConvertIfPresent(m, concentrations, el, SCat);
    m := ConvertIfPresent(m, concentrations, el, SAn);
    m := ConvertIfPresent(m, concentrations, el, SIN);
    m := ConvertIfPresent(m, concentrations, el, SIC);
    ghost var inorganic := m;
    m := ConvertIfPresent(m, concentrations, el, SAc);
    m := ConvertIfPresent(m, concentrations, el, SPro);
    m := ConvertIfPresent(m, concentrations, el, SBu);
    m := ConvertIfPresent(m, concentrations, el, SVa);
    assert inorganic == ConvertInorganic(concentrations, el);
    assert m == ConvertAcids(inorganic, concentrations, el);
    ConversionCorrect(concentrations, stream.ids, stream.iconc, el);
  }

  /**
   * The alkalinity the update reports: the equilibrium alkalinity, raised to
   * the direct bicarbonate estimate (70% of the inorganic carbon) when the
   * inorganic carbon exceeds 0.01 mol/L.
   */
  function ReportedAlkalinity(m: Molarities, pH: PH, ka: Constants): (alk: real)
    requires pH.h > 0.0 && ka.Valid()
    ensures alk >= 0.0
    ensures alk >= CalculateAlkalinity(m, pH, ka)
    ensures Get(m, SIC) > 0.01 ==> alk >= 700.0 * Get(m, SIC)
    ensures Get(m, SIC) <= 0.01 ==> alk == CalculateAlkalinity(m, pH, ka)
    ensures alk == CalculateAlkalinity(m, pH, ka) || alk == 700.0 * Get(m, SIC)
  {
    var alk := CalculateAlkalinity(m, pH, ka);
    if Get(m, SIC) > 0.01 then
      var estimate := Get(m, SIC) * 0.7 * 1000.0;
      if alk >= estimate then alk else estimate
    else
      alk
  }

  /**
   * The two output attributes after an update of a stream with the given
   * phase, components and attributes.
   */
  function UpdatedOutputs(phase: string, ids: seq<string>, iconc: map<string, real>,
                          pH: Option<PH>, sAlk: Option<real>,
                          ka: Constants, el: ElementMasses): (out: (Option<PH>, Option<real>))
    requires Covers(ids, iconc) && ka.Valid() && el.Valid()
    // A stream that is not liquid keeps which attributes it has, at the defaults.
    ensures phase != Liquid ==> out.0.Some? == pH.Some? && out.1.Some? == sAlk.Some?
    ensures phase != Liquid && out.0.Some? ==> out.0.value == Neutral
    ensures phase != Liquid && out.1.Some? ==> out.1.value == 0.0
    // A liquid stream always gets both, with h in the bracket and alkalinity >= 0.
    ensures phase == Liquid ==> out.0.Some? && out.1.Some?
    ensures phase == Liquid ==> Lower <= out.0.value.h <= Upper && out.1.value >= 0.0
    ensures phase == Liquid && ComponentMolarities(ids, iconc, el) == map[] ==>
              out == (Some(Neutral), Some(2.5))
    ensures phase == Liquid && Get(ComponentMolarities(ids, iconc, el), SIC) > 0.01 ==>
              out.1.value >= 700.0 * Get(ComponentMolarities(ids, iconc, el), SIC)
  {
    if phase != Liquid then
      (if pH.Some? then Some(Neutral) else None, if sAlk.Some? then Some(0.0) else None)
    else
      var m := ComponentMolarities(ids, iconc, el);
      if m == map[] then
        (Some(Neutral), Some(2.5))
      else
        var p := NegLog10(SolvedHydrogen(m, ka));
        (Some(p), Some(ReportedAlkalinity(m, p, ka)))
  }

  /**
   * On a liquid stream with any of the eight species, the reported pH is that
   * of the solved hydrogen-ion concentration and the reported alkalinity is
   * computed at that pH.
   */
  lemma UpdatedOutputsSolved(phase: string, ids: seq<string>, iconc: map<string, real>,
                             pH: Option<PH>, sAlk: Option<real>, ka: Constants, el: ElementMasses)
    requires Covers(ids, iconc) && ka.Valid() && el.Valid()
    requires phase == Liquid && exists id | id in ids :: id in SpeciesIds
    ensures var m := ComponentMolarities(ids, iconc, el);
            var out := UpdatedOutputs(phase, ids, iconc, pH, sAlk, ka, el);
            out.0 == Some(NegLog10(SolvedHydrogen(m, ka))) &&
            out.1 == Some(ReportedAlkalinity(m, NegLog10(SolvedHydrogen(m, ka)), ka))
  {
    ComponentMolaritiesEmpty(ids, iconc, el);
  }

  /** Updating once more, with nothing else changed, yields the same two attributes. */
  lemma UpdateIdempotent(phase: string, ids: seq<string>, iconc: map<string, real>,
                         pH: Option<PH>, sAlk: Option<real>, ka: Constants, el: ElementMasses)
    requires Covers(ids, iconc) && ka.Valid() && el.Valid()
    ensures var once := UpdatedOutputs(phase, ids, iconc, pH, sAlk, ka, el);
            UpdatedOutputs(phase, ids, iconc, once.0, once.1, ka, el) == once
  {
  }

  /**
   * Updates the stream's pH and alkalinity in place and returns the same
   * stream. Nothing but the two output attributes changes.
   */
  method UpdatePhAndAlkalinity(stream: Stream, ka: Constants, el: ElementMasses) returns (result: Stream)
    requires stream.Valid() && ka.Valid() && StandardConstants(ka) && el.Valid()
    modifies stream`pH, stream`sAlk
    ensures result == stream
    ensures stream.phase == old(stream.phase) && stream.ids == old(stream.ids) && stream.iconc == old(stream.iconc)
    ensures (stream.pH, stream.sAlk)
         == UpdatedOutputs(stream.phase, stream.ids, stream.iconc, old(stream.pH), old(stream.sAlk), ka, el)
  {
    if stream.phase != Liquid {
      if stream.pH.Some? {
        stream.pH := Some(Neutral);
      }
      if stream.sAlk.Some? {
        stream.sAlk := Some(0.0);
      }
      return stream;
    }

    var m := GetComponentMolarities(stream, el);
    ComponentMolaritiesEmpty(stream.ids, stream.iconc, el);

    if m == map[] {
      stream.pH := Some(Neutral);
      stream.sAlk := Some(2.5);
      return stream;
    }

    var h := SolvePh(m, ka);
    var pH := NegLog10(h);

    var alk := CalculateAlkalinity(m, pH, ka);

    if Get(m, SIC) > 0.01 {
      var directAlkEstimate := Get(m, SIC) * 0.7 * 1000.0;
      alk := if alk >= directAlkEstimate then alk else directAlkEstimate;
    }
    assert alk == ReportedAlkalinity(m, pH, ka);
    UpdatedOutputsSolved(stream.phase, stream.ids, stream.iconc, stream.pH, stream.sAlk, ka, el);

    stream.pH := Some(pH);
    stream.sAlk := Some(alk);
    return stream;
  }

  /** Updating twice in a row leaves the same pH and alkalinity as updating once. */
  method UpdateTwice(stream: Stream, ka: Constants, el: ElementMasses)
    requires stream.Valid() && ka.Valid() && StandardConstants(ka) && el.Valid()
    modifies stream`pH, stream`sAlk
    ensures (stream.pH, stream.sAlk)
         == UpdatedOutputs(stream.phase, stream.ids, stream.iconc, old(stream.pH), old(stream.sAlk), ka, el)
  {
    var s := UpdatePhAndAlkalinity(stream, ka, el);
    var first := (stream.pH, stream.sAlk);
    s := UpdatePhAndAlkalinity(s, ka, el);
    UpdateIdempotent(stream.phase, stream.ids, stream.iconc, old(stream.pH), old(stream.sAlk), ka, el);
    assert (stream.pH, stream.sAlk) == first;
  }
}
