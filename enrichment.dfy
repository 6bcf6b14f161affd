/**
 * `isEnriched`, and the copy-mode `removeIsotope` that supplies a reference
 * reaction when every reaction of a cluster is enriched. Both work on the
 * value view of an object. Element masses (`mass`), the closeness test of
 * `np.isclose`/`np.allclose` (`close`) and resonance regeneration
 * (`regenerate`) are external and enter as parameters.
 */
module Enrichment {
  import opened Outcomes
  import opened Structures

  /** An atom label is enriched when it names an isotope whose mass differs from the default element's. */
  predicate Enriched(e: Element, mass: Element -> real, close: (real, real) -> bool) {
    e.isotope != -1 && !close(mass(e), mass(Default(e.symbol)))
  }

  /** The early-return scan over the atoms of a molecule, from position `k`. */
  function ScanFrom(ls: seq<Element>, k: nat, mass: Element -> real, close: (real, real) -> bool): (r: bool)
    requires k <= |ls|
    ensures r <==> exists j | k <= j < |ls| :: Enriched(ls[j], mass, close)
    decreases |ls| - k
  {
    if k == |ls| then false
    else if Enriched(ls[k], mass, close) then true
    else ScanFrom(ls, k + 1, mass, close)
  }

  /** A species counts as enriched when its first molecule has an enriched atom; the others are not looked at. */
  ghost predicate EnrichedSpecies(sv: SpeciesView, mass: Element -> real, close: (real, real) -> bool) {
    |sv| > 0 && exists k | 0 <= k < |sv[0].labels| :: Enriched(sv[0].labels[k], mass, close)
  }

  /** `isEnriched(species)`: an IndexError when the species has no molecule. */
  function SpeciesIsEnriched(sv: SpeciesView, mass: Element -> real, close: (real, real) -> bool): (r: Result<bool>)
    ensures r.Err? <==> |sv| == 0
    ensures r.Err? ==> r.error == IndexError
    ensures r.Ok? ==> (r.value <==> EnrichedSpecies(sv, mass, close))
  {
    if |sv| == 0 then Err(IndexError) else Ok(ScanFrom(sv[0].labels, 0, mass, close))
  }

  /**
   * The list `enriched` that `isEnriched(reaction)` builds: one verdict per
   * species, every species evaluated, so any species without a molecule raises.
   */
  function VerdictList(svs: seq<SpeciesView>, mass: Element -> real, close: (real, real) -> bool): (r: Result<seq<bool>>)
    ensures r.Err? <==> exists i | 0 <= i < |svs| :: |svs[i]| == 0
    ensures r.Err? ==> r.error == IndexError
    ensures r.Ok? ==> |r.value| == |svs|
    ensures r.Ok? ==> forall i | 0 <= i < |svs| :: (r.value[i] <==> EnrichedSpecies(svs[i], mass, close))
  {
    if svs == [] then Ok([])
    else
      match SpeciesIsEnriched(svs[0], mass, close)
      case Err(e) => Err(e)
      case Ok(b) =>
        match VerdictList(svs[1..], mass, close)
        case Err(e) =>
          assert forall i | 0 <= i < |svs[1..]| :: svs[1..][i] == svs[i + 1];
          Err(e)
        case Ok(bs) =>
          assert forall i | 0 < i < |svs| :: svs[i] == svs[1..][i - 1];
          Ok([b] + bs)
  }

  /**
   * `isEnriched(obj)`: for a species, whether its first molecule carries an
   * enriched atom; for a reaction, whether any reactant or product species does;
   * anything else is a TypeError.
   */
  function IsEnriched(v: ObjView, mass: Element -> real, close: (real, real) -> bool): (r: Result<bool>)
    ensures r.Err? <==>
      v.OtherV? ||
      (v.SpeciesV? && |v.mols| == 0) ||
      (v.ReactionV? && exists i | 0 <= i < |v.reactants + v.products| :: |(v.reactants + v.products)[i]| == 0)
    ensures r.Err? ==> r.error == (if v.OtherV? then TypeError else IndexError)
    ensures r.Ok? && v.SpeciesV? ==> (r.value <==> EnrichedSpecies(v.mols, mass, close))
    ensures r.Ok? && v.ReactionV? ==>
      (r.value <==> exists i | 0 <= i < |v.reactants + v.products| :: EnrichedSpecies((v.reactants + v.products)[i], mass, close))
  {
    match v
    case SpeciesV(ms) => SpeciesIsEnriched(ms, mass, close)
    case ReactionV(rs, ps) =>
      (match VerdictList(rs + ps, mass, close)
       case Err(e) => Err(e)
       case Ok(bs) =>
         assert (true in bs) <==> exists i | 0 <= i < |bs| :: bs[i];
         Ok(true in bs))
    case OtherV => Err(TypeError)
  }

  /** A view with every label at its default carries no enriched atom. */
  lemma {:induction false} StrippedNotEnriched(v: ObjView, mass: Element -> real, close: (real, real) -> bool)
    ensures IsEnriched(StripView(v), mass, close) != Ok(true)
  {
    match v
    case SpeciesV(ms) =>
      StripSpeciesNotEnriched(ms, mass, close);
    case ReactionV(rs, ps) =>
      var all := StripSpeciesViews(rs) + StripSpeciesViews(ps);
      forall i | 0 <= i < |all| ensures !EnrichedSpecies(all[i], mass, close) {
        if i < |rs| {
          StripSpeciesNotEnriched(rs[i], mass, close);
        } else {
          StripSpeciesNotEnriched(ps[i - |rs|], mass, close);
        }
      }
    case OtherV =>
  }

  lemma StripSpeciesNotEnriched(sv: SpeciesView, mass: Element -> real, close: (real, real) -> bool)
    ensures !EnrichedSpecies(StripSpecies(sv), mass, close)
  {
    if |sv| > 0 {
      var ls := StripSpecies(sv)[0].labels;
      assert ls == StripLabels(sv[0].labels);
      forall k | 0 <= k < |ls| ensures !Enriched(ls[k], mass, close) {
        assert ls[k].isotope == -1;
      }
    }
  }

  // ---------------------------------------------------------------- the copy-mode strip

  /**
   * `removeIsotope(species)` without `inplace`: keep only the first molecule with
   * its labels removed, then regenerate the resonance molecules from it.
   */
  function StripCopySpecies(sv: SpeciesView, regenerate: MolView -> SpeciesView): (r: Result<SpeciesView>)
    ensures r.Err? <==> |sv| == 0
    ensures r.Err? ==> r.error == IndexError
    ensures r.Ok? ==> r.value == regenerate(StripMol(sv[0]))
  {
    if |sv| == 0 then Err(IndexError) else Ok(regenerate(StripMol(sv[0])))
  }

  /** The copy-mode strip of every species of a list, in order. */
  function StripCopyList(svs: seq<SpeciesView>, regenerate: MolView -> SpeciesView): (r: Result<seq<SpeciesView>>)
    ensures r.Err? <==> exists i | 0 <= i < |svs| :: |svs[i]| == 0
    ensures r.Err? ==> r.error == IndexError
    ensures r.Ok? ==> |r.value| == |svs|
    ensures r.Ok? ==> forall i | 0 <= i < |svs| :: r.value[i] == regenerate(StripMol(svs[i][0]))
  {
    if svs == [] then Ok([])
    else
      match StripCopySpecies(svs[0], regenerate)
      case Err(e) => Err(e)
      case Ok(c) =>
        match StripCopyList(svs[1..], regenerate)
        case Err(e) =>
          assert forall i | 0 <= i < |svs[1..]| :: svs[1..][i] == svs[i + 1];
          Err(e)
        case Ok(cs) =>
          assert forall i | 0 < i < |svs| :: svs[i] == svs[1..][i - 1];
          Ok([c] + cs)
  }

  /**
   * `removeIsotope(obj)` without `inplace`: a copy of a species or of a reaction
   * whose species are stripped copies; anything else is a TypeError.
   */
  function StripCopy(v: ObjView, regenerate: MolView -> SpeciesView): (r: Result<ObjView>)
    ensures r.Err? <==>
      v.OtherV? ||
      (v.SpeciesV? && |v.mols| == 0) ||
      (v.ReactionV? && ((exists i | 0 <= i < |v.reactants| :: |v.reactants[i]| == 0) ||
                        (exists i | 0 <= i < |v.products| :: |v.products[i]| == 0)))
    ensures r.Err? ==> r.error == (if v.OtherV? then TypeError else IndexError)
    ensures r.Ok? ==> r.value.SpeciesV? == v.SpeciesV? && r.value.ReactionV? == v.ReactionV?
    ensures v.SpeciesV? && |v.mols| > 0 ==> r == Ok(SpeciesV(regenerate(StripMol(v.mols[0]))))
    ensures v.ReactionV? && r.Ok? ==>
      |r.value.reactants| == |v.reactants| && |r.value.products| == |v.products| &&
      (forall i | 0 <= i < |v.reactants| :: r.value.reactants[i] == regenerate(StripMol(v.reactants[i][0]))) &&
      (forall i | 0 <= i < |v.products| :: r.value.products[i] == regenerate(StripMol(v.products[i][0])))
  {
    match v
    case SpeciesV(ms) =>
      (match StripCopySpecies(ms, regenerate)
       case Err(e) => Err(e)
       case Ok(c) => Ok(SpeciesV(c)))
    case ReactionV(rs, ps) =>
      (match StripCopyList(rs, regenerate)
       case Err(e) => Err(e)
       case Ok(crs) =>
         match StripCopyList(ps, regenerate)
         case Err(e) => Err(e)
         case Ok(cps) => Ok(ReactionV(crs, cps)))
    case OtherV => Err(TypeError)
  }

  /** A copied species starts with its stripped first molecule, so it is not enriched. */
  lemma StripCopySpeciesNotEnriched(sv: SpeciesView, regenerate: MolView -> SpeciesView,
                                    mass: Element -> real, close: (real, real) -> bool)
    requires forall m :: |regenerate(m)| > 0 && regenerate(m)[0] == m
    requires |sv| > 0
    ensures |regenerate(StripMol(sv[0]))| > 0 && !EnrichedSpecies(regenerate(StripMol(sv[0])), mass, close)
  {
    StripSpeciesNotEnriched([sv[0]], mass, close);
    assert StripSpecies([sv[0]])[0] == StripMol(sv[0]);
  }

  /**
   * The copy-mode strip fails exactly where `isEnriched` does, and when the
   * resonance molecules regenerated from a molecule start with that molecule, the
   * copy is not enriched.
   */
  lemma StripCopyNotEnriched(v: ObjView, regenerate: MolView -> SpeciesView,
                             mass: Element -> real, close: (real, real) -> bool)
    requires forall m :: |regenerate(m)| > 0 && regenerate(m)[0] == m
    ensures StripCopy(v, regenerate).Ok? <==> IsEnriched(v, mass, close).Ok?
    ensures StripCopy(v, regenerate).Ok? ==> IsEnriched(StripCopy(v, regenerate).value, mass, close) == Ok(false)
  {
    match v
    case SpeciesV(ms) =>
      if |ms| > 0 {
        StripCopySpeciesNotEnriched(ms, regenerate, mass, close);
      }
    case ReactionV(rs, ps) =>
      if forall i | 0 <= i < |rs + ps| :: |(rs + ps)[i]| > 0 {
        StripCopyReaction(rs, ps, regenerate, mass, close);
      } else {
        var i :| 0 <= i < |rs + ps| && |(rs + ps)[i]| == 0;
        if i < |rs| {
          assert |rs[i]| == 0;
        } else {
          assert |ps[i - |rs|]| == 0;
        }
      }
    case OtherV =>
  }

  lemma StripCopyReaction(rs: seq<SpeciesView>, ps: seq<SpeciesView>, regenerate: MolView -> SpeciesView,
                          mass: Element -> real, close: (real, real) -> bool)
    requires forall m :: |regenerate(m)| > 0 && regenerate(m)[0] == m
    requires forall i | 0 <= i < |rs + ps| :: |(rs + ps)[i]| > 0
    ensures StripCopy(ReactionV(rs, ps), regenerate).Ok?
    ensures IsEnriched(StripCopy(ReactionV(rs, ps), regenerate).value, mass, close) == Ok(false)
  {
    assert forall i | 0 <= i < |rs| :: |rs[i]| > 0 by {
      assert forall i | 0 <= i < |rs| :: rs[i] == (rs + ps)[i];
    }
    assert forall i | 0 <= i < |ps| :: |ps[i]| > 0 by {
      assert forall i | 0 <= i < |ps| :: ps[i] == (rs + ps)[|rs| + i];
    }
    StripCopyListNotEnriched(rs, regenerate, mass, close);
    StripCopyListNotEnriched(ps, regenerate, mass, close);
    var crs := StripCopyList(rs, regenerate).value;
    var cps := StripCopyList(ps, regenerate).value;
    assert StripCopy(ReactionV(rs, ps), regenerate).value == ReactionV(crs, cps);
    ReactionNotEnriched(crs, cps, mass, close);
  }

  /** A reaction none of whose species is enriched, all having a molecule, is not enriched. */
  lemma ReactionNotEnriched(rs: seq<SpeciesView>, ps: seq<SpeciesView>, mass: Element -> real, close: (real, real) -> bool)
    requires forall i | 0 <= i < |rs| :: |rs[i]| > 0 && !EnrichedSpecies(rs[i], mass, close)
    requires forall i | 0 <= i < |ps| :: |ps[i]| > 0 && !EnrichedSpecies(ps[i], mass, close)
    ensures IsEnriched(ReactionV(rs, ps), mass, close) == Ok(false)
  {
    var all := rs + ps;
    forall i | 0 <= i < |all| ensures |all[i]| > 0 && !EnrichedSpecies(all[i], mass, close) {
      if i >= |rs| {
        assert all[i] == ps[i - |rs|];
      }
    }
  }

  lemma StripCopyListNotEnriched(svs: seq<SpeciesView>, regenerate: MolView -> SpeciesView,
                                 mass: Element -> real, close: (real, real) -> bool)
    requires forall m :: |regenerate(m)| > 0 && regenerate(m)[0] == m
    requires forall i | 0 <= i < |svs| :: |svs[i]| > 0
    ensures StripCopyList(svs, regenerate).Ok?
    ensures var cs := StripCopyList(svs, regenerate).value;
      forall i | 0 <= i < |cs| :: |cs[i]| > 0 && !EnrichedSpecies(cs[i], mass, close)
  {
    forall i | 0 <= i < |svs| {
      StripCopySpeciesNotEnriched(svs[i], regenerate, mass, close);
    }
  }
}
