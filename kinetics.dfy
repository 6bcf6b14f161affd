/**
 * Reaction symmetry numbers and the rescaling of A-factors within a cluster of
 * isotopomer reactions (`__getReactionSymmetryNumber`,
 * `correctAFactorsOfIsotopomers`). Species symmetry numbers (`sigma`) are
 * external and positive; floats are modelled as `real`.
 */
module Kinetics {
  import opened Outcomes
  import opened Structures
  import opened Enrichment

  type PosReal = r: real | r > 0.0 witness 1.0

  // ---------------------------------------------------------------- symmetry numbers

  /** The product of the symmetry numbers of a list of species, multiplied in list order. */
  function Product(sigma: SpeciesView -> PosReal, svs: seq<SpeciesView>): PosReal
    decreases |svs|
  {
    if svs == [] then 1.0
    else
      var p := Product(sigma, svs[..|svs| - 1]);
      var q := sigma(svs[|svs| - 1]);
      assert p * q > 0.0;
      p * q
  }

  /** The product of a concatenation is the product of the products. */
  lemma {:induction false} ProductAppend(sigma: SpeciesView -> PosReal, a: seq<SpeciesView>, b: seq<SpeciesView>)
    ensures Product(sigma, a + b) == Product(sigma, a) * Product(sigma, b)
    decreases |b|
  {
    if b == [] {
      assert a + b == a;
    } else {
      var n := |b|;
      assert (a + b)[..|a + b| - 1] == a + b[..n - 1];
      assert (a + b)[|a + b| - 1] == b[n - 1];
      ProductAppend(sigma, a, b[..n - 1]);
    }
  }

  /** The reaction symmetry number: reactant symmetry over product symmetry. */
  function Symmetry(sigma: SpeciesView -> PosReal, v: ObjView): PosReal
    requires v.ReactionV?
  {
    var r := Product(sigma, v.reactants) / Product(sigma, v.products);
    assert r > 0.0;
    r
  }

  /** `__getReactionSymmetryNumber`: the two accumulating loops, then the quotient. */
  method ReactionSymmetryNumber(v: ObjView, sigma: SpeciesView -> PosReal) returns (sym: PosReal)
    requires v.ReactionV?
    ensures sym == Symmetry(sigma, v)
  {
    var rs, ps := v.reactants, v.products;
    var reactantSym: PosReal := 1.0;
    for i := 0 to |rs|
      invariant reactantSym == Product(sigma, rs[..i])
    {
      assert rs[..i + 1][..i] == rs[..i];
      reactantSym := reactantSym * sigma(rs[i]);
    }
    assert rs[..|rs|] == rs;
    var productSym: PosReal := 1.0;
    for i := 0 to |ps|
      invariant productSym == Product(sigma, ps[..i])
    {
      assert ps[..i + 1][..i] == ps[..i];
      productSym := productSym * sigma(ps[i]);
    }
    assert ps[..|ps|] == ps;
    sym := reactantSym / productSym;
  }

  // ---------------------------------------------------------------- rescaling

  /**
   * The A-factor a reaction of symmetry `sym` ends with, when the reference has
   * symmetry `refSym` and A-factor `refA`: rewritten to `refA` times the symmetry
   * ratio unless that ratio is close to 1. The A-factor ratio the source compares
   * against is always exactly 1, since both its terms are the reference's A-factor.
   */
  function Rescaled(sym: PosReal, refSym: PosReal, refA: real, a: real, close: (real, real) -> bool): real {
    var ratio := sym / refSym;
    if !close(ratio, 1.0) then refA * ratio else a
  }

  /** The reference itself keeps its A-factor, whatever the closeness test says. */
  lemma RescaledKeepsReference(refSym: PosReal, refA: real, close: (real, real) -> bool)
    ensures Rescaled(refSym, refSym, refA, refA, close) == refA
  {
    assert refSym / refSym == 1.0;
  }

  /** Rescaling an already rescaled A-factor changes nothing. */
  lemma RescaledIdempotent(sym: PosReal, refSym: PosReal, refA: real, a: real, close: (real, real) -> bool)
    ensures Rescaled(sym, refSym, refA, Rescaled(sym, refSym, refA, a, close), close) == Rescaled(sym, refSym, refA, a, close)
  {
  }

  /**
   * Two rewritten reactions end with A-factors in the ratio of their symmetry
   * numbers, which is the thermodynamic consistency the rescaling is for.
   */
  lemma RescaledConsistent(sym1: PosReal, sym2: PosReal, refSym: PosReal, refA: real, a1: real, a2: real,
                           close: (real, real) -> bool)
    requires refA != 0.0
    requires !close(sym1 / refSym, 1.0) && !close(sym2 / refSym, 1.0)
    ensures Rescaled(sym2, refSym, refA, a2, close) != 0.0
    ensures Rescaled(sym1, refSym, refA, a1, close) / Rescaled(sym2, refSym, refA, a2, close) == sym1 / sym2
  {
    var r1, r2 := sym1 / refSym, sym2 / refSym;
    assert r1 / r2 == sym1 / sym2;
    assert (refA * r1) / (refA * r2) == r1 / r2;
  }

  /**
   * The decision ignores the reaction's own A-factor: with a symmetry ratio close
   * to 1 any A-factor is kept, however far it is from the reference's, and otherwise
   * every A-factor is overwritten by the same value.
   */
  lemma DecisionIgnoresOwnA(sym: PosReal, refSym: PosReal, refA: real, a1: real, a2: real, close: (real, real) -> bool)
    ensures close(sym / refSym, 1.0) ==>
      Rescaled(sym, refSym, refA, a1, close) == a1 && Rescaled(sym, refSym, refA, a2, close) == a2
    ensures !close(sym / refSym, 1.0) ==>
      Rescaled(sym, refSym, refA, a1, close) == Rescaled(sym, refSym, refA, a2, close)
  {
  }

  // ---------------------------------------------------------------- the reference reaction

  /**
   * The early-exit search for `unlabeledRxn` from position `k`: the first reaction
   * `isEnriched` calls unenriched, `None` when every one is enriched, or the error
   * of the first test that raises before that.
   */
  function FirstUnenriched(vs: seq<ObjView>, k: nat, mass: Element -> real, close: (real, real) -> bool): (r: Result<Option<nat>>)
    requires k <= |vs|
    ensures r.Ok? && r.value.Some? ==>
      k <= r.value.value < |vs| && IsEnriched(vs[r.value.value], mass, close) == Ok(false) &&
      forall j | k <= j < r.value.value :: IsEnriched(vs[j], mass, close) == Ok(true)
    ensures r == Ok(None) ==> forall j | k <= j < |vs| :: IsEnriched(vs[j], mass, close) == Ok(true)
    ensures r.Err? ==> exists j | k <= j < |vs| ::
      IsEnriched(vs[j], mass, close) == Err(r.error) &&
      forall l | k <= l < j :: IsEnriched(vs[l], mass, close) == Ok(true)
    decreases |vs| - k
  {
    if k == |vs| then Ok(None)
    else
      match IsEnriched(vs[k], mass, close)
      case Err(e) => Err(e)
      case Ok(enriched) => if !enriched then Ok(Some(k)) else FirstUnenriched(vs, k + 1, mass, close)
  }

  /**
   * The reference reaction's view and A-factor: the first unenriched reaction, or
   * else a stripped copy of the first reaction, which keeps that reaction's A-factor;
   * an empty list is an IndexError.
   */
  function Reference(vs: seq<ObjView>, fs: seq<real>, mass: Element -> real, close: (real, real) -> bool,
                     regenerate: MolView -> SpeciesView): (r: Result<(ObjView, real)>)
    requires |fs| == |vs|
    requires forall i | 0 <= i < |vs| :: vs[i].ReactionV?
    ensures r.Ok? ==> r.value.0.ReactionV?
  {
    match FirstUnenriched(vs, 0, mass, close)
    case Err(e) => Err(e)
    case Ok(found) =>
      if found.Some? then Ok((vs[found.value], fs[found.value]))
      else if |vs| == 0 then Err(IndexError)
      else
        match StripCopy(vs[0], regenerate)
        case Err(e) => Err(e)
        case Ok(c) => Ok((c, fs[0]))
  }

  /**
   * When every reaction is enriched and resonance regeneration starts from the
   * molecule it is given, the reference is unenriched all the same.
   */
  lemma ReferenceUnenriched(vs: seq<ObjView>, fs: seq<real>, mass: Element -> real, close: (real, real) -> bool,
                            regenerate: MolView -> SpeciesView)
    requires |fs| == |vs|
    requires forall i | 0 <= i < |vs| :: vs[i].ReactionV?
    requires forall m :: |regenerate(m)| > 0 && regenerate(m)[0] == m
    ensures Reference(vs, fs, mass, close, regenerate).Ok? ==>
      IsEnriched(Reference(vs, fs, mass, close, regenerate).value.0, mass, close) == Ok(false)
    ensures |vs| > 0 && FirstUnenriched(vs, 0, mass, close).Ok? ==> Reference(vs, fs, mass, close, regenerate).Ok?
  {
    if |vs| > 0 {
      StripCopyNotEnriched(vs[0], regenerate, mass, close);
    }
  }

  /** The A-factors `correctAFactorsOfIsotopomers` leaves, or the error it raises. */
  function Corrected(vs: seq<ObjView>, fs: seq<real>, sigma: SpeciesView -> PosReal, mass: Element -> real,
                     close: (real, real) -> bool, regenerate: MolView -> SpeciesView): (r: Result<seq<real>>)
    requires |fs| == |vs|
    requires forall i | 0 <= i < |vs| :: vs[i].ReactionV?
    ensures r.Ok? ==> |r.value| == |vs|
  {
    match Reference(vs, fs, mass, close, regenerate)
    case Err(e) => Err(e)
    case Ok(ref) =>
      if ref.1 == 0.0 then Err(ZeroDivisionError)
      else Ok(Targets(vs, fs, sigma, Symmetry(sigma, ref.0), ref.1, close))
  }

  /** Every reaction's A-factor after rescaling against a reference of symmetry `refSym` and A-factor `refA`. */
  function Targets(vs: seq<ObjView>, fs: seq<real>, sigma: SpeciesView -> PosReal, refSym: PosReal, refA: real,
                   close: (real, real) -> bool): (t: seq<real>)
    requires |fs| == |vs|
    requires forall i | 0 <= i < |vs| :: vs[i].ReactionV?
    ensures |t| == |vs|
    ensures forall i | 0 <= i < |vs| :: t[i] == Rescaled(Symmetry(sigma, vs[i]), refSym, refA, fs[i], close)
  {
    seq(|vs|, i requires 0 <= i < |vs| => Rescaled(Symmetry(sigma, vs[i]), refSym, refA, fs[i], close))
  }

  /**
   * The reference's A-factor survives the correction, and every rewritten
   * reaction's A-factor stands to the reference's as its symmetry number stands to
   * the reference's.
   */
  lemma CorrectedAgainstReference(vs: seq<ObjView>, fs: seq<real>, sigma: SpeciesView -> PosReal, mass: Element -> real,
                                  close: (real, real) -> bool, regenerate: MolView -> SpeciesView, i: nat)
    requires |fs| == |vs| && i < |vs|
    requires forall j | 0 <= j < |vs| :: vs[j].ReactionV?
    requires Corrected(vs, fs, sigma, mass, close, regenerate).Ok?
    ensures var ref := Reference(vs, fs, mass, close, regenerate).value;
      var out := Corrected(vs, fs, sigma, mass, close, regenerate).value;
      (vs[i] == ref.0 && fs[i] == ref.1 ==> out[i] == fs[i]) &&
      (out[i] == fs[i] || out[i] / ref.1 == Symmetry(sigma, vs[i]) / Symmetry(sigma, ref.0))
  {
    var ref := Reference(vs, fs, mass, close, regenerate).value;
    var out := Corrected(vs, fs, sigma, mass, close, regenerate).value;
    var s, rs := Symmetry(sigma, vs[i]), Symmetry(sigma, ref.0);
    assert out[i] == Rescaled(s, rs, ref.1, fs[i], close);
    RescaledAgainstReference(s, rs, ref.1, fs[i], close);
    if vs[i] == ref.0 && fs[i] == ref.1 {
      RescaledKeepsReference(rs, ref.1, close);
    }
  }

  lemma RescaledAgainstReference(sym: PosReal, refSym: PosReal, refA: real, a: real, close: (real, real) -> bool)
    requires refA != 0.0
    ensures var out := Rescaled(sym, refSym, refA, a, close); out == a || out / refA == sym / refSym
  {
    var ratio := sym / refSym;
    assert (refA * ratio) / refA == ratio;
  }

  // ---------------------------------------------------------------- the heap

  function RxnView(r: Reaction): (v: ObjView)
    reads ReactionAtoms(r)
    ensures v.ReactionV?
  {
    ViewOf(ReactionObj(r))
  }

  function RxnListAtoms(rxns: seq<Reaction>): set<Atom> {
    set r, a | r in rxns && a in ReactionAtoms(r) :: a
  }

  /** The views of a list of reactions in the current heap. */
  function Views(rxns: seq<Reaction>): (vs: seq<ObjView>)
    reads RxnListAtoms(rxns)
    ensures |vs| == |rxns|
    ensures forall i | 0 <= i < |rxns| :: vs[i] == RxnView(rxns[i])
  {
    seq(|rxns|, i requires 0 <= i < |rxns| reads RxnListAtoms(rxns) => RxnView(rxns[i]))
  }

  /** The A-factors of a list of reactions in the current heap. */
  function Factors(rxns: seq<Reaction>): (fs: seq<real>)
    reads rxns
    ensures |fs| == |rxns|
    ensures forall i | 0 <= i < |rxns| :: fs[i] == rxns[i].a
  {
    seq(|rxns|, i requires 0 <= i < |rxns| reads rxns => rxns[i].a)
  }

  // ---------------------------------------------------------------- the loops over the heap

  /** The search for `unlabeledRxn`: stop at the first reaction that is not enriched. */
  method FindUnlabeled(rxnList: seq<Reaction>, mass: Element -> real, close: (real, real) -> bool,
                       ghost vs: seq<ObjView>, ghost fs: seq<real>)
    returns (found: Result<Option<nat>>)
    requires vs == Views(rxnList) && fs == Factors(rxnList)
    ensures found == FirstUnenriched(vs, 0, mass, close)
    ensures Views(rxnList) == vs && Factors(rxnList) == fs
  {
    var i := 0;
    while i < |rxnList|
      invariant 0 <= i <= |rxnList|
      invariant FirstUnenriched(vs, 0, mass, close) == FirstUnenriched(vs, i, mass, close)
    {
      var enriched := IsEnriched(RxnView(rxnList[i]), mass, close);
      if enriched.Err? {
        return Err(enriched.error);
      }
      if !enriched.value {
        return Ok(Some(i));
      }
      i := i + 1;
    }
    return Ok(None);
  }

  /** The A-factor of the reference: a member of the list, or the stripped copy's own. */
  function RefA(rxnList: seq<Reaction>, refIndex: Option<nat>, copyA: real): real
    requires refIndex.Some? ==> refIndex.value < |rxnList|
    reads rxnList
  {
    if refIndex.Some? then rxnList[refIndex.value].a else copyA
  }

  /** The reactions up to `i` carry their targets, the others their A-factors from before. */
  ghost predicate RescaledUpTo(rxnList: seq<Reaction>, i: nat, tgt: seq<real>, fs: seq<real>)
    requires i <= |rxnList| && |tgt| == |fs| == |rxnList|
    reads rxnList
  {
    forall j | 0 <= j < |rxnList| :: rxnList[j].a == if rxnList[j] in rxnList[..i] then tgt[j] else fs[j]
  }

  /** Entries for the same reaction object agree. */
  ghost predicate Coherent<T>(rxnList: seq<Reaction>, xs: seq<T>)
    requires |xs| == |rxnList|
  {
    forall j, k | 0 <= j < |rxnList| && 0 <= k < |rxnList| && rxnList[j] == rxnList[k] :: xs[j] == xs[k]
  }

  /** A snapshot that agrees with a reaction's atoms gives that reaction's view. */
  lemma RxnViewFromSnap(rxn: Reaction, s: map<Atom, Element>)
    requires forall a | a in ReactionAtoms(rxn) :: a in s && a.element == s[a]
    ensures RxnView(rxn) == ViewWith(ReactionObj(rxn), s)
  {
    ViewWithAgree(ReactionObj(rxn), Snap(ReactionAtoms(rxn)), s);
  }

  lemma RxnAtomsInList(rxns: seq<Reaction>, i: nat)
    requires i < |rxns|
    ensures ReactionAtoms(rxns[i]) <= RxnListAtoms(rxns)
  {
  }

  /** The views of a list of reactions under the labels `s` records. */
  function ViewsWith(rxnList: seq<Reaction>, s: map<Atom, Element>): (vs: seq<ObjView>)
    ensures |vs| == |rxnList|
    ensures forall j | 0 <= j < |rxnList| :: vs[j] == ViewWith(ReactionObj(rxnList[j]), s)
  {
    seq(|rxnList|, j requires 0 <= j < |rxnList| => ViewWith(ReactionObj(rxnList[j]), s))
  }

  /** A snapshot that agrees with the atoms of a list of reactions gives their views. */
  lemma ViewsFromSnap(rxnList: seq<Reaction>, s: map<Atom, Element>)
    requires forall a | a in RxnListAtoms(rxnList) :: a in s && a.element == s[a]
    ensures Views(rxnList) == ViewsWith(rxnList, s)
  {
    forall j | 0 <= j < |rxnList| ensures Views(rxnList)[j] == ViewsWith(rxnList, s)[j] {
      RxnAtomsInList(rxnList, j);
      RxnViewFromSnap(rxnList[j], s);
    }
  }

  /**
   * One turn of the rescaling loop: `AFactor` and the new A-factor are read from
   * the reference as it is now. `s` records the labels of the reaction's atoms.
   */
  method RescaleOne(rxn: Reaction, rxnList: seq<Reaction>, refIndex: Option<nat>, copyA: real,
                    unlabeledSymmetry: PosReal, unlabeledA: real, sigma: SpeciesView -> PosReal, close: (real, real) -> bool,
                    ghost s: map<Atom, Element>)
    requires refIndex.Some? ==> refIndex.value < |rxnList|
    requires RefA(rxnList, refIndex, copyA) == unlabeledA && unlabeledA != 0.0
    requires forall a | a in ReactionAtoms(rxn) :: a in s && a.element == s[a]
    modifies rxn
    ensures rxn.a == Rescaled(Symmetry(sigma, ViewWith(ReactionObj(rxn), s)), unlabeledSymmetry, unlabeledA, old(rxn.a), close)
  {
    RxnViewFromSnap(rxn, s);
    ghost var a0 := rxn.a;
    var symmetry := ReactionSymmetryNumber(RxnView(rxn), sigma);
    var aFactor := RefA(rxnList, refIndex, copyA);
    var symmetryRatio := symmetry / unlabeledSymmetry;
    var aFactorRatio := aFactor / unlabeledA;
    assert aFactorRatio == 1.0;
    ghost var want := Rescaled(symmetry, unlabeledSymmetry, unlabeledA, a0, close);
    if !close(symmetryRatio, aFactorRatio) {
      var multiplier := symmetry / unlabeledSymmetry;
      rxn.a := RefA(rxnList, refIndex, copyA) * multiplier;
      assert rxn.a == want;
    } else {
      assert rxn.a == want;
    }
  }

  /**
   * The rescaling loop. `AFactor` and the new A-factor are read from the reference
   * as the loop goes; the reference's own A-factor never changes, since its
   * symmetry ratio is exactly 1.
   */
  method Rescale(rxnList: seq<Reaction>, refIndex: Option<nat>, copyA: real, refView: ObjView,
                 sigma: SpeciesView -> PosReal, close: (real, real) -> bool, ghost vs: seq<ObjView>, ghost fs: seq<real>)
    returns (r: Result<()>)
    requires refView.ReactionV?
    requires vs == Views(rxnList) && fs == Factors(rxnList)
    requires refIndex.Some? ==> refIndex.value < |rxnList| && vs[refIndex.value] == refView
    modifies set rxn | rxn in rxnList
    ensures r.Err? <==> |rxnList| > 0 && RefA(rxnList, refIndex, copyA) == 0.0
    ensures r.Err? ==> r.error == ZeroDivisionError && forall j | 0 <= j < |rxnList| :: rxnList[j].a == fs[j]
    ensures r.Ok? ==> forall j | 0 <= j < |rxnList| ::
      rxnList[j].a == Targets(vs, fs, sigma, Symmetry(sigma, refView), old(RefA(rxnList, refIndex, copyA)), close)[j]
  {
    ghost var s := Snap(RxnListAtoms(rxnList));
    ViewsFromSnap(rxnList, s);
    var unlabeledSymmetry := ReactionSymmetryNumber(refView, sigma);
    var unlabeledA := RefA(rxnList, refIndex, copyA);
    ghost var tgt := Targets(vs, fs, sigma, unlabeledSymmetry, unlabeledA, close);
    assert Coherent(rxnList, vs) && Coherent(rxnList, fs);
    assert Coherent(rxnList, tgt);
    if refIndex.Some? {
      RescaledKeepsReference(unlabeledSymmetry, unlabeledA, close);
      assert tgt[refIndex.value] == unlabeledA;
    }
    r := RescaleLoop(rxnList, refIndex, copyA, unlabeledSymmetry, unlabeledA, sigma, close, vs, fs, tgt, s);
  }

  /** The loop of `Rescale`, against the targets `tgt` worked out from the views `vs` and A-factors `fs` on entry. */
  method RescaleLoop(rxnList: seq<Reaction>, refIndex: Option<nat>, copyA: real, unlabeledSymmetry: PosReal, unlabeledA: real,
                     sigma: SpeciesView -> PosReal, close: (real, real) -> bool,
                     ghost vs: seq<ObjView>, ghost fs: seq<real>, ghost tgt: seq<real>, ghost s: map<Atom, Element>)
    returns (r: Result<()>)
    requires |vs| == |fs| == |tgt| == |rxnList|
    requires refIndex.Some? ==> refIndex.value < |rxnList|
    requires Coherent(rxnList, tgt)
    requires forall j | 0 <= j < |rxnList| :: vs[j].ReactionV? && ViewWith(ReactionObj(rxnList[j]), s) == vs[j]
    requires forall j | 0 <= j < |rxnList| :: tgt[j] == Rescaled(Symmetry(sigma, vs[j]), unlabeledSymmetry, unlabeledA, fs[j], close)
    requires forall a | a in RxnListAtoms(rxnList) :: a in s && a.element == s[a]
    requires forall j | 0 <= j < |rxnList| :: rxnList[j].a == fs[j]
    requires RefA(rxnList, refIndex, copyA) == unlabeledA
    requires refIndex.Some? ==> tgt[refIndex.value] == unlabeledA
    modifies set rxn | rxn in rxnList
    ensures r.Err? <==> |rxnList| > 0 && unlabeledA == 0.0
    ensures r.Err? ==> r.error == ZeroDivisionError && forall j | 0 <= j < |rxnList| :: rxnList[j].a == fs[j]
    ensures r.Ok? ==> forall j | 0 <= j < |rxnList| :: rxnList[j].a == tgt[j]
  {
    var i := 0;
    while i < |rxnList|
      invariant 0 <= i <= |rxnList|
      invariant i > 0 ==> unlabeledA != 0.0
      invariant forall a | a in RxnListAtoms(rxnList) :: a.element == s[a]
      invariant RescaledUpTo(rxnList, i, tgt, fs)
    {
      var rxn := rxnList[i];
      if unlabeledA == 0.0 {
        return Err(ZeroDivisionError);
      }
      assert tgt[i] == Rescaled(Symmetry(sigma, vs[i]), unlabeledSymmetry, unlabeledA, rxn.a, close) by {
        if rxn in rxnList[..i] {
          var k :| 0 <= k < i && rxnList[k] == rxn;
          RescaledIdempotent(Symmetry(sigma, vs[i]), unlabeledSymmetry, unlabeledA, fs[i], close);
        }
      }
      RxnAtomsInList(rxnList, i);
      if refIndex.Some? {
        assert rxnList[refIndex.value].a == unlabeledA;
      }
      label Before:
      RescaleOne(rxn, rxnList, refIndex, copyA, unlabeledSymmetry, unlabeledA, sigma, close, s);
      RescaleStep(rxnList, i, tgt, fs, old@Before(Factors(rxnList)), Factors(rxnList));
      i := i + 1;
    }
    assert rxnList[..i] == rxnList;
    r := Ok(());
  }

  /** After one turn the reactions up to and including `i` carry their targets. */
  lemma RescaleStep(rxnList: seq<Reaction>, i: nat, tgt: seq<real>, fs: seq<real>, before: seq<real>, after: seq<real>)
    requires i < |rxnList| && |tgt| == |fs| == |before| == |after| == |rxnList|
    requires Coherent(rxnList, tgt)
    requires forall j | 0 <= j < |rxnList| :: before[j] == if rxnList[j] in rxnList[..i] then tgt[j] else fs[j]
    requires forall j | 0 <= j < |rxnList| :: after[j] == if rxnList[j] == rxnList[i] then tgt[i] else before[j]
    ensures forall j | 0 <= j < |rxnList| :: after[j] == if rxnList[j] in rxnList[..i + 1] then tgt[j] else fs[j]
  {
    assert rxnList[..i + 1] == rxnList[..i] + [rxnList[i]];
  }

  /**
   * `correctAFactorsOfIsotopomers(rxnList)`: pick the reference, then rescale.
   * The outcome is the specified correction of the A-factors the reactions had on
   * entry; when it fails no A-factor has changed.
   */
  method CorrectAFactorsOfIsotopomers(rxnList: seq<Reaction>, sigma: SpeciesView -> PosReal, mass: Element -> real,
                                      close: (real, real) -> bool, regenerate: MolView -> SpeciesView)
    returns (r: Result<()>)
    modifies set rxn | rxn in rxnList
    ensures r.Err? <==> Corrected(old(Views(rxnList)), old(Factors(rxnList)), sigma, mass, close, regenerate).Err?
    ensures r.Err? ==> r.error == Corrected(old(Views(rxnList)), old(Factors(rxnList)), sigma, mass, close, regenerate).error
    ensures r.Err? ==> forall j | 0 <= j < |rxnList| :: rxnList[j].a == old(rxnList[j].a)
    ensures r.Ok? ==> forall j | 0 <= j < |rxnList| ::
      rxnList[j].a == Corrected(old(Views(rxnList)), old(Factors(rxnList)), sigma, mass, close, regenerate).value[j]
  {
    ghost var vs, fs := Views(rxnList), Factors(rxnList);
    var sel := SelectReference(rxnList, mass, close, regenerate, vs, fs);
    r := ApplyReference(rxnList, sel, sigma, mass, close, regenerate, vs, fs);
  }

  /**
   * The rescaling against the chosen reference, or the error of the choice;
   * `vs` and `fs` are the views and A-factors on entry.
   */
  method ApplyReference(rxnList: seq<Reaction>, sel: Result<(Option<nat>, real, ObjView)>,
                        sigma: SpeciesView -> PosReal, mass: Element -> real, close: (real, real) -> bool,
                        regenerate: MolView -> SpeciesView, ghost vs: seq<ObjView>, ghost fs: seq<real>)
    returns (r: Result<()>)
    requires vs == Views(rxnList) && fs == Factors(rxnList)
    requires sel.Err? ==> Reference(vs, fs, mass, close, regenerate) == Err(sel.error)
    requires sel.Ok? ==> sel.value.2.ReactionV?
    requires sel.Ok? && sel.value.0.Some? ==> sel.value.0.value < |rxnList| && vs[sel.value.0.value] == sel.value.2
    requires sel.Ok? ==> Reference(vs, fs, mass, close, regenerate) == Ok((sel.value.2, RefA(rxnList, sel.value.0, sel.value.1)))
    modifies set rxn | rxn in rxnList
    ensures r.Err? <==> Corrected(vs, fs, sigma, mass, close, regenerate).Err?
    ensures r.Err? ==> r.error == Corrected(vs, fs, sigma, mass, close, regenerate).error
    ensures r.Err? ==> forall j | 0 <= j < |rxnList| :: rxnList[j].a == fs[j]
    ensures r.Ok? ==> forall j | 0 <= j < |rxnList| :: rxnList[j].a == Corrected(vs, fs, sigma, mass, close, regenerate).value[j]
  {
    if sel.Err? {
      CorrectedError(vs, fs, sigma, mass, close, regenerate);
      return Err(sel.error);
    }
    var refIndex, copyA, refView := sel.value.0, sel.value.1, sel.value.2;
    CorrectedFromReference(vs, fs, sigma, mass, close, regenerate, refView, RefA(rxnList, refIndex, copyA));
    r := Rescale(rxnList, refIndex, copyA, refView, sigma, close, vs, fs);
  }

  /** When no reference can be chosen, `Corrected` fails with the same error. */
  lemma CorrectedError(vs: seq<ObjView>, fs: seq<real>, sigma: SpeciesView -> PosReal, mass: Element -> real,
                       close: (real, real) -> bool, regenerate: MolView -> SpeciesView)
    requires |fs| == |vs|
    requires forall i | 0 <= i < |vs| :: vs[i].ReactionV?
    requires Reference(vs, fs, mass, close, regenerate).Err?
    ensures Corrected(vs, fs, sigma, mass, close, regenerate) == Err(Reference(vs, fs, mass, close, regenerate).error)
  {
  }

  /** Given the reference, `Corrected` is the targets against it, or a division by zero. */
  lemma CorrectedFromReference(vs: seq<ObjView>, fs: seq<real>, sigma: SpeciesView -> PosReal, mass: Element -> real,
                               close: (real, real) -> bool, regenerate: MolView -> SpeciesView, refView: ObjView, refA: real)
    requires |fs| == |vs|
    requires forall i | 0 <= i < |vs| :: vs[i].ReactionV?
    requires Reference(vs, fs, mass, close, regenerate) == Ok((refView, refA))
    ensures |vs| > 0 && refView.ReactionV?
    ensures Corrected(vs, fs, sigma, mass, close, regenerate) ==
      if refA == 0.0 then Err(ZeroDivisionError) else Ok(Targets(vs, fs, sigma, Symmetry(sigma, refView), refA, close))
  {
  }

  /**
   * The choice of `unlabeledRxn`: the index of the first unenriched reaction, or
   * else a stripped copy of the first reaction together with that reaction's
   * A-factor. Nothing in the heap changes.
   */
  method SelectReference(rxnList: seq<Reaction>, mass: Element -> real, close: (real, real) -> bool,
                         regenerate: MolView -> SpeciesView, ghost vs: seq<ObjView>, ghost fs: seq<real>)
    returns (sel: Result<(Option<nat>, real, ObjView)>)
    requires vs == Views(rxnList) && fs == Factors(rxnList)
    ensures Views(rxnList) == vs && Factors(rxnList) == fs
    ensures sel.Err? ==> Reference(vs, fs, mass, close, regenerate) == Err(sel.error)
    ensures sel.Ok? && sel.value.0.Some? ==> sel.value.0.value < |rxnList| && vs[sel.value.0.value] == sel.value.2
    ensures sel.Ok? ==> sel.value.2.ReactionV?
    ensures sel.Ok? ==> Reference(vs, fs, mass, close, regenerate) == Ok((sel.value.2, RefA(rxnList, sel.value.0, sel.value.1)))
  {
    var found := FindUnlabeled(rxnList, mass, close, vs, fs);
    if found.Err? {
      return Err(found.error);
    }
    if found.value.Some? {
      var m := found.value.value;
      return Ok((found.value, 0.0, RxnView(rxnList[m])));
    }
    if |rxnList| == 0 {
      return Err(IndexError);
    }
    var stripped := StripCopy(RxnView(rxnList[0]), regenerate);
    if stripped.Err? {
      return Err(stripped.error);
    }
    return Ok((None, rxnList[0].a, stripped.value));
  }
}
