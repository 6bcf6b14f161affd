/**
 * In-place removal of isotope labels (`removeIsotope(..., inplace=True)`),
 * their restoration (`redoIsotope`) and the isotope-insensitive comparison
 * that brackets an isomorphism test between the two (`compareIsotopomers`).
 */
module Stripping {
  import opened Outcomes
  import opened Structures

  /** The list of (atom, original element) pairs an in-place strip returns. */
  type StripLog = seq<(Atom, Element)>

  function Firsts(log: StripLog): set<Atom> {
    set i | 0 <= i < |log| :: log[i].0
  }

  lemma FirstsAppend(log: StripLog, p: (Atom, Element))
    ensures Firsts(log + [p]) == Firsts(log) + {p.0}
  {
    var ext := log + [p];
    forall a | a in Firsts(ext) ensures a in Firsts(log) + {p.0} {
      var i :| 0 <= i < |ext| && ext[i].0 == a;
      if i < |log| { assert log[i].0 == a; }
    }
    forall a | a in Firsts(log) ensures a in Firsts(ext) {
      var i :| 0 <= i < |log| && log[i].0 == a;
      assert ext[i].0 == a;
    }
    assert ext[|log|].0 == p.0;
  }

  predicate DistinctAtoms(log: StripLog) {
    forall i, j | 0 <= i < j < |log| :: log[i].0 != log[j].0
  }

  /**
   * `log` is a faithful record of stripping the atoms `atomSet` whose elements were
   * `before`: each atom at most once, exactly the atoms that carried an isotope
   * other than -1, each paired with the element it carried.
   */
  predicate IsStripLog(atomSet: set<Atom>, log: StripLog, before: map<Atom, Element>) {
    atomSet <= before.Keys &&
    DistinctAtoms(log) &&
    (forall i | 0 <= i < |log| :: log[i].0 in atomSet && log[i].1 == before[log[i].0] && log[i].1.isotope != -1) &&
    (forall a | a in atomSet && before[a].isotope != -1 :: a in Firsts(log))
  }

  /**
   * Stripping `second` after `first` (which left its atoms at their default
   * elements) records exactly the still-labelled atoms of `second`, so the
   * concatenated log is a faithful record of stripping both, an atom shared by
   * the two appearing once.
   */
  lemma {:induction false} StripLogConcat(first: set<Atom>, second: set<Atom>, log1: StripLog, log2: StripLog,
                                          before: map<Atom, Element>, mid: map<Atom, Element>)
    requires IsStripLog(first, log1, before) && IsStripLog(second, log2, mid)
    requires second <= before.Keys
    requires forall a | a in second && a in first :: mid[a] == Default(before[a].symbol)
    requires forall a | a in second && a !in first :: mid[a] == before[a]
    ensures IsStripLog(first + second, log1 + log2, before)
  {
    var log := log1 + log2;
    forall i, j | 0 <= i < j < |log| ensures log[i].0 != log[j].0 {
      if j >= |log1| && i < |log1| {
        var a := log2[j - |log1|].0;
        assert mid[a].isotope != -1;
        assert a !in first;
      }
    }
    forall a | a in first + second && before[a].isotope != -1 ensures a in Firsts(log) {
      if a in first {
        var i :| 0 <= i < |log1| && log1[i].0 == a;
        assert log[i].0 == a;
      } else {
        var i :| 0 <= i < |log2| && log2[i].0 == a;
        assert log[|log1| + i].0 == a;
      }
    }
  }

  /** The inner loop of the in-place strip: the atoms of one molecule. */
  method StripAtoms(mol: Molecule) returns (log: StripLog)
    modifies MolAtoms(mol)
    ensures forall a | a in MolAtoms(mol) :: a.element == Default(old(a.element).symbol)
    ensures IsStripLog(MolAtoms(mol), log, old(Snap(MolAtoms(mol))))
  {
    ghost var before := Snap(MolAtoms(mol));
    log := [];
    var k := 0;
    while k < |mol.atoms|
      invariant 0 <= k <= |mol.atoms|
      invariant IsStripLog((set a | a in mol.atoms[..k]), log, before)
      invariant forall a | a in mol.atoms[..k] :: a.element == Default(before[a].symbol)
      invariant forall a | a in MolAtoms(mol) && a !in mol.atoms[..k] :: a.element == before[a]
    {
      var atom := mol.atoms[k];
      assert mol.atoms[..k + 1] == mol.atoms[..k] + [atom];
      ghost var done := set a | a in mol.atoms[..k];
      if atom.element.isotope != -1 {
        assert atom !in done;
        assert atom.element == before[atom];
        assert atom !in Firsts(log);
        FirstsAppend(log, (atom, atom.element));
        log := log + [(atom, atom.element)];
        atom.element := Default(atom.element.symbol);
      }
      k := k + 1;
    }
    assert mol.atoms[..k] == mol.atoms;
  }

  /** `removeIsotope(species, inplace=True)`: strip every molecule of the species. */
  method RemoveIsotopeSpecies(sp: Species) returns (log: StripLog)
    modifies SpeciesAtoms(sp)
    ensures forall a | a in SpeciesAtoms(sp) :: a.element == Default(old(a.element).symbol)
    ensures IsStripLog(SpeciesAtoms(sp), log, old(Snap(SpeciesAtoms(sp))))
  {
    ghost var before := Snap(SpeciesAtoms(sp));
    log := [];
    var i := 0;
    while i < |sp.molecule|
      invariant 0 <= i <= |sp.molecule|
      invariant IsStripLog(MolListAtoms(sp.molecule[..i]), log, before)
      invariant forall a | a in MolListAtoms(sp.molecule[..i]) :: a.element == Default(before[a].symbol)
      invariant forall a | a in SpeciesAtoms(sp) && a !in MolListAtoms(sp.molecule[..i]) :: a.element == before[a]
    {
      var mol := sp.molecule[i];
      MolListAtomsStep(sp.molecule, i);
      ghost var mid := Snap(MolAtoms(mol));
      var removed := StripAtoms(mol);
      StripLogConcat(MolListAtoms(sp.molecule[..i]), MolAtoms(mol), log, removed, before, mid);
      log := log + removed;
      i := i + 1;
    }
    assert sp.molecule[..i] == sp.molecule;
  }

  /** Strip a list of species one after the other, in list order. */
  method StripSpeciesList(ss: seq<Species>) returns (log: StripLog)
    modifies SpeciesListAtoms(ss)
    ensures forall a | a in SpeciesListAtoms(ss) :: a.element == Default(old(a.element).symbol)
    ensures IsStripLog(SpeciesListAtoms(ss), log, old(Snap(SpeciesListAtoms(ss))))
  {
    ghost var before := Snap(SpeciesListAtoms(ss));
    log := [];
    var i := 0;
    while i < |ss|
      invariant 0 <= i <= |ss|
      invariant IsStripLog(SpeciesListAtoms(ss[..i]), log, before)
      invariant forall a | a in SpeciesListAtoms(ss[..i]) :: a.element == Default(before[a].symbol)
      invariant forall a | a in SpeciesListAtoms(ss) && a !in SpeciesListAtoms(ss[..i]) :: a.element == before[a]
    {
      var sp := ss[i];
      SpeciesListAtomsStep(ss, i);
      SpeciesInList(ss, i);
      ghost var mid := Snap(SpeciesAtoms(sp));
      label L:
      var removed := RemoveIsotopeSpecies(sp);
      forall a | a in SpeciesListAtoms(ss[..i + 1]) ensures a.element == Default(before[a].symbol) {
        if a !in SpeciesAtoms(sp) {
          assert a.element == old@L(a.element);
        }
      }
      forall a | a in SpeciesListAtoms(ss) && a !in SpeciesListAtoms(ss[..i + 1]) ensures a.element == before[a] {
        assert a.element == old@L(a.element);
      }
      StripLogConcat(SpeciesListAtoms(ss[..i]), SpeciesAtoms(sp), log, removed, before, mid);
      log := log + removed;
      i := i + 1;
    }
    assert ss[..i] == ss;
  }

  /**
   * `removeIsotope(reaction, inplace=True)`: the reactants' logs followed by the
   * products' logs; a species occurring twice is found already stripped the
   * second time, so no atom is recorded twice.
   */
  method RemoveIsotopeReaction(r: Reaction) returns (log: StripLog, ghost k: nat)
    modifies ReactionAtoms(r)
    ensures forall a | a in ReactionAtoms(r) :: a.element == Default(old(a.element).symbol)
    ensures IsStripLog(ReactionAtoms(r), log, old(Snap(ReactionAtoms(r))))
    ensures k <= |log| && IsStripLog(SpeciesListAtoms(r.reactants), log[..k], old(Snap(ReactionAtoms(r))))
    ensures forall j | k <= j < |log| :: log[j].0 in SpeciesListAtoms(r.products) && log[j].0 !in SpeciesListAtoms(r.reactants)
  {
    ghost var before := Snap(ReactionAtoms(r));
    var fromReactants := StripSpeciesList(r.reactants);
    ghost var mid := Snap(SpeciesListAtoms(r.products));
    var fromProducts := StripSpeciesList(r.products);
    StripLogConcat(SpeciesListAtoms(r.reactants), SpeciesListAtoms(r.products), fromReactants, fromProducts, before, mid);
    log := fromReactants + fromProducts;
    k := |fromReactants|;
    LogSplit(SpeciesListAtoms(r.reactants), SpeciesListAtoms(r.products), fromReactants, fromProducts, before, mid);
  }

  /**
   * The concatenated log of two strips splits after the first log: the prefix is
   * the first strip's log, and the rest names only atoms of the second set that
   * the first strip did not reach.
   */
  lemma LogSplit(first: set<Atom>, second: set<Atom>, log1: StripLog, log2: StripLog,
                 before: map<Atom, Element>, mid: map<Atom, Element>)
    requires IsStripLog(first, log1, before) && IsStripLog(second, log2, mid)
    requires forall a | a in second && a in first :: mid[a] == Default(before[a].symbol)
    ensures IsStripLog(first, (log1 + log2)[..|log1|], before)
    ensures forall j | |log1| <= j < |log1 + log2| :: (log1 + log2)[j].0 in second && (log1 + log2)[j].0 !in first
  {
    var log := log1 + log2;
    assert log[..|log1|] == log1;
    forall j | |log1| <= j < |log| ensures log[j].0 in second && log[j].0 !in first {
      assert log[j] == log2[j - |log1|];
    }
  }

  /** `removeIsotope(obj, inplace=True)`; anything but a species or a reaction is a TypeError. */
  method RemoveIsotope(o: Labeled) returns (r: Result<StripLog>)
    modifies AtomsOf(o)
    ensures r.Err? <==> o.Other?
    ensures r.Err? ==> r.error == TypeError
    ensures forall a | a in AtomsOf(o) :: a.element == Default(old(a.element).symbol)
    ensures r.Ok? ==> IsStripLog(AtomsOf(o), r.value, old(Snap(AtomsOf(o))))
  {
    match o
    case SpeciesObj(sp) =>
      var log := RemoveIsotopeSpecies(sp);
      r := Ok(log);
    case ReactionObj(rxn) =>
      var log, _ := RemoveIsotopeReaction(rxn);
      r := Ok(log);
    case Other =>
      r := Err(TypeError);
  }

  /** `redoIsotope`: write every recorded element back into its atom. */
  method RedoIsotope(log: StripLog)
    modifies Firsts(log)
    ensures DistinctAtoms(log) ==> forall i | 0 <= i < |log| :: log[i].0.element == log[i].1
  {
    var i := 0;
    while i < |log|
      invariant 0 <= i <= |log|
      invariant DistinctAtoms(log) ==> forall j | 0 <= j < i :: log[j].0.element == log[j].1
    {
      var (atom, element) := log[i];
      assert atom in Firsts(log);
      atom.element := element;
      i := i + 1;
    }
  }

  /**
   * `redoIsotope(removeIsotope(obj, inplace=True))`: the restore log of an in-place
   * strip puts every atom of the object back to the element it had, and an object
   * that is neither a species nor a reaction is a TypeError with nothing changed.
   */
  method StripThenRestore(o: Labeled) returns (r: Result<()>)
    modifies AtomsOf(o)
    ensures r.Err? <==> o.Other?
    ensures r.Err? ==> r.error == TypeError
    ensures forall a | a in AtomsOf(o) :: a.element == old(a.element)
  {
    ghost var before := Snap(AtomsOf(o));
    var stripped := RemoveIsotope(o);
    if stripped.Err? {
      return Err(stripped.error);
    }
    var log := stripped.value;
    ghost var mid := Snap(AtomsOf(o));
    RedoIsotope(log);
    forall a | a in AtomsOf(o) ensures a.element == before[a] {
      if a in Firsts(log) {
        var i :| 0 <= i < |log| && log[i].0 == a;
      } else {
        assert mid[a] == Default(before[a].symbol);
      }
    }
    r := Ok(());
  }

  /** `x` and `y` have isomorphic isotope-free views under the labelling `s`. */
  predicate SameFamily(iso: (ObjView, ObjView) -> bool, s: map<Atom, Element>, x: Labeled, y: Labeled) {
    iso(StripView(ViewWith(x, s)), StripView(ViewWith(y, s)))
  }

  /** After a strip, the current view of an object is the stripped view of its labelling before. */
  lemma ViewAfterStrip(o: Labeled, before: map<Atom, Element>)
    requires forall a | a in AtomsOf(o) :: a in before && a.element == Default(before[a].symbol)
    ensures ViewOf(o) == StripView(ViewWith(o, before))
  {
    ViewWithAgree(o, Snap(AtomsOf(o)), StripMap(before));
    ViewWithStrip(o, before);
  }

  /**
   * `compareIsotopomers(obj1, obj2)`: strip both in place, test isomorphism,
   * write the elements back. When `obj1` is a species or a reaction and `obj2`
   * is neither, the TypeError leaves `obj1` stripped.
   */
  method CompareIsotopomers(o1: Labeled, o2: Labeled, iso: (ObjView, ObjView) -> bool) returns (r: Result<bool>)
    modifies AtomsOf(o1), AtomsOf(o2)
    ensures r.Ok? <==> !o1.Other? && !o2.Other?
    ensures r.Err? ==> r.error == TypeError
    ensures r.Ok? ==> r.value == SameFamily(iso, old(Snap(AtomsOf(o1) + AtomsOf(o2))), o1, o2)
    ensures r.Ok? || o1.Other? ==> forall a | a in AtomsOf(o1) + AtomsOf(o2) :: a.element == old(a.element)
    ensures r.Err? && !o1.Other? ==> forall a | a in AtomsOf(o1) :: a.element == Default(old(a.element).symbol)
  {
    ghost var before := Snap(AtomsOf(o1) + AtomsOf(o2));
    var first := RemoveIsotope(o1);
    if first.Err? {
      return Err(first.error);
    }
    ghost var mid := Snap(AtomsOf(o2));
    var second := RemoveIsotope(o2);
    if second.Err? {
      return Err(second.error);
    }
    StripLogConcat(AtomsOf(o1), AtomsOf(o2), first.value, second.value, before, mid);
    var log := first.value + second.value;
    ViewAfterStrip(o1, before);
    ViewAfterStrip(o2, before);
    var same := iso(ViewOf(o1), ViewOf(o2));
    assert Firsts(log) <= AtomsOf(o1) + AtomsOf(o2);
    ghost var stripped := Snap(AtomsOf(o1) + AtomsOf(o2));
    RedoIsotope(log);
    forall a | a in AtomsOf(o1) + AtomsOf(o2) ensures a.element == before[a] {
      if a in Firsts(log) {
        var i :| 0 <= i < |log| && log[i].0 == a;
      } else {
        assert stripped[a] == Default(before[a].symbol);
      }
    }
    r := Ok(same);
  }
}
