/**
 * Elements, atoms, molecules, species and reactions, and the value "views"
 * of their isotope labelling that the external isomorphism test, symmetry
 * number and enrichment test are applied to.
 */
module Structures {

  /** An element with its isotope marker; isotope -1 is the naturally dominant form. */
  datatype Element = Element(symbol: string, isotope: int)

  /** `getElement(symbol)`: the default (unlabelled) element of a symbol. */
  function Default(symbol: string): (e: Element)
    ensures e.symbol == symbol && e.isotope == -1
  {
    Element(symbol, -1)
  }

  /** `getElement(6, 13)`: carbon-13, the label that isotopomers receive. */
  const Carbon13: Element := Element("C", 13)

  /** A bond between two atom positions; bonds are never changed by this core. */
  datatype Bond = Bond(first: nat, second: nat, order: nat)

  class Atom {
    var element: Element

    constructor (e: Element)
      ensures element == e
    {
      element := e;
    }
  }

  class Molecule {
    const atoms: seq<Atom>
    const bonds: seq<Bond>

    constructor (atoms: seq<Atom>, bonds: seq<Bond>)
      ensures this.atoms == atoms && this.bonds == bonds
    {
      this.atoms := atoms;
      this.bonds := bonds;
    }
  }

  /** A species holds one or more alternative (resonance) molecules. */
  class Species {
    const molecule: seq<Molecule>

    constructor (molecule: seq<Molecule>)
      ensures this.molecule == molecule
    {
      this.molecule := molecule;
    }
  }

  /** A reaction refers to (does not own) its reactant and product species; `a` is its A-factor. */
  class Reaction {
    const reactants: seq<Species>
    const products: seq<Species>
    var a: real

    constructor (reactants: seq<Species>, products: seq<Species>, a: real)
      ensures this.reactants == reactants && this.products == products && this.a == a
    {
      this.reactants := reactants;
      this.products := products;
      this.a := a;
    }
  }

  /** The dynamically typed argument of `removeIsotope`, `compareIsotopomers` and `cluster`. */
  datatype Labeled = SpeciesObj(species: Species) | ReactionObj(reaction: Reaction) | Other

  predicate Distinct<T(==)>(s: seq<T>) {
    forall i, j | 0 <= i < j < |s| :: s[i] != s[j]
  }

  // ---------------------------------------------------------------- footprints

  function MolAtoms(m: Molecule): set<Atom> {
    set a | a in m.atoms
  }

  function MolListAtoms(ms: seq<Molecule>): set<Atom> {
    set m, a | m in ms && a in m.atoms :: a
  }

  function SpeciesAtoms(s: Species): set<Atom> {
    MolListAtoms(s.molecule)
  }

  function SpeciesListAtoms(ss: seq<Species>): set<Atom> {
    set i, a | 0 <= i < |ss| && a in SpeciesAtoms(ss[i]) :: a
  }

  function ReactionAtoms(r: Reaction): set<Atom> {
    SpeciesListAtoms(r.reactants) + SpeciesListAtoms(r.products)
  }

  /** Every atom whose element the in-place strip of `o` may overwrite. */
  function AtomsOf(o: Labeled): (r: set<Atom>)
    ensures o.SpeciesObj? ==> r == SpeciesAtoms(o.species)
    ensures o.ReactionObj? ==> r == ReactionAtoms(o.reaction)
    ensures o.Other? ==> r == {}
  {
    match o
    case SpeciesObj(s) => SpeciesAtoms(s)
    case ReactionObj(r) => ReactionAtoms(r)
    case Other => {}
  }

  function AllAtoms(os: seq<Labeled>): set<Atom> {
    set o, a | o in os && a in AtomsOf(o) :: a
  }

  lemma MolListAtomsStep(ms: seq<Molecule>, i: nat)
    requires i < |ms|
    ensures MolListAtoms(ms[..i+1]) == MolListAtoms(ms[..i]) + MolAtoms(ms[i])
  {
    assert ms[..i+1] == ms[..i] + [ms[i]];
  }

  lemma SpeciesListAtomsStep(ss: seq<Species>, i: nat)
    requires i < |ss|
    ensures SpeciesListAtoms(ss[..i+1]) == SpeciesListAtoms(ss[..i]) + SpeciesAtoms(ss[i])
  {
    var p, q := ss[..i+1], ss[..i];
    forall a | a in SpeciesListAtoms(p) ensures a in SpeciesListAtoms(q) + SpeciesAtoms(ss[i]) {
      var j :| 0 <= j < |p| && a in SpeciesAtoms(p[j]);
      if j < i { assert p[j] == q[j]; }
    }
    forall a | a in SpeciesListAtoms(q) ensures a in SpeciesListAtoms(p) {
      var j :| 0 <= j < |q| && a in SpeciesAtoms(q[j]);
      assert p[j] == q[j];
    }
    assert p[i] == ss[i];
  }

  lemma SpeciesInList(ss: seq<Species>, i: nat)
    requires i < |ss|
    ensures SpeciesAtoms(ss[i]) <= SpeciesListAtoms(ss)
  {
  }

  // ---------------------------------------------------------------- snapshots

  /** The elements that the atoms of `atomSet` carry in the current heap. */
  function Snap(atomSet: set<Atom>): (s: map<Atom, Element>)
    reads atomSet
    ensures s.Keys == atomSet
    ensures forall a | a in atomSet :: s[a] == a.element
  {
    map a | a in atomSet :: a.element
  }

  /** The element a snapshot records for an atom (the default of "" for atoms it does not hold). */
  function Lookup(s: map<Atom, Element>, a: Atom): Element {
    if a in s then s[a] else Default("")
  }

  /** The snapshot a strip produces: every recorded element replaced by its symbol's default. */
  function StripMap(s: map<Atom, Element>): (t: map<Atom, Element>)
    ensures t.Keys == s.Keys
    ensures forall a | a in s :: t[a] == Default(s[a].symbol)
  {
    map a | a in s :: Default(s[a].symbol)
  }

  // ---------------------------------------------------------------- views

  /** The labelling of one molecule: the element at each atom position and the bonds. */
  datatype MolView = MolView(labels: seq<Element>, bonds: seq<Bond>)

  /** The labelling of one species: one view per resonance molecule. */
  type SpeciesView = seq<MolView>

  datatype ObjView =
    | SpeciesV(mols: SpeciesView)
    | ReactionV(reactants: seq<SpeciesView>, products: seq<SpeciesView>)
    | OtherV

  function MolViewWith(m: Molecule, s: map<Atom, Element>): (v: MolView)
    ensures |v.labels| == |m.atoms| && v.bonds == m.bonds
    ensures forall k | 0 <= k < |m.atoms| :: v.labels[k] == Lookup(s, m.atoms[k])
  {
    MolView(seq(|m.atoms|, k requires 0 <= k < |m.atoms| => Lookup(s, m.atoms[k])), m.bonds)
  }

  function SpeciesViewWith(sp: Species, s: map<Atom, Element>): (v: SpeciesView)
    ensures |v| == |sp.molecule|
    ensures forall i | 0 <= i < |sp.molecule| :: v[i] == MolViewWith(sp.molecule[i], s)
  {
    seq(|sp.molecule|, i requires 0 <= i < |sp.molecule| => MolViewWith(sp.molecule[i], s))
  }

  function SpeciesListViewWith(ss: seq<Species>, s: map<Atom, Element>): (v: seq<SpeciesView>)
    ensures |v| == |ss|
    ensures forall i | 0 <= i < |ss| :: v[i] == SpeciesViewWith(ss[i], s)
  {
    seq(|ss|, i requires 0 <= i < |ss| => SpeciesViewWith(ss[i], s))
  }

  /** The view of an object under the labelling recorded in `s`. */
  function ViewWith(o: Labeled, s: map<Atom, Element>): ObjView {
    match o
    case SpeciesObj(sp) => SpeciesV(SpeciesViewWith(sp, s))
    case ReactionObj(r) => ReactionV(SpeciesListViewWith(r.reactants, s), SpeciesListViewWith(r.products, s))
    case Other => OtherV
  }

  /** The view of an object in the current heap. */
  function ViewOf(o: Labeled): ObjView
    reads AtomsOf(o)
  {
    ViewWith(o, Snap(AtomsOf(o)))
  }

  /** The view of a molecule in the current heap. */
  function MolViewOf(m: Molecule): (v: MolView)
    reads MolAtoms(m)
    ensures |v.labels| == |m.atoms| && v.bonds == m.bonds
    ensures forall k | 0 <= k < |m.atoms| :: v.labels[k] == m.atoms[k].element
  {
    MolView(seq(|m.atoms|, k requires 0 <= k < |m.atoms| reads MolAtoms(m) => m.atoms[k].element), m.bonds)
  }

  /** The view of a species in the current heap: the views of its molecules. */
  function SpeciesViewOf(sp: Species): (v: SpeciesView)
    reads SpeciesAtoms(sp)
    ensures |v| == |sp.molecule|
  {
    seq(|sp.molecule|, i requires 0 <= i < |sp.molecule| reads SpeciesAtoms(sp) => MolViewOf(sp.molecule[i]))
  }

  /** A species with a single molecule is viewed as that molecule's view. */
  lemma SingleSpeciesView(sp: Species)
    requires |sp.molecule| == 1
    ensures SpeciesViewOf(sp) == [MolViewOf(sp.molecule[0])]
  {
    assert SpeciesViewOf(sp)[0] == MolViewOf(sp.molecule[0]);
  }

  // ---------------------------------------------------------------- isotope-free views

  function StripLabels(ls: seq<Element>): (r: seq<Element>)
    ensures |r| == |ls|
    ensures forall k | 0 <= k < |ls| :: r[k] == Default(ls[k].symbol)
  {
    seq(|ls|, k requires 0 <= k < |ls| => Default(ls[k].symbol))
  }

  function StripMol(v: MolView): MolView {
    MolView(StripLabels(v.labels), v.bonds)
  }

  function StripSpecies(v: SpeciesView): (r: SpeciesView)
    ensures |r| == |v|
    ensures forall i | 0 <= i < |v| :: r[i] == StripMol(v[i])
  {
    seq(|v|, i requires 0 <= i < |v| => StripMol(v[i]))
  }

  function StripSpeciesViews(vs: seq<SpeciesView>): (r: seq<SpeciesView>)
    ensures |r| == |vs|
    ensures forall i | 0 <= i < |vs| :: r[i] == StripSpecies(vs[i])
  {
    seq(|vs|, i requires 0 <= i < |vs| => StripSpecies(vs[i]))
  }

  /** The view with every isotope label removed: what the in-place strip leaves behind. */
  function StripView(v: ObjView): ObjView {
    match v
    case SpeciesV(ms) => SpeciesV(StripSpecies(ms))
    case ReactionV(rs, ps) => ReactionV(StripSpeciesViews(rs), StripSpeciesViews(ps))
    case OtherV => OtherV
  }

  // ---------------------------------------------------------------- lemmas about views

  /** A view depends only on what the snapshot records for the object's own atoms. */
  lemma ViewWithAgree(o: Labeled, s1: map<Atom, Element>, s2: map<Atom, Element>)
    requires forall a | a in AtomsOf(o) :: Lookup(s1, a) == Lookup(s2, a)
    ensures ViewWith(o, s1) == ViewWith(o, s2)
  {
    match o
    case SpeciesObj(sp) =>
      SpeciesAgree(sp, s1, s2);
    case ReactionObj(r) =>
      SpeciesListAgree(r.reactants, s1, s2);
      SpeciesListAgree(r.products, s1, s2);
    case Other =>
  }

  lemma SpeciesAgree(sp: Species, s1: map<Atom, Element>, s2: map<Atom, Element>)
    requires forall a | a in SpeciesAtoms(sp) :: Lookup(s1, a) == Lookup(s2, a)
    ensures SpeciesViewWith(sp, s1) == SpeciesViewWith(sp, s2)
  {
    forall i | 0 <= i < |sp.molecule|
      ensures MolViewWith(sp.molecule[i], s1) == MolViewWith(sp.molecule[i], s2)
    {
      var m := sp.molecule[i];
      forall k | 0 <= k < |m.atoms| ensures Lookup(s1, m.atoms[k]) == Lookup(s2, m.atoms[k]) {
        assert m in sp.molecule && m.atoms[k] in m.atoms;
        assert m.atoms[k] in SpeciesAtoms(sp);
      }
    }
  }

  lemma SpeciesListAgree(ss: seq<Species>, s1: map<Atom, Element>, s2: map<Atom, Element>)
    requires forall a | a in SpeciesListAtoms(ss) :: Lookup(s1, a) == Lookup(s2, a)
    ensures SpeciesListViewWith(ss, s1) == SpeciesListViewWith(ss, s2)
  {
    forall i | 0 <= i < |ss| ensures SpeciesViewWith(ss[i], s1) == SpeciesViewWith(ss[i], s2) {
      SpeciesInList(ss, i);
      SpeciesAgree(ss[i], s1, s2);
    }
  }

  /** Viewing under a stripped snapshot is the same as stripping the view. */
  lemma ViewWithStrip(o: Labeled, s: map<Atom, Element>)
    ensures ViewWith(o, StripMap(s)) == StripView(ViewWith(o, s))
  {
    match o
    case SpeciesObj(sp) =>
      SpeciesStrip(sp, s);
    case ReactionObj(r) =>
      SpeciesListStrip(r.reactants, s);
      SpeciesListStrip(r.products, s);
    case Other =>
  }

  lemma SpeciesStrip(sp: Species, s: map<Atom, Element>)
    ensures SpeciesViewWith(sp, StripMap(s)) == StripSpecies(SpeciesViewWith(sp, s))
  {
    forall i | 0 <= i < |sp.molecule|
      ensures MolViewWith(sp.molecule[i], StripMap(s)) == StripMol(MolViewWith(sp.molecule[i], s))
    {
      var m := sp.molecule[i];
      assert MolViewWith(m, StripMap(s)).labels == StripLabels(MolViewWith(m, s).labels);
    }
  }

  lemma SpeciesListStrip(ss: seq<Species>, s: map<Atom, Element>)
    ensures SpeciesListViewWith(ss, StripMap(s)) == StripSpeciesViews(SpeciesListViewWith(ss, s))
  {
    forall i | 0 <= i < |ss|
      ensures SpeciesViewWith(ss[i], StripMap(s)) == StripSpecies(SpeciesViewWith(ss[i], s))
    {
      SpeciesStrip(ss[i], s);
    }
  }

  /** Stripping is idempotent: a stripped view has nothing left to strip. */
  lemma StripViewIdempotent(v: ObjView)
    ensures StripView(StripView(v)) == StripView(v)
  {
    match v
    case SpeciesV(ms) =>
      StripSpeciesIdempotent(ms);
    case ReactionV(rs, ps) =>
      forall i | 0 <= i < |rs| ensures StripSpecies(StripSpecies(rs[i])) == StripSpecies(rs[i]) {
        StripSpeciesIdempotent(rs[i]);
      }
      forall i | 0 <= i < |ps| ensures StripSpecies(StripSpecies(ps[i])) == StripSpecies(ps[i]) {
        StripSpeciesIdempotent(ps[i]);
      }
    case OtherV =>
  }

  lemma StripSpeciesIdempotent(ms: SpeciesView)
    ensures StripSpecies(StripSpecies(ms)) == StripSpecies(ms)
  {
    forall i | 0 <= i < |ms| ensures StripMol(StripMol(ms[i])) == StripMol(ms[i]) {
      assert StripLabels(StripLabels(ms[i].labels)) == StripLabels(ms[i].labels);
    }
  }

  /**
   * Two molecules with the same bonds whose atoms carry the same symbols position
   * by position have the same isotope-free view: they are isotopomers of each other.
   */
  lemma IsotopomersStripEqual(v: MolView, w: MolView)
    requires v.bonds == w.bonds && |v.labels| == |w.labels|
    requires forall k | 0 <= k < |v.labels| :: v.labels[k].symbol == w.labels[k].symbol
    ensures StripMol(v) == StripMol(w)
  {
    assert StripLabels(v.labels) == StripLabels(w.labels);
  }
}
