/**
 * `generateIsotopomers`: enumerate the carbon-13 isotopomers of a species'
 * first molecule and keep one species per isomorphism class.
 */
module Generation {
  import opened Structures
  import opened Enumeration

  /** The inner loop of the duplicate filter: no kept species is isomorphic to `candidate`. */
  method IsUnique<T>(filtered: seq<T>, candidate: T, iso: (T, T) -> bool) returns (unique: bool)
    ensures unique <==> forall m | 0 <= m < |filtered| :: !iso(filtered[m], candidate)
  {
    unique := true;
    var k := 0;
    while k < |filtered| && unique
      invariant 0 <= k <= |filtered|
      invariant unique ==> forall m | 0 <= m < k :: !iso(filtered[m], candidate)
      invariant !unique ==> k < |filtered| && iso(filtered[k], candidate)
      decreases |filtered| - k + (if unique then 1 else 0)
    {
      if iso(filtered[k], candidate) {
        unique := false;
      } else {
        k := k + 1;
      }
    }
  }

  /** What the duplicate filter has established once the candidates `spcs[rest..]` are handled. */
  ghost predicate Filtered<T>(spcs: seq<T>, rest: nat, filtered: seq<T>, iso: (T, T) -> bool)
    requires rest <= |spcs|
  {
    (forall i, j | 0 <= i < j < |filtered| :: !iso(filtered[i], filtered[j])) &&
    (forall m | rest <= m < |spcs| :: spcs[m] in filtered || exists k | 0 <= k < |filtered| :: iso(filtered[k], spcs[m])) &&
    multiset(filtered) <= multiset(spcs[rest..])
  }

  /** Handling the candidate `spcs[rest]`: keep it exactly when it is unique. */
  lemma FilteredStep<T>(spcs: seq<T>, rest: nat, before: seq<T>, unique: bool, filtered: seq<T>, iso: (T, T) -> bool)
    requires rest < |spcs| && Filtered(spcs, rest + 1, before, iso)
    requires unique <==> forall m | 0 <= m < |before| :: !iso(before[m], spcs[rest])
    requires filtered == if unique then before + [spcs[rest]] else before
    ensures Filtered(spcs, rest, filtered, iso)
  {
    var candidate := spcs[rest];
    assert spcs[rest..] == [candidate] + spcs[rest + 1..];
    assert forall k | 0 <= k < |before| :: filtered[k] == before[k];
    forall m | rest <= m < |spcs|
      ensures spcs[m] in filtered || exists k | 0 <= k < |filtered| :: iso(filtered[k], spcs[m])
    {
      if spcs[m] in before {
        var k :| 0 <= k < |before| && before[k] == spcs[m];
        assert filtered[k] == spcs[m];
      } else if m == rest {
        if unique {
          assert filtered[|before|] == candidate;
        } else {
          var k :| 0 <= k < |before| && iso(before[k], candidate);
          assert filtered[k] == before[k];
        }
      } else {
        var k :| 0 <= k < |before| && iso(before[k], spcs[m]);
        assert filtered[k] == before[k];
      }
    }
  }

  /**
   * The duplicate filter of `generateIsotopomers`: candidates are popped from the
   * end and kept only when no species kept so far is isomorphic to them.
   */
  method Dedup<T>(spcs: seq<T>, iso: (T, T) -> bool) returns (filtered: seq<T>)
    ensures forall i, j | 0 <= i < j < |filtered| :: !iso(filtered[i], filtered[j])
    ensures forall m | 0 <= m < |spcs| :: spcs[m] in filtered || exists k | 0 <= k < |filtered| :: iso(filtered[k], spcs[m])
    ensures multiset(filtered) <= multiset(spcs)
    ensures forall m | 0 <= m < |spcs| && iso(spcs[m], spcs[m]) :: exists k | 0 <= k < |filtered| :: iso(filtered[k], spcs[m])
  {
    filtered := [];
    var rest := |spcs|;
    while rest > 0
      invariant 0 <= rest <= |spcs|
      invariant Filtered(spcs, rest, filtered, iso)
    {
      rest := rest - 1;
      var candidate := spcs[rest];
      var unique := IsUnique(filtered, candidate, iso);
      ghost var before := filtered;
      if unique {
        filtered := filtered + [candidate];
      }
      FilteredStep(spcs, rest, before, unique, filtered, iso);
    }
    assert spcs[0..] == spcs;
    forall m | 0 <= m < |spcs| && iso(spcs[m], spcs[m]) ensures exists k | 0 <= k < |filtered| :: iso(filtered[k], spcs[m]) {
      SelfCover(filtered, iso, spcs[m]);
    }
  }

  /** A kept candidate that is isomorphic to itself is covered by itself. */
  lemma SelfCover<T>(filtered: seq<T>, iso: (T, T) -> bool, x: T)
    requires iso(x, x)
    requires x in filtered || exists k | 0 <= k < |filtered| :: iso(filtered[k], x)
    ensures exists k | 0 <= k < |filtered| :: iso(filtered[k], x)
  {
    if x in filtered {
      var k :| 0 <= k < |filtered| && filtered[k] == x;
      assert iso(filtered[k], x);
    }
  }

  /**
   * One new species per molecule, paired with its view; the molecules are
   * labelled as `expected` says.
   */
  method WrapSpecies(mols: seq<Molecule>) returns (spcs: seq<(Species, SpeciesView)>)
    ensures |spcs| == |mols|
    ensures forall p | 0 <= p < |spcs| ::
      fresh(spcs[p].0) && spcs[p].0.molecule == [mols[p]] && spcs[p].1 == [MolViewOf(mols[p])]
  {
    spcs := [];
    var k := 0;
    while k < |mols|
      invariant 0 <= k <= |mols| && |spcs| == k
      invariant forall p | 0 <= p < k ::
        fresh(spcs[p].0) && spcs[p].0.molecule == [mols[p]] && spcs[p].1 == [MolViewOf(mols[p])]
    {
      label Before:
      var isotopomer := new Species([mols[k]]);
      forall p | 0 <= p < k ensures spcs[p].1 == [MolViewOf(mols[p])] {
        assert old@Before(MolViewOf(mols[p])) == MolViewOf(mols[p]);
      }
      SingleSpeciesView(isotopomer);
      spcs := spcs + [(isotopomer, SpeciesViewOf(isotopomer))];
      k := k + 1;
    }
  }

  /**
   * The enumeration step of `generateIsotopomers`: one new single-molecule species
   * per relabelling of `mol` that `Enum` lists, paired with its view.
   */
  method Candidates(mol: Molecule, n: nat) returns (spcs: seq<(Species, SpeciesView)>, ghost expected: seq<seq<Element>>)
    requires Distinct(mol.atoms)
    ensures expected == Enum(0, n, MolViewOf(mol).labels, Carbon13)
    ensures |spcs| == |expected|
    ensures forall p | 0 <= p < |spcs| ::
      fresh(spcs[p].0) && |spcs[p].0.molecule| == 1 && spcs[p].1 == [MolViewOf(spcs[p].0.molecule[0])] &&
      spcs[p].1 == [MolView(expected[p], mol.bonds)]
    ensures MolViewOf(mol) == old(MolViewOf(mol))
  {
    expected := Enum(0, n, MolViewOf(mol).labels, Carbon13);
    var mols := AddIsotope(0, n, mol, [], Carbon13);
    spcs := WrapSpecies(mols);
    forall p | 0 <= p < |spcs|
      ensures fresh(spcs[p].0) && |spcs[p].0.molecule| == 1 && spcs[p].1 == [MolViewOf(spcs[p].0.molecule[0])]
      ensures spcs[p].1 == [MolView(expected[p], mol.bonds)]
    {
      assert spcs[p].0.molecule == [mols[p]];
      assert MolViewOf(mols[p]) == MolView(expected[p], mol.bonds);
    }
    assert MolViewOf(mol) == old(MolViewOf(mol));
  }

  /** `Dedup` applied to the candidate species, comparing them by their views. */
  method DedupCandidates(spcs: seq<(Species, SpeciesView)>, iso: (SpeciesView, SpeciesView) -> bool)
    returns (kept: seq<(Species, SpeciesView)>)
    ensures forall x | x in kept :: x in spcs
    ensures forall i, j | 0 <= i < j < |kept| :: !iso(kept[i].1, kept[j].1)
    ensures forall x | x in spcs :: x in kept || exists k | 0 <= k < |kept| :: iso(kept[k].1, x.1)
  {
    var rel := (x: (Species, SpeciesView), y: (Species, SpeciesView)) => iso(x.1, y.1);
    kept := Dedup(spcs, rel);
    forall x | x in kept ensures x in spcs {
      assert x in multiset(kept);
    }
    forall x | x in spcs ensures x in kept || exists k | 0 <= k < |kept| :: iso(kept[k].1, x.1) {
      var m :| 0 <= m < |spcs| && spcs[m] == x;
      if x !in kept {
        var k :| 0 <= k < |kept| && rel(kept[k], x);
      }
    }
    forall i, j | 0 <= i < j < |kept| ensures !iso(kept[i].1, kept[j].1) {
      assert !rel(kept[i], kept[j]);
    }
  }

  /**
   * What the kept candidates are, stated on their views: each is a relabelling
   * enumerated from `base`, and every isotopomer of `base` is kept or isomorphic
   * to a kept one.
   */
  lemma KeptViews(spcs: seq<(Species, SpeciesView)>, kept: seq<(Species, SpeciesView)>, base: seq<Element>,
                  bonds: seq<Bond>, n: nat, iso: (SpeciesView, SpeciesView) -> bool, expected: seq<seq<Element>>)
    requires expected == Enum(0, n, base, Carbon13) && |spcs| == |expected|
    requires forall p | 0 <= p < |spcs| :: spcs[p].1 == [MolView(expected[p], bonds)]
    requires forall x | x in kept :: x in spcs
    requires forall x | x in spcs :: x in kept || exists k | 0 <= k < |kept| :: iso(kept[k].1, x.1)
    ensures forall i | 0 <= i < |kept| ::
      |kept[i].1| == 1 && kept[i].1[0].bonds == bonds && IsIsotopomer(base, kept[i].1[0].labels, Carbon13, n)
    ensures forall ls | IsIsotopomer(base, ls, Carbon13, n) ::
      exists k | 0 <= k < |kept| :: kept[k].1 == [MolView(ls, bonds)] || iso(kept[k].1, [MolView(ls, bonds)])
  {
    EnumSound(0, n, base, Carbon13);
    forall i | 0 <= i < |kept|
      ensures |kept[i].1| == 1 && kept[i].1[0].bonds == bonds && IsIsotopomer(base, kept[i].1[0].labels, Carbon13, n)
    {
      assert kept[i] in spcs;
      var p :| 0 <= p < |spcs| && spcs[p] == kept[i];
      assert expected[p] in expected;
    }
    forall ls | IsIsotopomer(base, ls, Carbon13, n)
      ensures exists k | 0 <= k < |kept| :: kept[k].1 == [MolView(ls, bonds)] || iso(kept[k].1, [MolView(ls, bonds)])
    {
      EnumComplete(0, n, base, Carbon13, ls);
      var p :| 0 <= p < |expected| && expected[p] == ls;
      assert spcs[p] in spcs;
      if spcs[p] in kept {
        var q :| 0 <= q < |kept| && kept[q] == spcs[p];
        assert kept[q].1 == [MolView(ls, bonds)];
      } else {
        var q :| 0 <= q < |kept| && iso(kept[q].1, spcs[p].1);
        assert iso(kept[q].1, [MolView(ls, bonds)]);
      }
    }
  }

  /** The kept pairs hold single-molecule species whose views the pairs record. */
  ghost predicate Holds(kept: seq<(Species, SpeciesView)>, filtered: seq<Species>)
    reads set i, a | 0 <= i < |kept| && |kept[i].0.molecule| == 1 && a in kept[i].0.molecule[0].atoms :: a
  {
    |filtered| == |kept| &&
    forall i | 0 <= i < |kept| ::
      filtered[i] == kept[i].0 && |kept[i].0.molecule| == 1 && kept[i].1 == [MolViewOf(kept[i].0.molecule[0])]
  }

  /** Each returned species is an isotopomer of `base`, because each kept view is. */
  lemma ResultsAreIsotopomers(kept: seq<(Species, SpeciesView)>, filtered: seq<Species>, base: seq<Element>,
                              bonds: seq<Bond>, n: nat)
    requires Holds(kept, filtered)
    requires forall i | 0 <= i < |kept| ::
      |kept[i].1| == 1 && kept[i].1[0].bonds == bonds && IsIsotopomer(base, kept[i].1[0].labels, Carbon13, n)
    ensures forall r | r in filtered ::
      |r.molecule| == 1 &&
      MolViewOf(r.molecule[0]).bonds == bonds && IsIsotopomer(base, MolViewOf(r.molecule[0]).labels, Carbon13, n)
  {
    forall r | r in filtered
      ensures |r.molecule| == 1 &&
        MolViewOf(r.molecule[0]).bonds == bonds && IsIsotopomer(base, MolViewOf(r.molecule[0]).labels, Carbon13, n)
    {
      var i :| 0 <= i < |filtered| && filtered[i] == r;
      assert kept[i].1[0] == MolViewOf(r.molecule[0]);
    }
  }

  /** No two returned species are isomorphic, because no two kept views are. */
  lemma ResultsDistinct(kept: seq<(Species, SpeciesView)>, filtered: seq<Species>, iso: (SpeciesView, SpeciesView) -> bool)
    requires Holds(kept, filtered)
    requires forall i, j | 0 <= i < j < |kept| :: !iso(kept[i].1, kept[j].1)
    ensures forall i, j | 0 <= i < j < |filtered| ::
      !iso([MolViewOf(filtered[i].molecule[0])], [MolViewOf(filtered[j].molecule[0])])
  {
    forall i, j | 0 <= i < j < |filtered|
      ensures !iso([MolViewOf(filtered[i].molecule[0])], [MolViewOf(filtered[j].molecule[0])])
    {
      assert !iso(kept[i].1, kept[j].1);
    }
  }

  /** Every isotopomer of `base` is returned or isomorphic to a returned species. */
  lemma ResultsCover(kept: seq<(Species, SpeciesView)>, filtered: seq<Species>, base: seq<Element>,
                     bonds: seq<Bond>, n: nat, iso: (SpeciesView, SpeciesView) -> bool)
    requires Holds(kept, filtered)
    requires forall ls | IsIsotopomer(base, ls, Carbon13, n) ::
      exists k | 0 <= k < |kept| :: kept[k].1 == [MolView(ls, bonds)] || iso(kept[k].1, [MolView(ls, bonds)])
    ensures forall ls | IsIsotopomer(base, ls, Carbon13, n) ::
      exists k | 0 <= k < |filtered| ::
        MolViewOf(filtered[k].molecule[0]) == MolView(ls, bonds) ||
        iso([MolViewOf(filtered[k].molecule[0])], [MolView(ls, bonds)])
  {
    forall ls | IsIsotopomer(base, ls, Carbon13, n)
      ensures exists k | 0 <= k < |filtered| ::
        MolViewOf(filtered[k].molecule[0]) == MolView(ls, bonds) ||
        iso([MolViewOf(filtered[k].molecule[0])], [MolView(ls, bonds)])
    {
      var k :| 0 <= k < |kept| && (kept[k].1 == [MolView(ls, bonds)] || iso(kept[k].1, [MolView(ls, bonds)]));
      assert kept[k].1 == [MolViewOf(filtered[k].molecule[0])];
    }
  }

  /**
   * The candidates of `generateIsotopomers` that survive the duplicate filter,
   * paired with their views: new single-molecule species, pairwise non-isomorphic,
   * each an isotopomer of `mol`, and together covering every isotopomer of `mol`
   * up to isomorphism.
   */
  method Survivors(mol: Molecule, n: nat, iso: (SpeciesView, SpeciesView) -> bool) returns (kept: seq<(Species, SpeciesView)>)
    requires Distinct(mol.atoms)
    ensures forall i | 0 <= i < |kept| ::
      fresh(kept[i].0) && |kept[i].0.molecule| == 1 && kept[i].1 == [MolViewOf(kept[i].0.molecule[0])]
    ensures forall i, j | 0 <= i < j < |kept| :: !iso(kept[i].1, kept[j].1)
    ensures forall i | 0 <= i < |kept| ::
      |kept[i].1| == 1 && kept[i].1[0].bonds == mol.bonds &&
      IsIsotopomer(MolViewOf(mol).labels, kept[i].1[0].labels, Carbon13, n)
    ensures forall ls | IsIsotopomer(MolViewOf(mol).labels, ls, Carbon13, n) ::
      exists k | 0 <= k < |kept| :: kept[k].1 == [MolView(ls, mol.bonds)] || iso(kept[k].1, [MolView(ls, mol.bonds)])
    ensures MolViewOf(mol) == old(MolViewOf(mol))
  {
    ghost var base := MolViewOf(mol).labels;
    var spcs, expected := Candidates(mol, n);
    label Enumerated:
    kept := DedupCandidates(spcs, iso);
    forall p | 0 <= p < |spcs| ensures spcs[p].1 == [MolViewOf(spcs[p].0.molecule[0])] {
      assert old@Enumerated(MolViewOf(spcs[p].0.molecule[0])) == MolViewOf(spcs[p].0.molecule[0]);
    }
    assert MolViewOf(mol) == old(MolViewOf(mol)) && MolViewOf(mol).labels == base;
    KeptViews(spcs, kept, base, mol.bonds, n, iso, expected);
    forall i | 0 <= i < |kept|
      ensures fresh(kept[i].0) && |kept[i].0.molecule| == 1 && kept[i].1 == [MolViewOf(kept[i].0.molecule[0])]
    {
      assert kept[i] in spcs;
    }
  }

  /**
   * `generateIsotopomers(spc, N)`: every species returned is new, holds one molecule
   * that is the species' first molecule with between 1 and N carbon atoms relabelled
   * carbon-13; no two returned species are isomorphic; and every such relabelling is
   * returned or isomorphic to one that is.
   */
  method GenerateIsotopomers(spc: Species, n: nat, iso: (SpeciesView, SpeciesView) -> bool) returns (filtered: seq<Species>)
    requires |spc.molecule| > 0 && Distinct(spc.molecule[0].atoms)
    ensures forall r | r in filtered :: fresh(r) && |r.molecule| == 1
    ensures forall r | r in filtered ::
      MolViewOf(r.molecule[0]).bonds == spc.molecule[0].bonds &&
      IsIsotopomer(MolViewOf(spc.molecule[0]).labels, MolViewOf(r.molecule[0]).labels, Carbon13, n)
    ensures forall i, j | 0 <= i < j < |filtered| ::
      !iso([MolViewOf(filtered[i].molecule[0])], [MolViewOf(filtered[j].molecule[0])])
    ensures forall ls | IsIsotopomer(MolViewOf(spc.molecule[0]).labels, ls, Carbon13, n) ::
      exists k | 0 <= k < |filtered| ::
        MolViewOf(filtered[k].molecule[0]) == MolView(ls, spc.molecule[0].bonds) ||
        iso([MolViewOf(filtered[k].molecule[0])], [MolView(ls, spc.molecule[0].bonds)])
    ensures MolViewOf(spc.molecule[0]) == old(MolViewOf(spc.molecule[0]))
  {
    var kept := Survivors(spc.molecule[0], n, iso);
    filtered := seq(|kept|, i requires 0 <= i < |kept| => kept[i].0);
    assert Holds(kept, filtered);
    ResultsAreIsotopomers(kept, filtered, MolViewOf(spc.molecule[0]).labels, spc.molecule[0].bonds, n);
    ResultsDistinct(kept, filtered, iso);
    ResultsCover(kept, filtered, MolViewOf(spc.molecule[0]).labels, spc.molecule[0].bonds, n, iso);
    forall r | r in filtered ensures fresh(r) {
      var i :| 0 <= i < |filtered| && filtered[i] == r;
    }
  }
}
