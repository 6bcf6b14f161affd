/**
 * Isotopomer enumeration (`addIsotope`): from a molecule, every copy in which
 * between one and N atoms with the label's symbol carry the label.
 */
module Enumeration {
  import opened Structures

  /** Position `j` can receive the label `e`: it has `e`'s symbol and is not already `e`. */
  predicate Eligible(ls: seq<Element>, e: Element, j: nat)
    requires j < |ls|
  {
    ls[j].symbol == e.symbol && ls[j] != e
  }

  /**
   * The labellings `addIsotope(i, n, mol, mols, e)` appends, in order, for a molecule
   * labelled `ls`: nothing once `i == n`; otherwise, position by position, the copy
   * relabelled there followed by everything enumerated from that copy at depth `i + 1`.
   */
  function Enum(i: nat, n: nat, ls: seq<Element>, e: Element): seq<seq<Element>>
    requires i <= n
    decreases n - i, |ls| + 1
  {
    if i == n then [] else Upto(i, n, ls, e, |ls|)
  }

  /** What the position loop of one `addIsotope` call has appended after positions `0 .. j - 1`. */
  function Upto(i: nat, n: nat, ls: seq<Element>, e: Element, j: nat): seq<seq<Element>>
    requires i < n && j <= |ls|
    decreases n - i, j
  {
    if j == 0 then [] else Upto(i, n, ls, e, j - 1) + Block(i, n, ls, e, j - 1)
  }

  /** What the position loop appends at position `j`. */
  function Block(i: nat, n: nat, ls: seq<Element>, e: Element, j: nat): seq<seq<Element>>
    requires i < n && j < |ls|
    decreases n - i, j
  {
    if Eligible(ls, e, j) then [ls[j := e]] + Enum(i + 1, n, ls[j := e], e) else []
  }

  /** The positions at which `r` differs from `ls`. */
  function Changed(ls: seq<Element>, r: seq<Element>): set<nat> {
    set k: nat | k < |ls| && k < |r| && ls[k] != r[k]
  }

  /**
   * `r` is `ls` with between 1 and `bound` eligible positions relabelled to `e`
   * and every other position as it was.
   */
  predicate IsIsotopomer(ls: seq<Element>, r: seq<Element>, e: Element, bound: nat) {
    |r| == |ls| &&
    (forall k | 0 <= k < |ls| && r[k] != ls[k] :: Eligible(ls, e, k) && r[k] == e) &&
    1 <= |Changed(ls, r)| <= bound
  }

  lemma SubsetCard<T>(a: set<T>, b: set<T>)
    requires a <= b
    ensures |a| <= |b|
  {
    assert b == a + (b - a);
  }

  /** Relabelling position `j` first and then up to `bound` more gives up to `bound + 1` from `ls`. */
  lemma Compose(ls: seq<Element>, e: Element, j: nat, r: seq<Element>, bound: nat)
    requires j < |ls| && Eligible(ls, e, j)
    requires IsIsotopomer(ls[j := e], r, e, bound)
    ensures IsIsotopomer(ls, r, e, bound + 1)
  {
    var c := ls[j := e];
    assert r[j] == c[j];
    forall k | 0 <= k < |ls| && r[k] != ls[k] ensures Eligible(ls, e, k) && r[k] == e {
      if k != j {
        assert c[k] == ls[k];
      }
    }
    assert Changed(ls, r) <= Changed(c, r) + {j};
    SubsetCard(Changed(ls, r), Changed(c, r) + {j});
    assert j in Changed(ls, r);
  }

  /** A single relabelling is an isotopomer with one changed position. */
  lemma Single(ls: seq<Element>, e: Element, j: nat, bound: nat)
    requires j < |ls| && Eligible(ls, e, j) && 1 <= bound
    ensures IsIsotopomer(ls, ls[j := e], e, bound)
  {
    assert Changed(ls, ls[j := e]) == {j};
  }

  /** Soundness: everything enumerated from depth `i` carries between 1 and `n - i` new labels. */
  lemma {:induction false} EnumSound(i: nat, n: nat, ls: seq<Element>, e: Element)
    requires i <= n
    ensures forall r | r in Enum(i, n, ls, e) :: IsIsotopomer(ls, r, e, n - i)
    decreases n - i, |ls| + 1
  {
    if i < n {
      UptoSound(i, n, ls, e, |ls|);
    }
  }

  lemma {:induction false} UptoSound(i: nat, n: nat, ls: seq<Element>, e: Element, j: nat)
    requires i < n && j <= |ls|
    ensures forall r | r in Upto(i, n, ls, e, j) :: IsIsotopomer(ls, r, e, n - i)
    decreases n - i, j
  {
    if j > 0 {
      UptoSound(i, n, ls, e, j - 1);
      BlockSound(i, n, ls, e, j - 1);
    }
  }

  lemma {:induction false} BlockSound(i: nat, n: nat, ls: seq<Element>, e: Element, j: nat)
    requires i < n && j < |ls|
    ensures forall r | r in Block(i, n, ls, e, j) :: IsIsotopomer(ls, r, e, n - i)
    decreases n - i, j
  {
    if Eligible(ls, e, j) {
      var c := ls[j := e];
      EnumSound(i + 1, n, c, e);
      Single(ls, e, j, n - i);
      var deeper := Enum(i + 1, n, c, e);
      forall r | r in deeper ensures IsIsotopomer(ls, r, e, n - i) {
        Compose(ls, e, j, r, n - i - 1);
      }
    }
  }

  lemma {:induction false} BlockInUpto(i: nat, n: nat, ls: seq<Element>, e: Element, j: nat, upto: nat, r: seq<Element>)
    requires i < n && j < upto <= |ls|
    requires r in Block(i, n, ls, e, j)
    ensures r in Upto(i, n, ls, e, upto)
    decreases upto
  {
    if j < upto - 1 {
      BlockInUpto(i, n, ls, e, j, upto - 1, r);
    }
  }

  /** Completeness: every isotopomer with between 1 and `n - i` new labels is enumerated. */
  lemma {:induction false} EnumComplete(i: nat, n: nat, ls: seq<Element>, e: Element, r: seq<Element>)
    requires i <= n
    requires IsIsotopomer(ls, r, e, n - i)
    ensures r in Enum(i, n, ls, e)
    decreases n - i
  {
    var j :| j in Changed(ls, r);
    var c := ls[j := e];
    assert Eligible(ls, e, j) && r[j] == e;
    if r != c {
      assert Changed(c, r) == Changed(ls, r) - {j};
      assert Changed(c, r) != {} by {
        var k :| 0 <= k < |r| && r[k] != c[k];
        assert k in Changed(c, r);
      }
      forall k | 0 <= k < |c| && r[k] != c[k] ensures Eligible(c, e, k) && r[k] == e {
        assert k != j && c[k] == ls[k];
      }
      assert IsIsotopomer(c, r, e, n - (i + 1));
      EnumComplete(i + 1, n, c, e, r);
    }
    assert r in Block(i, n, ls, e, j);
    BlockInUpto(i, n, ls, e, j, |ls|, r);
  }

  /** The number of eligible positions among `0 .. j - 1`. */
  function CountEligible(ls: seq<Element>, e: Element, j: nat): nat
    requires j <= |ls|
  {
    if j == 0 then 0 else CountEligible(ls, e, j - 1) + (if Eligible(ls, e, j - 1) then 1 else 0)
  }

  /** With one label left to place, one labelling is appended per eligible position. */
  lemma {:induction false} LastLabelCount(n: nat, ls: seq<Element>, e: Element, j: nat)
    requires 0 < n && j <= |ls|
    ensures |Upto(n - 1, n, ls, e, j)| == CountEligible(ls, e, j)
  {
    if j > 0 {
      LastLabelCount(n, ls, e, j - 1);
      if Eligible(ls, e, j - 1) {
        assert Enum(n, n, ls[j - 1 := e], e) == [];
      }
    }
  }

  /** `addIsotope(0, 1, ...)` appends exactly one molecule per eligible atom. */
  lemma OneLabelCount(ls: seq<Element>, e: Element)
    ensures |Enum(0, 1, ls, e)| == CountEligible(ls, e, |ls|)
  {
    LastLabelCount(1, ls, e, |ls|);
  }

  /** A molecule without eligible atoms yields nothing, whatever the bound. */
  lemma {:induction false} NothingEligible(i: nat, n: nat, ls: seq<Element>, e: Element, j: nat)
    requires i < n && j <= |ls|
    requires forall k | 0 <= k < |ls| :: !Eligible(ls, e, k)
    ensures Upto(i, n, ls, e, j) == []
  {
    if j > 0 {
      NothingEligible(i, n, ls, e, j - 1);
    }
  }

  lemma NothingEligibleEnum(i: nat, n: nat, ls: seq<Element>, e: Element)
    requires i <= n
    requires forall k | 0 <= k < |ls| :: !Eligible(ls, e, k)
    ensures Enum(i, n, ls, e) == []
  {
    if i < n {
      NothingEligible(i, n, ls, e, |ls|);
    }
  }

  // ---------------------------------------------------------------- the imperative enumeration

  /** `list.index(x)`: the first position holding `x`. */
  function FirstIndex<T(==)>(s: seq<T>, x: T): (k: nat)
    requires x in s
    ensures k < |s| && s[k] == x && x !in s[..k]
  {
    if s[0] == x then 0 else assert x in s[1..]; 1 + FirstIndex(s[1..], x)
  }

  /** `mol.copy(deep=True)`: a fresh molecule with fresh atoms carrying the same elements. */
  method CopyMolecule(mol: Molecule) returns (m: Molecule)
    ensures fresh(m) && m.bonds == mol.bonds && |m.atoms| == |mol.atoms|
    ensures forall k | 0 <= k < |m.atoms| :: fresh(m.atoms[k])
    ensures Distinct(m.atoms)
    ensures MolViewOf(m) == MolViewOf(mol)
  {
    var atoms: seq<Atom> := [];
    var k := 0;
    while k < |mol.atoms|
      invariant 0 <= k <= |mol.atoms| && |atoms| == k
      invariant forall p | 0 <= p < k :: fresh(atoms[p]) && atoms[p].element == mol.atoms[p].element
      invariant Distinct(atoms)
    {
      var a := new Atom(mol.atoms[k].element);
      atoms := atoms + [a];
      k := k + 1;
    }
    m := new Molecule(atoms, mol.bonds);
    assert MolViewOf(m).labels == MolViewOf(mol).labels;
  }

  /** The molecules `out[from..]` are new and each holds its atoms once. */
  twostate predicate AllNew(new out: seq<Molecule>, from: nat)
    requires from <= |out|
  {
    forall k | from <= k < |out| :: fresh(out[k]) && Distinct(out[k].atoms)
  }

  /** The molecules `out[from..]` are labelled as `expected` says, with the bonds `bonds`. */
  ghost predicate LabelledAs(out: seq<Molecule>, from: nat, expected: seq<seq<Element>>, bonds: seq<Bond>)
    requires from <= |out|
    reads set k, a | 0 <= k < |out| && a in out[k].atoms :: a
  {
    |out| == from + |expected| &&
    forall k | from <= k < |out| :: MolViewOf(out[k]) == MolView(expected[k - from], bonds)
  }

  /** Labelled segments placed one after the other make one labelled segment. */
  lemma LabelledAsConcat(out: seq<Molecule>, out': seq<Molecule>, from: nat, xs: seq<seq<Element>>,
                         ys: seq<seq<Element>>, bonds: seq<Bond>)
    requires from <= |out| <= |out'| && out'[..|out|] == out
    requires LabelledAs(out, from, xs, bonds) && LabelledAs(out', |out|, ys, bonds)
    ensures LabelledAs(out', from, xs + ys, bonds)
  {
    forall k | from <= k < |out'| ensures MolViewOf(out'[k]) == MolView((xs + ys)[k - from], bonds) {
      if k < |out| {
        assert out'[k] == out[k];
      }
    }
  }

  /**
   * `addIsotope(i, n, mol, mols, e)`: appends to the accumulator `mols` a new molecule
   * for every labelling `Enum` lists, in that order; `mol` itself is not changed.
   */
  method AddIsotope(i: nat, n: nat, mol: Molecule, mols: seq<Molecule>, e: Element) returns (out: seq<Molecule>)
    requires i <= n
    requires Distinct(mol.atoms)
    ensures |mols| <= |out| && out[..|mols|] == mols
    ensures AllNew(out, |mols|)
    ensures LabelledAs(out, |mols|, Enum(i, n, MolViewOf(mol).labels, e), mol.bonds)
    ensures MolViewOf(mol) == old(MolViewOf(mol))
    decreases n - i, 1
  {
    out := mols;
    if i == n {
      return;
    }
    ghost var ls := MolViewOf(mol).labels;
    var j := 0;
    while j < |mol.atoms|
      invariant 0 <= j <= |mol.atoms|
      invariant |mols| <= |out| && out[..|mols|] == mols
      invariant AllNew(out, |mols|)
      invariant LabelledAs(out, |mols|, Upto(i, n, ls, e, j), mol.bonds)
      invariant MolViewOf(mol).labels == ls
    {
      var at := mol.atoms[j];
      if at.element.symbol == e.symbol && at.element != e {
        ghost var before := out;
        out := AddAt(i, n, mol, j, out, e);
        LabelledAsConcat(before, out, |mols|, Upto(i, n, ls, e, j), Block(i, n, ls, e, j), mol.bonds);
      } else {
        assert Block(i, n, ls, e, j) == [];
      }
      j := j + 1;
    }
    assert Enum(i, n, ls, e) == Upto(i, n, ls, e, |mol.atoms|);
  }

  /**
   * The copy made for an eligible atom: `mol.copy(deep=True)` with the atom at
   * `mol.atoms.index(at)` relabelled.
   */
  method RelabelledCopy(mol: Molecule, j: nat, e: Element) returns (isotopomer: Molecule)
    requires j < |mol.atoms| && Distinct(mol.atoms)
    ensures fresh(isotopomer) && Distinct(isotopomer.atoms)
    ensures MolViewOf(isotopomer) == MolView(MolViewOf(mol).labels[j := e], mol.bonds)
    ensures MolViewOf(mol) == old(MolViewOf(mol))
  {
    ghost var ls := MolViewOf(mol).labels;
    var at := mol.atoms[j];
    isotopomer := CopyMolecule(mol);
    var idx := FirstIndex(mol.atoms, at);
    assert idx == j;
    assert isotopomer.atoms[idx] !in MolAtoms(mol);
    isotopomer.atoms[idx].element := e;
    assert MolViewOf(mol).labels == ls;
    assert MolViewOf(isotopomer).labels == ls[j := e];
  }

  /**
   * One pass of the position loop of `addIsotope` at an eligible atom: copy the
   * molecule, relabel that atom in the copy, append the copy and recurse into it.
   */
  method AddAt(i: nat, n: nat, mol: Molecule, j: nat, mols: seq<Molecule>, e: Element) returns (out: seq<Molecule>)
    requires i < n && j < |mol.atoms| && Distinct(mol.atoms)
    requires Eligible(MolViewOf(mol).labels, e, j)
    ensures |mols| <= |out| && out[..|mols|] == mols
    ensures AllNew(out, |mols|)
    ensures LabelledAs(out, |mols|, Block(i, n, MolViewOf(mol).labels, e, j), mol.bonds)
    ensures MolViewOf(mol) == old(MolViewOf(mol))
    decreases n - i, 0
  {
    ghost var ls := MolViewOf(mol).labels;
    var isotopomer := RelabelledCopy(mol, j, e);
    out := mols + [isotopomer];
    assert LabelledAs(out, |mols|, [ls[j := e]], mol.bonds);
    ghost var withCopy := out;
    out := AddIsotope(i + 1, n, isotopomer, out, e);
    assert out[..|mols|] == mols by {
      assert out[..|withCopy|] == withCopy;
      assert withCopy[..|mols|] == mols;
    }
    LabelledAsConcat(withCopy, out, |mols|, [ls[j := e]], Enum(i + 1, n, ls[j := e], e), mol.bonds);
    assert MolViewOf(mol).labels == ls;
    assert Block(i, n, ls, e, j) == [ls[j := e]] + Enum(i + 1, n, ls[j := e], e);
  }
}
