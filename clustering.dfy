/**
 * `cluster`: group species or reactions into families whose members differ only
 * in their isotope labels. The grouping is specified by a pure fold over the
 * input list, generic in the comparison; the method runs the source's loop with
 * the in-place comparison `compareIsotopomers`.
 */
module Clustering {
  import opened Outcomes
  import opened Structures
  import opened Stripping

  /** All clusters side by side. */
  function Flatten<T>(cs: seq<seq<T>>): seq<T> {
    if cs == [] then [] else cs[0] + Flatten(cs[1..])
  }

  lemma {:induction false} FlattenSnoc<T>(cs: seq<seq<T>>, c: seq<T>)
    ensures multiset(Flatten(cs + [c])) == multiset(Flatten(cs)) + multiset(c)
  {
    if cs == [] {
      assert Flatten([c]) == c + Flatten([]);
    } else {
      assert (cs + [c])[1..] == cs[1..] + [c];
      FlattenSnoc(cs[1..], c);
    }
  }

  lemma {:induction false} FlattenUpdate<T>(cs: seq<seq<T>>, k: nat, x: T)
    requires k < |cs|
    ensures multiset(Flatten(cs[k := cs[k] + [x]])) == multiset(Flatten(cs)) + multiset{x}
  {
    if k == 0 {
      assert cs[k := cs[k] + [x]][1..] == cs[1..];
    } else {
      assert cs[k := cs[k] + [x]][1..] == cs[1..][k - 1 := cs[k] + [x]];
      FlattenUpdate(cs[1..], k - 1, x);
    }
  }

  /** No cluster is empty, so each has a first member to compare against. */
  predicate NonEmpty<T>(cs: seq<seq<T>>) {
    forall i | 0 <= i < |cs| :: |cs[i]| > 0
  }

  /**
   * The inner `for cluster in clusters` loop from position `k`: `x` joins the first
   * cluster whose first member it matches; a comparison that fails ends the run
   * with its error; when no cluster matches, `x` starts a new one.
   */
  function InsertFrom<T>(cs: seq<seq<T>>, x: T, cmp: (T, T) -> Result<bool>, k: nat): Result<seq<seq<T>>>
    requires k <= |cs| && NonEmpty(cs)
    decreases |cs| - k
  {
    if k == |cs| then Ok(cs + [[x]])
    else
      match cmp(cs[k][0], x)
      case Err(e) => Err(e)
      case Ok(same) => if same then Ok(cs[k := cs[k] + [x]]) else InsertFrom(cs, x, cmp, k + 1)
  }

  /** The outer loop: the last unclustered object is popped and inserted, until none is left. */
  function Fold<T>(cs: seq<seq<T>>, xs: seq<T>, cmp: (T, T) -> Result<bool>): Result<seq<seq<T>>>
    requires NonEmpty(cs)
    decreases |xs|
  {
    if xs == [] then Ok(cs)
    else
      match InsertFrom(cs, xs[|xs| - 1], cmp, 0)
      case Err(e) => Err(e)
      case Ok(cs') =>
        InsertNonEmpty(cs, xs[|xs| - 1], cmp, 0);
        Fold(cs', xs[..|xs| - 1], cmp)
  }

  /** `cluster(objList)`, specified. */
  function ClusterSpec<T>(xs: seq<T>, cmp: (T, T) -> Result<bool>): Result<seq<seq<T>>> {
    Fold([], xs, cmp)
  }

  lemma {:induction false} InsertNonEmpty<T>(cs: seq<seq<T>>, x: T, cmp: (T, T) -> Result<bool>, k: nat)
    requires k <= |cs| && NonEmpty(cs)
    ensures InsertFrom(cs, x, cmp, k).Ok? ==> NonEmpty(InsertFrom(cs, x, cmp, k).value)
    decreases |cs| - k
  {
    if k == |cs| {
      assert (cs + [[x]])[k] == [x];
    } else if cmp(cs[k][0], x) == Ok(true) {
      assert cs[k := cs[k] + [x]][k] == cs[k] + [x];
    } else if cmp(cs[k][0], x) == Ok(false) {
      InsertNonEmpty(cs, x, cmp, k + 1);
    }
  }

  /**
   * What a correct clustering looks like: every cluster is non-empty, every later
   * member of a cluster matched its first member, and the first members of two
   * clusters were compared and found not to match (the later against the earlier).
   */
  ghost predicate Good<T>(cs: seq<seq<T>>, cmp: (T, T) -> Result<bool>) {
    NonEmpty(cs) &&
    (forall i, m | 0 <= i < |cs| && 0 < m < |cs[i]| :: cmp(cs[i][0], cs[i][m]) == Ok(true)) &&
    (forall i, j | 0 <= i < j < |cs| :: cmp(cs[i][0], cs[j][0]) == Ok(false))
  }

  /** A new cluster for an object that matched no first member keeps a clustering correct. */
  lemma GoodAppend<T>(cs: seq<seq<T>>, x: T, cmp: (T, T) -> Result<bool>)
    requires Good(cs, cmp)
    requires forall i | 0 <= i < |cs| :: cmp(cs[i][0], x) == Ok(false)
    ensures Good(cs + [[x]], cmp)
  {
    var r := cs + [[x]];
    assert forall i | 0 <= i < |cs| :: r[i] == cs[i];
    assert r[|cs|] == [x];
  }

  /** Joining a cluster whose first member matched keeps a clustering correct. */
  lemma GoodJoin<T>(cs: seq<seq<T>>, k: nat, x: T, cmp: (T, T) -> Result<bool>)
    requires k < |cs| && Good(cs, cmp) && cmp(cs[k][0], x) == Ok(true)
    ensures Good(cs[k := cs[k] + [x]], cmp)
  {
    var r := cs[k := cs[k] + [x]];
    assert forall i | 0 <= i < |cs| :: r[i][0] == cs[i][0];
    forall i, m | 0 <= i < |r| && 0 < m < |r[i]| ensures cmp(r[i][0], r[i][m]) == Ok(true) {
      if i != k || m < |cs[k]| {
        assert r[i][m] == cs[i][m];
      }
    }
  }

  /** Inserting keeps a clustering correct and adds exactly the inserted object. */
  lemma {:induction false} InsertGood<T>(cs: seq<seq<T>>, x: T, cmp: (T, T) -> Result<bool>, k: nat)
    requires k <= |cs| && Good(cs, cmp)
    requires forall i | 0 <= i < k :: cmp(cs[i][0], x) == Ok(false)
    ensures InsertFrom(cs, x, cmp, k).Ok? ==>
      Good(InsertFrom(cs, x, cmp, k).value, cmp) &&
      multiset(Flatten(InsertFrom(cs, x, cmp, k).value)) == multiset(Flatten(cs)) + multiset{x}
    decreases |cs| - k
  {
    if k == |cs| {
      GoodAppend(cs, x, cmp);
      FlattenSnoc(cs, [x]);
    } else if cmp(cs[k][0], x) == Ok(true) {
      GoodJoin(cs, k, x, cmp);
      FlattenUpdate(cs, k, x);
    } else if cmp(cs[k][0], x) == Ok(false) {
      InsertGood(cs, x, cmp, k + 1);
    }
  }

  lemma {:induction false} FoldGood<T>(cs: seq<seq<T>>, xs: seq<T>, cmp: (T, T) -> Result<bool>)
    requires Good(cs, cmp)
    ensures Fold(cs, xs, cmp).Ok? ==>
      Good(Fold(cs, xs, cmp).value, cmp) &&
      multiset(Flatten(Fold(cs, xs, cmp).value)) == multiset(Flatten(cs)) + multiset(xs)
    decreases |xs|
  {
    if xs != [] {
      var x := xs[|xs| - 1];
      InsertGood(cs, x, cmp, 0);
      var ins := InsertFrom(cs, x, cmp, 0);
      if ins.Ok? {
        FoldGood(ins.value, xs[..|xs| - 1], cmp);
        assert xs == xs[..|xs| - 1] + [x];
      }
    }
  }

  /**
   * A successful clustering is correct, and it is a partition of the input: the
   * clusters together hold exactly the input objects, as many times each.
   */
  lemma ClusterCorrect<T>(xs: seq<T>, cmp: (T, T) -> Result<bool>)
    ensures ClusterSpec(xs, cmp).Ok? ==>
      Good(ClusterSpec(xs, cmp).value, cmp) &&
      multiset(Flatten(ClusterSpec(xs, cmp).value)) == multiset(xs)
  {
    FoldGood([], xs, cmp);
  }

  /** A comparison that never fails on the objects involved. */
  ghost predicate Total<T>(xs: seq<T>, cmp: (T, T) -> Result<bool>) {
    forall x, y | x in xs && y in xs :: cmp(x, y).Ok?
  }

  lemma {:induction false} InsertOk<T>(cs: seq<seq<T>>, x: T, cmp: (T, T) -> Result<bool>, k: nat)
    requires k <= |cs| && NonEmpty(cs)
    requires forall i | k <= i < |cs| :: cmp(cs[i][0], x).Ok?
    ensures InsertFrom(cs, x, cmp, k).Ok?
    decreases |cs| - k
  {
    if k < |cs| && cmp(cs[k][0], x) == Ok(false) {
      InsertOk(cs, x, cmp, k + 1);
    }
  }

  /** Every member of every cluster is one of `all`. */
  predicate Within<T(==)>(cs: seq<seq<T>>, all: seq<T>) {
    forall i, m | 0 <= i < |cs| && 0 <= m < |cs[i]| :: cs[i][m] in all
  }

  lemma {:induction false} InsertWithin<T>(cs: seq<seq<T>>, x: T, cmp: (T, T) -> Result<bool>, k: nat, all: seq<T>)
    requires k <= |cs| && NonEmpty(cs) && Within(cs, all) && x in all
    ensures InsertFrom(cs, x, cmp, k).Ok? ==> Within(InsertFrom(cs, x, cmp, k).value, all)
    decreases |cs| - k
  {
    if k == |cs| {
      var r := cs + [[x]];
      assert forall i | 0 <= i < |cs| :: r[i] == cs[i];
    } else if cmp(cs[k][0], x) == Ok(true) {
      var r := cs[k := cs[k] + [x]];
      assert forall m | 0 <= m < |cs[k]| :: r[k][m] == cs[k][m];
    } else if cmp(cs[k][0], x) == Ok(false) {
      InsertWithin(cs, x, cmp, k + 1, all);
    }
  }

  lemma {:induction false} FoldOk<T>(cs: seq<seq<T>>, xs: seq<T>, all: seq<T>, cmp: (T, T) -> Result<bool>)
    requires NonEmpty(cs) && Within(cs, all)
    requires forall x | x in xs :: x in all
    requires Total(all, cmp)
    ensures Fold(cs, xs, cmp).Ok?
    decreases |xs|
  {
    if xs != [] {
      var x := xs[|xs| - 1];
      InsertOk(cs, x, cmp, 0);
      InsertNonEmpty(cs, x, cmp, 0);
      InsertWithin(cs, x, cmp, 0, all);
      FoldOk(InsertFrom(cs, x, cmp, 0).value, xs[..|xs| - 1], all, cmp);
    }
  }

  /** When no comparison among the inputs fails, clustering succeeds. */
  lemma ClusterOk<T>(xs: seq<T>, cmp: (T, T) -> Result<bool>)
    requires Total(xs, cmp)
    ensures ClusterSpec(xs, cmp).Ok?
  {
    FoldOk([], xs, xs, cmp);
  }

  /**
   * When the comparison decides an equivalence relation on the inputs, objects in
   * different clusters are not equivalent: each cluster is a whole equivalence class.
   */
  lemma ClustersSeparate<T>(xs: seq<T>, cmp: (T, T) -> Result<bool>, same: (T, T) -> bool,
                            i: nat, j: nat, m: nat, p: nat)
    requires forall x, y | x in xs && y in xs :: cmp(x, y) == Ok(same(x, y))
    requires forall x | x in xs :: same(x, x)
    requires forall x, y | x in xs && y in xs && same(x, y) :: same(y, x)
    requires forall x, y, z | x in xs && y in xs && z in xs && same(x, y) && same(y, z) :: same(x, z)
    requires ClusterSpec(xs, cmp).Ok?
    requires var cs := ClusterSpec(xs, cmp).value; i < j < |cs| && m < |cs[i]| && p < |cs[j]|
    ensures var cs := ClusterSpec(xs, cmp).value; !same(cs[i][m], cs[j][p])
  {
    var cs := ClusterSpec(xs, cmp).value;
    ClusterCorrect(xs, cmp);
    forall c, q | 0 <= c < |cs| && 0 <= q < |cs[c]| ensures cs[c][q] in xs {
      assert cs[c][q] in multiset(Flatten(cs)) by {
        FlattenHas(cs, c, q);
      }
    }
    var hi, hj := cs[i][0], cs[j][0];
    assert same(hi, cs[i][m]) by {
      if m > 0 {
        assert cmp(hi, cs[i][m]) == Ok(true);
      }
    }
    assert same(hj, cs[j][p]) by {
      if p > 0 {
        assert cmp(hj, cs[j][p]) == Ok(true);
      }
    }
    assert cmp(hi, hj) == Ok(false);
  }

  lemma {:induction false} FlattenHas<T>(cs: seq<seq<T>>, c: nat, q: nat)
    requires c < |cs| && q < |cs[c]|
    ensures cs[c][q] in Flatten(cs)
  {
    if c > 0 {
      FlattenHas(cs[1..], c - 1, q);
    }
  }

  // ---------------------------------------------------------------- the loop over heap objects

  /**
   * The comparison `cluster` applies, read against the labelling `s` the atoms
   * carry throughout: a TypeError unless both objects are species or reactions,
   * otherwise whether their isotope-free views are isomorphic.
   */
  function Compare(iso: (ObjView, ObjView) -> bool, s: map<Atom, Element>): (Labeled, Labeled) -> Result<bool> {
    (x: Labeled, y: Labeled) => if x.Other? || y.Other? then Err(TypeError) else Ok(SameFamily(iso, s, x, y))
  }

  lemma AtomsInList(os: seq<Labeled>, o: Labeled)
    requires o in os
    ensures AtomsOf(o) <= AllAtoms(os)
  {
  }

  /** Two labellings that agree on the atoms of `x` and `y` give the same verdict. */
  lemma SameFamilyAgree(iso: (ObjView, ObjView) -> bool, s1: map<Atom, Element>, s2: map<Atom, Element>, x: Labeled, y: Labeled)
    requires forall a | a in AtomsOf(x) + AtomsOf(y) :: Lookup(s1, a) == Lookup(s2, a)
    ensures SameFamily(iso, s1, x, y) == SameFamily(iso, s2, x, y)
  {
    ViewWithAgree(x, s1, s2);
    ViewWithAgree(y, s1, s2);
  }

  /** The atoms of `os` carry the elements `s` records for them. */
  ghost predicate Labelled(os: seq<Labeled>, s: map<Atom, Element>)
    reads AllAtoms(os)
  {
    forall a | a in AllAtoms(os) :: a in s && a.element == s[a]
  }

  /**
   * One pass of the inner loop: compare `candidate` with the first member of each
   * cluster in turn (in place, restoring the labels), and add it to the first
   * cluster it matches or else as a new cluster.
   */
  method Place(clusters: seq<seq<Labeled>>, candidate: Labeled, iso: (ObjView, ObjView) -> bool,
               ghost objList: seq<Labeled>, ghost s: map<Atom, Element>)
    returns (r: Result<seq<seq<Labeled>>>)
    requires NonEmpty(clusters) && Within(clusters, objList) && candidate in objList
    requires Labelled(objList, s)
    modifies AllAtoms(objList)
    ensures r == InsertFrom(clusters, candidate, Compare(iso, s), 0)
    ensures r.Ok? ==> Labelled(objList, s)
  {
    ghost var cmp := Compare(iso, s);
    AtomsInList(objList, candidate);
    var k := 0;
    while k < |clusters|
      invariant 0 <= k <= |clusters|
      invariant InsertFrom(clusters, candidate, cmp, 0) == InsertFrom(clusters, candidate, cmp, k)
      invariant Labelled(objList, s)
    {
      var head := clusters[k][0];
      assert head in objList;
      AtomsInList(objList, head);
      ghost var t := Snap(AtomsOf(head) + AtomsOf(candidate));
      var same := CompareIsotopomers(head, candidate, iso);
      if same.Err? {
        return Err(same.error);
      }
      SameFamilyAgree(iso, t, s, head, candidate);
      if same.value {
        return Ok(clusters[k := clusters[k] + [candidate]]);
      }
      k := k + 1;
    }
    return Ok(clusters + [[candidate]]);
  }

  /**
   * `cluster(objList)`: pop the last unclustered object and place it, until none is
   * left. The outcome is the specified clustering under the labelling the atoms
   * carried on entry, and on success every atom carries that labelling again.
   */
  method Cluster(objList: seq<Labeled>, iso: (ObjView, ObjView) -> bool) returns (r: Result<seq<seq<Labeled>>>)
    modifies AllAtoms(objList)
    ensures r == ClusterSpec(objList, Compare(iso, old(Snap(AllAtoms(objList)))))
    ensures r.Ok? ==> forall a | a in AllAtoms(objList) :: a.element == old(a.element)
  {
    ghost var s := Snap(AllAtoms(objList));
    ghost var cmp := Compare(iso, s);
    var unclustered := objList;
    var clusters: seq<seq<Labeled>> := [];
    while unclustered != []
      invariant unclustered == objList[..|unclustered|]
      invariant NonEmpty(clusters) && Within(clusters, objList)
      invariant ClusterSpec(objList, cmp) == Fold(clusters, unclustered, cmp)
      invariant Labelled(objList, s)
      decreases |unclustered|
    {
      var candidate := unclustered[|unclustered| - 1];
      unclustered := unclustered[..|unclustered| - 1];
      var placed := Place(clusters, candidate, iso, objList, s);
      if placed.Err? {
        return Err(placed.error);
      }
      InsertNonEmpty(clusters, candidate, cmp, 0);
      InsertWithin(clusters, candidate, cmp, 0, objList);
      clusters := placed.value;
    }
    return Ok(clusters);
  }

  /**
   * When every object is a species or a reaction and the isomorphism test is an
   * equivalence, `cluster` succeeds and its clusters are exactly the isotopomer
   * families: together they hold each object once, members of one cluster are
   * isotopomers of its first member, and members of different clusters are not
   * isotopomers of each other.
   */
  lemma ClusterFamilies(objList: seq<Labeled>, iso: (ObjView, ObjView) -> bool, s: map<Atom, Element>,
                        i: nat, j: nat, m: nat, p: nat)
    requires forall o | o in objList :: !o.Other?
    requires forall v :: iso(v, v)
    requires forall v, w :: iso(v, w) ==> iso(w, v)
    requires forall u, v, w :: iso(u, v) && iso(v, w) ==> iso(u, w)
    ensures ClusterSpec(objList, Compare(iso, s)).Ok?
    ensures var cs := ClusterSpec(objList, Compare(iso, s)).value;
      multiset(Flatten(cs)) == multiset(objList) && Good(cs, Compare(iso, s))
    ensures var cs := ClusterSpec(objList, Compare(iso, s)).value;
      i < j < |cs| && m < |cs[i]| && p < |cs[j]| ==> !SameFamily(iso, s, cs[i][m], cs[j][p])
  {
    var cmp := Compare(iso, s);
    var same := (x: Labeled, y: Labeled) => SameFamily(iso, s, x, y);
    ClusterOk(objList, cmp);
    ClusterCorrect(objList, cmp);
    var cs := ClusterSpec(objList, cmp).value;
    if i < j < |cs| && m < |cs[i]| && p < |cs[j]| {
      ClustersSeparate(objList, cmp, same, i, j, m, p);
    }
  }
}
