# Isotopomer handling in RMG-Py, modelled in Dafny

This project models the isotope tools of RMG-Py (`rmgpy/tools/isotopes.py`). Their job is to:

- take one species and generate its carbon-13 isotopomers;
- cluster species or reactions that differ only in isotopic labelling;
- strip isotope labels off atoms temporarily and put them back;
- decide whether a species or reaction is enriched; and
- rescale the A-factors of a cluster of isotopomer reactions so that they agree with the unlabelled reaction's rate, up to the ratio of reaction symmetry numbers.

Modules, one file each:

- `Outcomes` (`outcomes.dfy`): `Result` and `Option`, plus the Python exceptions modelled (`TypeError`, `IndexError`, `ZeroDivisionError`).
- `Structures` (`structures.dfy`) holds the data model:
  - an `Element` value (symbol, isotope; isotope `-1` is the default element);
  - heap classes `Atom` (its `element` is mutable), `Molecule`, `Species` and `Reaction` (its A-factor `a` is mutable);
  - value *views* of labelled objects, taken from a snapshot map from atoms to elements;
  - the isotope-free view `StripView`.
- `Enumeration` (`enumeration.dfy`): `addIsotope`, the recursive isotopomer enumeration.
- `Generation` (`generation.dfy`): `generateIsotopomers`, with its deduplication loop.
- `Stripping` (`stripping.dfy`): in-place `removeIsotope`, `redoIsotope` and `compareIsotopomers`.
- `Clustering` (`clustering.dfy`): `cluster`.
- `Enrichment` (`enrichment.dfy`): `isEnriched`, and the copy-mode strip used as a fallback reference.
- `Kinetics` (`kinetics.dfy`): `__getReactionSymmetryNumber` and `correctAFactorsOfIsotopomers`.

Mutating code is modelled imperatively:

- `addIsotope` and the deduplication loop;
- the in-place strip and restore of atom elements;
- the clustering loop;
- the A-factor update loop.

Three groups of methods are proved equal to a pure specification function, and their properties are proved as lemmas about that function:

- `Enumeration.AddIsotope`, against `Enum`;
- `Clustering.Cluster` and `Clustering.Place`, against `ClusterSpec` and `InsertFrom`;
- the A-factor methods of `Kinetics`, against `Corrected`, `Reference` and `FirstUnenriched`.

The other methods state their properties directly in their own contracts, with no specification function:

- the strip and restore methods of `Stripping`: default elements afterwards, and the restore-log predicate `IsStripLog`;
- `Generation.Dedup` and `Generation.GenerateIsotopomers`: pairwise non-isomorphism and coverage.

Everything outside the core is a parameter:

- graph isomorphism: `iso`;
- species symmetry numbers: `sigma`, positive reals;
- isotope masses: `mass`;
- `np.isclose` / `np.allclose`: `close`;
- resonance-structure generation: `regenerate`.

## Model

| member | source | states |
|---|---|---|
| Enumeration.EnumSound | rmgpy/tools/isotopes.py:161-180 | every label sequence `addIsotope` produces from depth `i` to `N` is an isotopomer of the input: same length, between one and `N - i` eligible atoms relabelled to the target isotope, every other atom as it was |
| Enumeration.EnumComplete | rmgpy/tools/isotopes.py:161-180 | conversely, every such isotopomer is among the sequences produced |
| Enumeration.OneLabelCount | rmgpy/tools/isotopes.py:171-180 | with `N = 1` the number of molecules produced equals the number of eligible, not-yet-labelled atoms of the element's symbol |
| Enumeration.NothingEligibleEnum | rmgpy/tools/isotopes.py:173-175 | when no atom of the target symbol is unlabelled, nothing is produced |
| Enumeration.FirstIndex | rmgpy/tools/isotopes.py:178 | the index lookup `mol.atoms.index(at)` returns the position of `at` among distinct atoms |
| Enumeration.CopyMolecule | rmgpy/tools/isotopes.py:177 | a deep copy has fresh atoms, is distinct, and has the original's labels and bonds |
| Enumeration.RelabelledCopy | rmgpy/tools/isotopes.py:177-178 | the copy differs from the original's labels only at the chosen position, which now carries the target element |
| Enumeration.AddIsotope | rmgpy/tools/isotopes.py:161-180 | only appends fresh molecules to `mols`; their label sequences are exactly `Enum(i, N, labels, element)`, in order, with the original's bonds; the input molecule is left unchanged |
| Enumeration.AddAt | rmgpy/tools/isotopes.py:174-180 | one iteration of the atom loop appends the sub-enumeration of the relabelled copy and keeps everything appended before |
| Generation.IsUnique | rmgpy/tools/isotopes.py:149-153 | a candidate is unique iff no species already kept is isomorphic to it |
| Generation.Dedup | rmgpy/tools/isotopes.py:146-154 | the kept species are pairwise non-isomorphic; every candidate is kept or is isomorphic to a kept one, and every candidate isomorphic to itself is isomorphic to a kept one; what is kept is a sub-multiset of the candidates |
| Generation.Candidates | rmgpy/tools/isotopes.py:132-143 | one fresh single-molecule species per enumerated label sequence of the first molecule, in order, with its bonds; the molecule is left unchanged |
| Generation.GenerateIsotopomers | rmgpy/tools/isotopes.py:126-159 | results are fresh single-molecule species; each is an isotopomer of the input's first molecule with its bonds; results are pairwise non-isomorphic; every isotopomer of the first molecule is returned (as a result's molecule) or is isomorphic to one that is; the input is left unchanged |
| Generation.ResultsAreIsotopomers | rmgpy/tools/isotopes.py:137-159 | every kept species came from the enumeration, so it is an isotopomer of the input |
| Generation.ResultsDistinct | rmgpy/tools/isotopes.py:146-154 | no two kept species are isomorphic |
| Generation.ResultsCover | rmgpy/tools/isotopes.py:146-154 | every enumerated isotopomer is represented by a kept species |
| Generation.Survivors | rmgpy/tools/isotopes.py:146-159 | the species that survive deduplication are fresh, pairwise non-isomorphic isotopomers of the molecule that cover every isotopomer |
| Clustering.ClusterCorrect | rmgpy/tools/isotopes.py:221-245 | if clustering succeeds, every cluster is non-empty, every member compares equal to its cluster's head, heads of different clusters compare unequal, and the clusters together are a permutation of the input |
| Clustering.InsertGood | rmgpy/tools/isotopes.py:238-243 | placing one candidate (first matching cluster, else a new cluster) keeps the clustering well-formed |
| Clustering.FoldGood | rmgpy/tools/isotopes.py:236-243 | popping every candidate from the back keeps the clustering well-formed |
| Clustering.ClusterOk | rmgpy/tools/isotopes.py:221-245 | clustering fails only if a comparison fails: with a total comparison it always succeeds |
| Clustering.ClustersSeparate | rmgpy/tools/isotopes.py:221-245 | when the comparison is an equivalence, members of different clusters are not equivalent |
| Clustering.Place | rmgpy/tools/isotopes.py:238-243 | the heap loop over clusters returns what the pure insertion returns; on success the labelling is as before |
| Clustering.Cluster | rmgpy/tools/isotopes.py:221-245 | the heap method returns the pure clustering under the labelling it started from; on success every atom's element is as before |
| Clustering.ClusterFamilies | rmgpy/tools/isotopes.py:221-245 | for species or reactions, with isomorphism an equivalence: clustering succeeds; clusters are a permutation of the input; members of different clusters are not isotopomers of each other |
| Stripping.StripAtoms | rmgpy/tools/isotopes.py:264-267 | every atom of a molecule becomes its symbol's default element; the returned log pairs each atom that was labelled with its old element, and nothing else |
| Stripping.RemoveIsotopeSpecies | rmgpy/tools/isotopes.py:261-268 | in-place strip of all molecules of a species, with a complete and exact restore log |
| Stripping.StripSpeciesList | rmgpy/tools/isotopes.py:287-294 | in-place strip of a list of species; the logs concatenate into one complete restore log |
| Stripping.StripLogConcat | rmgpy/tools/isotopes.py:286-296 | the log of a second strip, taken after a first one, appended to the first log is a complete restore log of both atom sets, each shared atom logged once |
| Stripping.RemoveIsotopeReaction | rmgpy/tools/isotopes.py:284-296 | in-place strip of all reactants and products of a reaction, with a complete restore log; the log is the reactants' restore log followed by entries for product atoms that no reactant shares |
| Stripping.LogSplit | rmgpy/tools/isotopes.py:286-296 | the concatenated log of two strips splits after the first log: the prefix is the first strip's restore log, and the rest names only atoms of the second set that the first strip did not reach |
| Stripping.RemoveIsotope | rmgpy/tools/isotopes.py:247-312 | in-place strip: TypeError iff the object is neither a species nor a reaction; otherwise all its atoms are default and the log is a complete restore log |
| Stripping.RedoIsotope | rmgpy/tools/isotopes.py:314-320 | with distinct atoms in the log, each logged atom gets back its logged element; only logged atoms may change |
| Stripping.StripThenRestore | rmgpy/tools/isotopes.py:247-320 | an in-place strip followed by a restore from its log gives every atom of the object back its original element; a TypeError for other objects, with nothing changed |
| Stripping.ViewAfterStrip | rmgpy/tools/isotopes.py:336 | after an in-place strip the object's view is the isotope-free view of its old view |
| Stripping.CompareIsotopomers | rmgpy/tools/isotopes.py:322-339 | on success the result is isomorphism of the two isotope-free views and both objects get their labels back; TypeError when either is of another kind, with the first object already stripped if only the second is foreign |
| Enrichment.ScanFrom | rmgpy/tools/isotopes.py:482-485 | the early-return atom scan is true iff some atom from that position on carries a non-default isotope whose mass differs from the default's |
| Enrichment.SpeciesIsEnriched | rmgpy/tools/isotopes.py:481-485 | IndexError iff the species has no molecule; otherwise true iff its first molecule has an enriched atom |
| Enrichment.VerdictList | rmgpy/tools/isotopes.py:487-491 | the per-species verdicts, one per species in order; IndexError iff some species has no molecule |
| Enrichment.IsEnriched | rmgpy/tools/isotopes.py:476-494 | TypeError for other objects; IndexError for an empty species; a species is enriched iff its first molecule is; a reaction iff any reactant or product is |
| Enrichment.StrippedNotEnriched | rmgpy/tools/isotopes.py:476-494 | an isotope-free object is never reported enriched |
| Enrichment.StripCopyList | rmgpy/tools/isotopes.py:300-308 | the copy-mode strip of a species list keeps length and order, each from the stripped first molecule; IndexError iff some species has no molecule |
| Enrichment.StripCopy | rmgpy/tools/isotopes.py:269-310 | the copy-mode strip fails exactly when the object is neither a species nor a reaction (TypeError) or has a species with no molecule (IndexError); a species becomes the resonance structures regenerated from its stripped first molecule; a reaction keeps its kind, and each of its reactants and products, in order, is regenerated from that species' stripped first molecule |
| Enrichment.StripCopyNotEnriched | rmgpy/tools/isotopes.py:269-310 | when resonance regeneration keeps the given structure first, the copy-mode strip succeeds exactly when `isEnriched` does, and its result is not enriched |
| Enrichment.ReactionNotEnriched | rmgpy/tools/isotopes.py:486-492 | a reaction none of whose species is enriched is not enriched |
| Kinetics.ReactionSymmetryNumber | rmgpy/tools/isotopes.py:495-515 | the two loops compute the reactant symmetry product divided by the product symmetry product |
| Kinetics.ProductAppend | rmgpy/tools/isotopes.py:507-513 | the symmetry product of a concatenation is the product of the parts |
| Kinetics.FirstUnenriched | rmgpy/tools/isotopes.py:451-455 | the search returns the first reaction not enriched, having found all before it enriched; or reports none; or fails with the first error `isEnriched` raises |
| Kinetics.FindUnlabeled | rmgpy/tools/isotopes.py:451-455 | the heap loop returns the same answer as the pure search and changes nothing |
| Kinetics.ReferenceUnenriched | rmgpy/tools/isotopes.py:451-460 | the chosen reference, found or stripped, is never enriched; when the search succeeds on a non-empty list a reference exists |
| Kinetics.SelectReference | rmgpy/tools/isotopes.py:451-463 | the heap selection of the unlabelled reaction agrees with the pure `Reference`: errors, index, view and A-factor |
| Kinetics.RescaledKeepsReference | rmgpy/tools/isotopes.py:464-474 | the reference reaction keeps its A-factor |
| Kinetics.RescaledIdempotent | rmgpy/tools/isotopes.py:464-474 | running the correction twice gives what running it once does |
| Kinetics.RescaledConsistent | rmgpy/tools/isotopes.py:471-474 | two rescaled reactions have A-factors in the ratio of their symmetry numbers |
| Kinetics.DecisionIgnoresOwnA | rmgpy/tools/isotopes.py:466-474 | whether a reaction is rescaled does not depend on its own A-factor, because line 466 reads the reference's A-factor |
| Kinetics.RescaledAgainstReference | rmgpy/tools/isotopes.py:468-474 | each corrected A-factor is either unchanged or the reference's A-factor times the symmetry ratio |
| Kinetics.CorrectedAgainstReference | rmgpy/tools/isotopes.py:437-474 | in the pure correction the reference keeps its A-factor, and every other reaction is unchanged or in symmetry ratio to the reference |
| Kinetics.CorrectedFromReference | rmgpy/tools/isotopes.py:462-474 | once a reference is chosen, the correction is ZeroDivisionError iff its A-factor is zero, else the pointwise rescaling |
| Kinetics.RescaleOne | rmgpy/tools/isotopes.py:465-474 | one loop body sets the reaction's A-factor to its rescaled value |
| Kinetics.RescaleLoop | rmgpy/tools/isotopes.py:464-474 | the loop either fails at the first division with ZeroDivisionError and nothing changed, or leaves every A-factor at its target |
| Kinetics.Rescale | rmgpy/tools/isotopes.py:462-474 | after the reference is fixed, every A-factor in the list becomes its pointwise target, or ZeroDivisionError with nothing changed |
| Kinetics.ApplyReference | rmgpy/tools/isotopes.py:456-474 | given the selected reference, the heap A-factors end as the pure `Corrected` prescribes, errors included |
| Kinetics.CorrectAFactorsOfIsotopomers | rmgpy/tools/isotopes.py:437-474 | the heap method leaves every A-factor at the pure correction of the views and A-factors it started from; on an error nothing is changed and the error is the one the pure correction names |
| Structures.StripViewIdempotent | rmgpy/tools/isotopes.py:247-280 | stripping an isotope-free view changes nothing |
| Structures.IsotopomersStripEqual | rmgpy/tools/isotopes.py:322-339 | two molecules with the same bonds and the same symbols position by position have equal isotope-free views |

## Left out

- Reading and writing files, running RMG jobs, simulations, plotting and concentration post-processing (`rmgpy/tools/isotopes.py:59-124`, `:183-219`, `:379-392`, `:518-614`): these are I/O and orchestration, not the isotope logic.
- `retrieveConcentrations` and `computeProbabilities` (`:341-377`): pandas table manipulation on simulation output.
- `correctEntropy` (`:394-414`) and its call in `generateIsotopomers` (`:156-157`): thermochemistry objects and floating entropy arithmetic. Species thermo, transport data and reactivity are not part of this model.
- `correctAFactors` (`:416-435`): the halving loop (`:429-435`) depends on the kinetics class (`isinstance` tests against `Arrhenius` and `ArrheniusEP`), which is not part of this model. It also iterates over the loop variable `rxnList` left over from the clustering loop, so it halves only reactions of the last cluster, and raises `NameError` when there is no cluster. The clustering and the per-cluster correction it calls are modelled (`Clustering.Cluster`, `Kinetics.CorrectAFactorsOfIsotopomers`).
- Graph isomorphism, species symmetry numbers, isotope masses and resonance-structure generation are parameters (`iso`, `sigma`, `mass`, `regenerate`). `np.isclose` / `np.allclose` become one parameter `close`.
- Floating-point rounding: A-factors and symmetry numbers are `real`s.
- `kinetics.A.value` versus `kinetics.A.value_si`: both are one A-factor `a`; unit conversion is not modelled.
- The copy-mode `removeIsotope` (`:269-280`, `:297-310`) is modelled only on views (`Enrichment.StripCopy`), not as a deep copy on the heap. Its only use in the core is the fallback reference of `correctAFactorsOfIsotopomers`.
- Symmetry numbers are multiplied in list order. That the product does not depend on the order of the species is not proved.
- The unused `carbons` filter (`:134`) has no counterpart.
- Logging and the resonance call on each new isotopomer (`:142`): the regenerated structures are not part of a species' view here, which is why results are stated through the species' sole molecule.
- Enumeration.AddIsotope: requires `i <= N`. The only call (`:137`) starts at depth 0 and each recursion adds one, so the depth can pass `N` only when `N` is negative, which `n: nat` excludes. With a negative `N`, the source recursion runs on until no eligible atom is left; the model does not describe that case.
- Enumeration.AddIsotope: requires the molecule's atoms to be distinct objects, as a Python molecule's atom list always is.
- Generation.GenerateIsotopomers: requires a species with at least one molecule with distinct atoms; the source would raise IndexError on an empty molecule list, which is not modelled.
- Stripping.RedoIsotope: the restore is proved only for logs whose atoms are distinct; a log that names an atom twice ends with its last element, which is not stated.
- Kinetics.CorrectAFactorsOfIsotopomers: every reaction is assumed to carry an Arrhenius-type A-factor (the field `a`). In the source, a rate law without `A`, or `kinetics` being None, raises AttributeError: at `:463` for the reference, before anything changes, and at `:474` for a later reaction whose symmetry ratio is not close to 1, after the reactions before it have already been rewritten. That error path and its partial rewrite are not modelled, so "nothing changed on an error" holds only for the errors modelled.
- Exceptions not modelled: AttributeError (above), NameError (the halving loop), and anything the external isomorphism, symmetry-number or resonance routines raise.
- Kinetics.DecisionIgnoresOwnA: line 466 reads the reference's A-factor instead of the reaction's, so the ratio test at line 471 compares symmetry ratios against 1. This is modelled as written, and the lemma states the consequence.
