# Verified models of the zkEVM prover's authenticated data structures

The prover works on two authenticated tries and on code that has to agree with them. This project models that code and
proves what the rest of the system relies on.

**Merkle Patricia partial trie** (`mpt_trie`, used by `trace_decoder/src/decoding.rs`). Nodes are a datatype, keys are
nibble sequences, the hash function is a parameter: everything holds for every hash function, and what needs a hash
function without collisions on the byte strings at hand says so. A trie is compared with the finite map it stands for,
and its root hash is shown to commit to that map; `NodeEncoding` gives the hashed bytes number by number. Insertion,
deletion with its branch collapses, `get`, the stack-based iterator, the path query, subset tries and the cached hashes
are modelled, up to the claim the decoder depends on: the subset of a trie for the written keys and for the keys
reported by deletions is enough to replay the writes with the same root. How much a subset hides is exact too
(`SubsetExtent`), and so is when and with which error an insertion or a deletion is refused (`TrieRefusals`).
`PackedNibbles` and `NibbleBuffer` show that the packed words refine nibble sequences; `HexPrefixCodec` that the path
codec is a bijection.

**Sparse Merkle tree** (`smt_trie`). Hashes are ideal: a digest is `Zero`, an opaque number, or the node it was made
from. The object keeps a node store, the shadow map and the root, and `set` is the loop over siblings of the source.
After every run the tree is the unique compressed tree of the map, and its root is given by a reference definition on
the map alone (`SmtReference`). The flat serialization, pruned to given keys, is proved to keep the root and to hide
exactly what no given key leads to.

**Field arithmetic** (`extension_tower.rs`). Limb multiplication, inverses and square roots of the BN254 and BLS12-381
base fields. That the two moduli are prime is a hypothesis; Fermat's little theorem is proved.

**Proof aggregation** (`fixed_recursive_verifier.rs`). The circuits' equality constraints are read as relations between
public values. Exactly which lists of segments, of transaction batches and of blocks have a proof is shown, what such
proofs keep, and when the prover's own values satisfy the circuits.

**Logic table** (`logic.rs`) and the **type-1 witness machine** (`type1.rs`): constraints against their meaning, and a
parser against its printer.

## Where the code does not do what its users may expect

Each of these is stated exactly in the model, with the condition under which the code is right.

- A branch that collapses on a deletion loses its value (`DeleteLimits.DeleteExact`, `TrieExamples.CollapseDropsValue`).
- A key that ends strictly inside an extension is clamped by insertion (`InsertContent.InsertSetsKey`,
  `TrieExamples.InsertClampsKey`), and `get` finds a key through a leaf whose key is a prefix of it
  (`TrieGet.GetExact`, `TrieExamples.GetMatchesPrefix`).
- The comment at `mpt_trie/src/partial_trie.rs:76-81` says that deletion does not prune; the code does, and the model
  follows the code.
- `create_trie_subsets` does not reset the root's flag, so a later key set can see a flag of an earlier one
  (`TrackedTrie.SharedIsSeparate`, `TrieExamples.StaleRootFlag`).
- Over a run of writes a deletion can report a key that ends inside an extension of the trie at the start. Marking then
  pops past the end of that key. In a build with overflow checks this panics and the subset for the run cannot be built
  (`RunWitness.RunSubsetExists`, `TrieExamples.ReportStopsWithin`); it never happens when no insertion of the run leaves
  the starting trie within an extension (`RunWitness.RunSubsetAlwaysExists`). In a build without overflow checks the
  truncation clamps, and the witness always works (`ClampedMarking.ClampedWitnessSuffices`).
- An `extend` that fails half way keeps the cached root hash. It is out of date unless nothing was cached, or the entries
  before the first refused one write no new key and write back, last, the values that were there
  (`HashedTrie.FailedExtend`, `TrieExamples.StaleAfterExtend`).
- Clones share one hash cell. After one of them has been changed and hashed, the other is right only if the calls gave
  back the map they started from, or a single insertion wrote what was already there, or the new trie is too short to be
  hashed (`HashedTrie.DivergedClone`, `HashedTrie.InsertedClone`, `TrieExamples.StaleAfterClone`).
- `Smt::get` has no answer for some absent keys (`SmtRuns.GetHasNoAnswer`).
- The constant of `lexicographically_largest` is (p + 1) / 2, not (p - 1) / 2, so one element is misjudged
  (`ExtensionTower.LargestExceptMiddle`). The table of the square root is named after (p - 1) / 4 and holds (p + 1) / 4.
- The comment that all block metadata is the same for both segments holds for all but three fields
  (`SegmentAggregation.BlobGasMayDiffer`).

## Model

| member | source | states |
|---|---|---|
| PartialTrie.CanonicalUnique | mpt_trie/src/partial_trie.rs:124-162 | a canonical trie (no branch with fewer than two uses, no extension over anything but a branch or a hash) is determined by its content: equal lookups mean equal structure |
| InsertContent.InsertKeepsCanonical | mpt_trie/src/trie_ops.rs:432-522 | every successful insertion, of a value or of a hash, keeps the canonical shape |
| InsertContent.InsertLookup | mpt_trie/src/trie_ops.rs:432-522 | a successful insertion changes the entry at its key and no other, unless the key ends inside an extension |
| InsertContent.InsertSetsKey | mpt_trie/src/trie_ops.rs:465-497 | the inserted key is found afterwards if and only if it did not end strictly inside an extension, where the code clamps it |
| InsertContent.InsertFails | mpt_trie/src/trie_ops.rs:432-522 | an insertion fails exactly at a hash node on the walk or, for a hash, where the key or an extension of it is already held |
| InsertContent.PlaceBranchLookup | mpt_trie/src/trie_ops.rs:710-768 | the branch that replaces a leaf or an extension where two keys part holds both old and new entries |
| DeleteContent.DeleteInternCorrect | mpt_trie/src/trie_ops.rs:524-613 | below the root, a safe deletion removes its key and nothing else, and one last merge makes the result canonical |
| DeleteContent.DeleteCorrect | mpt_trie/src/trie_ops.rs:381-406 | a safe deletion removes exactly its key, returns the value it had, and leaves a canonical trie |
| DeleteLimits.DeleteExact | mpt_trie/src/trie_ops.rs:524-613 | a deletion that succeeds is right (one entry gone, canonical) if and only if it touches no branch value that keeps a branch alive: the code drops branch values on collapse |
| DeleteLimits.DeleteFails | mpt_trie/src/trie_ops.rs:524-687 | a safe deletion is refused exactly when its walk meets a hash node or, under `Reject`, when a branch collapses onto a hash node |
| TrieRefusals.MeetsHashExactly | mpt_trie/src/trie_ops.rs:432-613 | the walk along a key meets a hash node exactly when the trie holds a digest above the key, or a digest and nothing else from the key on |
| TrieRefusals.InsertDecided | mpt_trie/src/trie_ops.rs:432-522 | the outcome of every insertion, told by the entries alone: with a digest in the way the error names that digest; a value is otherwise always inserted; a digest is refused exactly when something is held from its key on, with a panic exactly when the key ends inside a leaf |
| TrieRefusals.OrphansExactly | mpt_trie/src/trie_ops.rs:524-573 | a deletion collapses a branch onto a hash node exactly when the value at its key and one digest are all that is held below the node above that digest |
| TrieRefusals.DeleteDecided | mpt_trie/src/trie_ops.rs:381-687 | the outcome of every safe deletion, told by the entries alone: the error names the digest in the way, or under `Reject` the digest that would be left alone; everything else succeeds |
| TrieGet.GetExact | mpt_trie/src/trie_ops.rs:333-374 | `get` answers exactly what the trie holds if and only if its walk does not end at a leaf that only agrees with the key, or run out of nibbles in an extension |
| TrieGet.GetFixedLength | mpt_trie/src/trie_ops.rs:333-374 | with keys of one length `get` is exact on every key of that length |
| TrieRuns.PrefixFreeIsSafe | mpt_trie/src/trie_ops.rs:432-613 | in a trie over prefix-free keys no key ends inside an extension and every deletion is safe |
| TrieRuns.RunRepresents | mpt_trie/src/trie_ops.rs:307-406 | after any successful run of insertions and deletions over prefix-free keys the trie is the canonical trie of the map the run builds |
| TrieRuns.HistoryIndependence | mpt_trie/src/trie_ops.rs:307-406 | two successful runs that build the same map end in the same trie, whatever their operations, order and strategies |
| TrieRuns.DeleteUndoesInsert | mpt_trie/src/trie_ops.rs:307-406 | deleting a freshly inserted key gives back the trie there was before |
| TrieRuns.PlainRunsSucceed | mpt_trie/src/trie_ops.rs:307-406 | from the empty trie, value insertions and deletions succeed in every order |
| TrieExamples.CollapseDropsValue | mpt_trie/src/trie_ops.rs:559-573 | concrete trie: deleting one of two children of a branch with a value loses the value |
| TrieExamples.InsertClampsKey | mpt_trie/src/trie_ops.rs:472-478 | concrete trie: a key that ends inside an extension is written to another place |
| TrieExamples.GetMatchesPrefix | mpt_trie/src/trie_ops.rs:366-372 | concrete trie: a key that is not there is found through a leaf with a shorter key |
| Simulation.PartialSameEncoding | mpt_trie/src/trie_hashing.rs:36-90 | replacing subtrees whose encoding has at least 32 bytes by their hashes changes no encoding and no root hash, for every hash function |
| NodeEncoding.HashedFrom32 | mpt_trie/src/trie_hashing.rs:78-90 | a stored node is referred to by its hash exactly when its encoding has 32 bytes or more; such a reference has 33 bytes, any other is the encoding itself and has fewer than 32 |
| NodeEncoding.RootIsHashed | mpt_trie/src/trie_hashing.rs:21-34 | the root hash is the hash of the root's encoding however short that is, and of the byte 0x80 for the empty trie |
| NodeEncoding.BranchItems | mpt_trie/src/trie_hashing.rs:42-56 | read back item by item, the encoding of a branch is the list of the sixteen references in the order of the slots and then the value |
| NodeEncoding.TwoItemsBack | mpt_trie/src/trie_hashing.rs:57-73 | read back, an extension or a leaf is the list of its path and of its child's reference or its value |
| NodeEncoding.StringForm | mpt_trie/src/trie_hashing.rs:36-90 | the RLP form of a string: a byte below 128 stands for itself, up to 55 bytes the tag is 128 plus the length, beyond that 183 plus the number of bytes of the length, without leading zeros |
| NodeEncoding.ListForm | mpt_trie/src/trie_hashing.rs:36-90 | the RLP form of a list, with tags from 192 and from 247 on |
| NodeEncoding.HexPrefixEven | mpt_trie/src/nibbles.rs:807-831 | the path of an even number of nibbles byte by byte: 32 for a leaf or 0, then two nibbles a byte |
| NodeEncoding.HexPrefixOdd | mpt_trie/src/nibbles.rs:807-831 | the path of an odd number of nibbles byte by byte: 48 for a leaf or 16, plus the first nibble, then two nibbles a byte |
| Simulation.InsertSimulates | mpt_trie/src/trie_ops.rs:432-522 | an insertion that succeeds on a partial trie succeeds on the full one, and the results correspond |
| Simulation.DeleteSimulates | mpt_trie/src/trie_ops.rs:381-687 | a deletion that succeeds on a partial trie under `Reject` succeeds on the full one with the same value, and the results correspond |
| Simulation.RunSimulates | mpt_trie/src/trie_ops.rs:307-406 | any run that succeeds on a partial trie succeeds on the full one, and the root hashes are equal |
| TrieSubsets.MarkReaches | mpt_trie/src/trie_subsets.rs:284-339 | what marking a key leaves without a flag is off the way of that key |
| TrieSubsets.SubsetSameRoot | mpt_trie/src/trie_subsets.rs:249-271 | a subset trie has the root hash of the full trie |
| TrieSubsets.SubsetSameGet | mpt_trie/src/trie_subsets.rs:249-373 | on each listed key `get` gives on the subset what it gives on the full trie |
| SubsetExtent.SubsetHides | mpt_trie/src/trie_subsets.rs:341-373 | whatever sits at a path of the trie with a hashed encoding is behind a digest in the subset, when no listed key starts with its path (for an extension: goes on behind it) |
| SubsetExtent.SubsetHidesExactly | mpt_trie/src/trie_subsets.rs:206-373 | in a canonical trie only then: a subset hides a stored node with a hashed encoding if and only if no listed key leads to it |
| SubsetExtent.SharedHides | mpt_trie/src/trie_subsets.rs:228-247 | each of several subsets from one tracked trie hides everything hashed below the root that its own keys do not lead to |
| SubsetExtent.ClampedHidesExactly | mpt_trie/src/trie_subsets.rs:284-373 | the same if and only if for builds without overflow checks, where a key that stops within an extension leads to its end |
| TrackedTrie.TrackedNode.constructor | mpt_trie/src/trie_subsets.rs:46-85 | a new tracked trie lies over its trie with no flag set |
| TrackedTrie.TrackedNode.Mark | mpt_trie/src/trie_subsets.rs:284-339 | marking in place sets exactly the flags of the specification, or reports its error |
| TrackedTrie.TrackedNode.Reset | mpt_trie/src/trie_subsets.rs:375-389 | resetting in place clears every flag below but not that of a branch or extension at the root |
| TrackedTrie.TrackedNode.Subset | mpt_trie/src/trie_subsets.rs:341-373 | reading the flags in place gives the subset that they ask for; which nodes that hides is in the rows of `SubsetExtent` |
| TrackedTrie.CreateTrieSubset | mpt_trie/src/trie_subsets.rs:213-223 | the call marks all keys and builds the subset the flags ask for; from a new tracked trie that is the subset of `SubsetExtent.SubsetHidesExactly` |
| TrackedTrie.CreateTrieSubsets | mpt_trie/src/trie_subsets.rs:228-247 | several key sets on one tracked trie, reset in between, give the shared subsets of the specification |
| TrackedTrie.SharedIsSeparate | mpt_trie/src/trie_subsets.rs:228-247 | sharing one tracked trie gives the results of separate calls if and only if no key set is disturbed by a root flag that an earlier set left |
| TrackedTrie.NonEmptySetsAreSeparate | mpt_trie/src/trie_subsets.rs:228-247 | with key sets that all flag the root the results are always those of separate calls |
| SpecialQuery.TriePathIter.Next | mpt_trie/src/special_query.rs:31-89 | one step of the path query takes the next segment of the path, clamping the key at its end |
| SpecialQuery.CollectPath | mpt_trie/src/special_query.rs:104-118 | collecting the iterator gives the path of the key |
| DeleteWitness.ReportIsCollapseKey | trace_decoder/src/decoding.rs:402-438 | the path of the deleted key gets shorter exactly when a branch collapsed, and what is reported is then the key of the child that is left |
| DeleteWitness.MarkCollapseKey | trace_decoder/src/decoding.rs:402-413 | the reported key can be marked on the trie as it was before the deletion |
| DeleteWitness.WitnessSuffices | trace_decoder/src/decoding.rs:402-413 | whenever a deletion succeeds on a trie, the subset for the deleted key and the reported key can be built, the deletion succeeds on it under the same strategy, whichever it is, and the root hashes afterwards are equal |
| Replay.InsertStandsFor | mpt_trie/src/trie_ops.rs:432-522 | an insertion whose key is clear of hidden nodes does on the subset what it does on the full trie |
| Replay.DeleteStandsFor | mpt_trie/src/trie_ops.rs:381-687 | a deletion whose key and collapse key are clear of hidden nodes does on the subset what it does on the full trie |
| RunWitness.RunWitnessSuffices | trace_decoder/src/decoding.rs:402-413 | for a whole run of writes: when the subset for a list that covers its keys and reports (and may hold reads as well) can be built, the run succeeds on it and ends with the same root hash |
| RunWitness.MarkAllSucceeds | mpt_trie/src/trie_subsets.rs:284-339 | with overflow checks, marking a list of keys succeeds exactly when no key stops within an extension and none passes a hash node |
| RunWitness.RunSubsetExists | trace_decoder/src/decoding.rs:697-707 | with overflow checks, the subset for the accesses and reports of a run can be built exactly when no access passes a hash node and no reported key stops within an extension of the trie at the start |
| RunWitness.RunSubsetAlwaysExists | trace_decoder/src/decoding.rs:697-707 | it can always be built when no insertion of the run leaves the starting trie within an extension, for instance when the run only overwrites and deletes |
| RunWitness.CollapseKeyForks | trace_decoder/src/decoding.rs:416-438 | a reported key is a key of the trie, or two keys of the trie part there |
| ClampedMarking.ClampedIsMark | mpt_trie/src/trie_subsets.rs:284-339 | without overflow checks, marking a key that stops within an extension marks the way to the end of that extension; other keys are marked as with the checks |
| ClampedMarking.ClampedAgrees | mpt_trie/src/trie_subsets.rs:284-339 | where a subset can be built with overflow checks, it is built without them too, and is the same |
| ClampedMarking.ClampedMarksAll | mpt_trie/src/trie_subsets.rs:284-339 | without overflow checks, marking a list of keys fails exactly when one of them passes a hash node |
| ClampedMarking.ClampedWitnessSuffices | trace_decoder/src/decoding.rs:402-413 | without overflow checks, the subset for the accesses and reports of a run can be built exactly when no access passes a hash node, and the run then succeeds on it with the roots of the full trie |
| RunWitness.ReportingChangesNothing | trace_decoder/src/decoding.rs:402-413 | the run that collects reports is the plain run |
| TrieExamples.ReportStopsWithin | trace_decoder/src/decoding.rs:402-438 | concrete run: a reported key ends inside an extension of the starting trie, and the subset for the run cannot be built with overflow checks |
| TrieExamples.StaleRootFlag | mpt_trie/src/trie_subsets.rs:228-247 | concrete trie and key sets {0} and {}: the second shared subset is the open root, made separately it is the root's digest |
| TrieIter.PartialTrieIter.Advance | mpt_trie/src/trie_ops.rs:204-239 | going down yields the first entry and leaves on the stack exactly what is still to come after it |
| TrieIter.PartialTrieIter.Next | mpt_trie/src/trie_ops.rs:245-303 | the iterator ends, and each call yields the next entry of the enumeration; its branch key is that of the topmost branch once pending extensions are unwound |
| TrieItems.Collect | mpt_trie/src/trie_ops.rs:408-413 | running the iterator to its end gives the enumeration |
| TrieItems.EnumerationCorrect | mpt_trie/src/trie_ops.rs:408-413 | the enumeration holds each entry of the trie exactly once, in strictly increasing order |
| TrieItems.PrecedesLexicographic | mpt_trie/src/trie_ops.rs:245-303 | on keys that are not prefixes of each other that order is the lexicographic one |
| TrieItems.PrecedesExactly | mpt_trie/src/trie_ops.rs:245-303 | in full: a key comes after the keys that extend it (a branch yields its value last), and otherwise the first differing nibble decides |
| TrieItems.RebuildFromItems | trace_decoder/src/lib.rs:313-331 | inserting the enumerated entries, hash nodes included, into an empty trie gives back the trie |
| HashCache.HashIntern | mpt_trie/src/partial_trie.rs:432-445 | a wrapped node's hash is the recomputed one, and every cache cell stays right |
| HashCache.EncodeNode | mpt_trie/src/trie_hashing.rs:36-83 | encoding a node through its cached children gives the encoding of the trie without caches |
| HashCache.InsertH | mpt_trie/src/trie_ops.rs:432-522 | insertion on shared, cached nodes makes the trie that insertion on plain nodes makes, with empty cells for new nodes |
| HashCache.DeleteInternH | mpt_trie/src/trie_ops.rs:524-613 | deletion on shared, cached nodes makes the trie that deletion on plain nodes makes |
| HashedTrie.HashedPartialTrie.Insert | mpt_trie/src/partial_trie.rs:369-377 | a successful insertion clears the root cell and keeps every cached hash right; a failed one changes nothing |
| HashedTrie.HashedPartialTrie.Delete | mpt_trie/src/partial_trie.rs:397-405 | a deletion clears the root cell, also when it fails, and keeps every cached hash right |
| HashedTrie.HashedPartialTrie.Hash | mpt_trie/src/partial_trie.rs:407-409 | the hash is that of the trie with all caches cleared |
| HashedTrie.HashedPartialTrie.Intern | mpt_trie/src/partial_trie.rs:432-445 | the cached hash handed to a parent is the recomputed one |
| HashedTrie.HashedPartialTrie.Extend | mpt_trie/src/partial_trie.rs:379-388 | `extend` that succeeds clears the root cell; one that fails half way keeps the old cell although entries before the failure are in |
| HashedTrie.RunCalls | mpt_trie/src/partial_trie.rs:338-445 | over any run of insertions, deletions (failed or not) and hash calls every hash handed out is the recomputed hash of the trie at that moment |
| HashedTrie.FailedExtend | mpt_trie/src/partial_trie.rs:379-388 | after a half-failed `extend` the cached root hash is right if nothing was cached, or if the entries before the first one that the trie refuses write only held keys and write back, last, the values they had; with a hash function that tells the two tries apart, only then |
| InsertMany.InsertPlaces | mpt_trie/src/trie_ops.rs:432-522 | for every key, also one that ends inside an extension: a successful insertion sets the entry at the clamped key and changes no other |
| InsertMany.InsertIsIdle | mpt_trie/src/trie_ops.rs:432-522 | an insertion leaves the trie as it was exactly when it writes what is already at the clamped key |
| InsertMany.InsertAllIsIdle | mpt_trie/src/trie_ops.rs:320-331 | a list of insertions, up to the first failure, leaves the trie as it was exactly when the entries before the first refused one write only held keys and write back, last, the values they had |
| TrieCommitment.EncodingCommits | mpt_trie/src/trie_hashing.rs:36-90 | when no two of the hashed byte strings collide, equal encodings mean equal tries, except where one stores a digest and the other the subtree |
| TrieCommitment.RootTellsContent | mpt_trie/src/trie_hashing.rs:31-90 | two complete tries have the same root hash exactly when they have the same content, when the hash function tells their encodings apart |
| TrieCommitment.CompareRuns | mpt_trie/src/partial_trie.rs:369-409 | two runs of value insertions and deletions from the empty trie succeed, and end with the same root hash exactly when they build the same map |
| TrieCommitment.InsertionsChangeEncoding | mpt_trie/src/trie_hashing.rs:36-90 | insertions, of digests too, never leave a different trie with the same encoding |
| TrieCommitment.ValuesChangeEncoding | mpt_trie/src/trie_hashing.rs:36-90 | nor do changes of values and keys around the same digests |
| TrieExamples.StaleAfterExtend | mpt_trie/src/partial_trie.rs:379-388 | concrete handle: the second entry of an `extend` is refused below a digest, the first one is in, and the handle keeps the hash of the trie before |
| HashedTrie.DivergedClone | mpt_trie/src/partial_trie.rs:312-318 | after any calls on one of two clones and its hashing, the other answers with that hash; it is right if nothing is cached or the calls gave back the trie, on a trie of values exactly when they give back its map; with a hash function that tells the two tries apart, only then |
| HashedTrie.InsertedClone | mpt_trie/src/partial_trie.rs:312-318 | after one insertion into a clone, of a value or a digest, the other clone is right if the insertion is refused, writes what is already there, or leaves a trie too short to be hashed; with a hash function that tells the two tries apart, only then |
| HashedTrie.CallsGiveBack | mpt_trie/src/partial_trie.rs:338-445 | calls on a trie of values leave the trie as it was exactly when they give back its map |
| TrieExamples.StaleAfterClone | mpt_trie/src/partial_trie.rs:312-318 | concrete handles: one clone writes another value and interns its hash, the other then holds a wrong hash |
| PackedNibbles.ViewInjective | mpt_trie/src/nibbles.rs:301-307 | two packed values without stray bits are equal exactly when they hold the same nibbles |
| PackedNibbles.NibblePlace | mpt_trie/src/nibbles.rs:301-307 | the first nibble stands highest: nibble i is the four bits above the nibbles behind it |
| PackedNibbles.GetNibble | mpt_trie/src/nibbles.rs:430-438 | reading through the byte gives the nibble at the index |
| PackedNibbles.GetRange | mpt_trie/src/nibbles.rs:553-564 | masking and shifting a range gives that stretch of the nibbles |
| PackedNibbles.SplitAt | mpt_trie/src/nibbles.rs:641-658 | the two parts hold the nibbles before and from the index |
| PackedNibbles.SplitPrefix | mpt_trie/src/nibbles.rs:664-672 | the prefix holds the nibbles before the index |
| PackedNibbles.SplitPostfix | mpt_trie/src/nibbles.rs:678-686 | the postfix holds the nibbles from the index on |
| PackedNibbles.MergeNibble | mpt_trie/src/nibbles.rs:692-699 | one nibble is put behind |
| PackedNibbles.Merge | mpt_trie/src/nibbles.rs:705-713 | merging is concatenation |
| PackedNibbles.MergeOfSplit | mpt_trie/src/nibbles.rs:641-713 | merging the two parts of a split gives back the original |
| PackedNibbles.Reverse | mpt_trie/src/nibbles.rs:717-734 | the loop over masks reverses the nibbles |
| PackedNibbles.ReversedTwice | mpt_trie/src/nibbles.rs:717-734 | reversing is an involution |
| PackedNibbles.FirstDifference | mpt_trie/src/nibbles.rs:756-779 | the search over masks returns the length of the longest common prefix |
| PackedNibbles.FirstDifferenceAnyLength | mpt_trie/src/nibbles.rs:739-749 | so does the search for keys of different lengths |
| NibbleBuffer.NibblesMut.PushFront | mpt_trie/src/nibbles.rs:498-505 | the nibble is put in front |
| NibbleBuffer.NibblesMut.PushBack | mpt_trie/src/nibbles.rs:512-517 | the nibble is put behind |
| NibbleBuffer.NibblesMut.PushAllFront | mpt_trie/src/nibbles.rs:524-532 | all nibbles are put in front |
| NibbleBuffer.NibblesMut.PushAllBack | mpt_trie/src/nibbles.rs:539-547 | all nibbles are put behind |
| NibbleBuffer.NibblesMut.PopFront | mpt_trie/src/nibbles.rs:444-449 | the first nibble is taken off |
| NibbleBuffer.NibblesMut.PopBack | mpt_trie/src/nibbles.rs:455-460 | the last nibble is taken off |
| NibbleBuffer.NibblesMut.PopManyFront | mpt_trie/src/nibbles.rs:473-478 | the first nibbles are taken off in order |
| NibbleBuffer.NibblesMut.PopManyBack | mpt_trie/src/nibbles.rs:484-491 | the last nibbles are taken off and come reversed |
| NibbleBuffer.NibblesMut.TruncateFront | mpt_trie/src/nibbles.rs:592-600 | nibbles are dropped from the front, all of them when there are fewer |
| NibbleBuffer.NibblesMut.TruncateBack | mpt_trie/src/nibbles.rs:606-614 | nibbles are dropped from the back, all of them when there are fewer |
| HexPrefixCodec.ToHexPrefix | mpt_trie/src/nibbles.rs:807-831 | the bytes cut out of the word with the flags set are the hex-prefix encoding of Appendix C of the Ethereum Yellow Paper |
| HexPrefixCodec.ParsePath | mpt_trie/src/builder.rs:141-169 | the builder's parsers take the flag nibble, and the padding nibble of an even path, off |
| HexPrefixCodec.HexPrefixRoundTrip | mpt_trie/src/builder.rs:110-169 | for every nibble sequence and either kind of node, decoding the encoding gives back the nibbles and its first nibble tells leaves from extensions |
| HexPrefixCodec.EncodeAndParse | mpt_trie/src/nibbles.rs:807-831 | encoding and parsing packed nibbles of up to 64 places changes nothing |
| SmtKeys.JoinSplit | smt_trie/src/smt.rs:31-69 | for every key and every n up to 252, joining the first n path bits with what `remove_key_bits` leaves gives back the key |
| SmtWords.PathBit | smt_trie/src/smt.rs:31-41 | bit 4i + j of a path is bit i of limb j of the key |
| SmtWords.RestBits | smt_trie/src/smt.rs:58-70 | what is left of a key after n path bits: each limb is shifted by the number of its bits among them, so bit i of what is left is the path's bit of its place, and nothing else is in it |
| SmtKeys.SplitInjective | smt_trie/src/smt.rs:31-41 | different keys have different paths |
| SmtKeys.SplitKey | smt_trie/src/smt.rs:31-41 | the loop over limbs and bits yields the path |
| SmtKeys.JoinKey | smt_trie/src/smt.rs:43-56 | the loop over path bits yields the key |
| SmtBits.BitBuffer.PushBit | smt_trie/src/bits.rs:71-74 | the bit is put behind |
| SmtBits.BitBuffer.PopNextBit | smt_trie/src/bits.rs:58-64 | the last bit is taken off |
| SmtBits.GetBit | smt_trie/src/bits.rs:66-69 | the bit at an index of the path |
| SmtBits.Concat | smt_trie/src/bits.rs:37-43 | adding is concatenation |
| SmtBits.CommonPrefix | smt_trie/src/bits.rs:82-102 | the longest common prefix, with the two next bits when the paths part; they differ |
| SmtTree.WordRoundTrip | smt_trie/src/utils.rs:33-45 | a value comes back from its eight 32-bit limbs |
| SmtWords.LimbsOfValue | smt_trie/src/utils.rs:33-35 | limb i of a value is bits 32i to 32i + 31 of it, for each of the eight limbs |
| SmtTree.CanonicalUnique | smt_trie/src/smt.rs:165-345 | the compressed tree of a content is unique |
| SmtUpdate.RootDeterminedByMap | smt_trie/src/smt.rs:165-345 | the root depends only on the map |
| SmtReference.RootIs | smt_trie/src/smt.rs:165-345 | an independent reference: the root of the tree of a map is 0 for no key, for one key the leaf of the shifted key limbs and the eight 32-bit value limbs, and for more the node over the roots of the two halves, keys with path bit 0 on the left |
| SmtReference.RootIsDetermined | smt_trie/src/smt.rs:165-345 | at most one digest is the root of a map in that sense |
| SmtUpdate.PutFork | smt_trie/src/smt.rs:278-315 | two leaves below a chain of internal nodes, where there was one leaf, is the canonical tree of the map with the new key |
| SmtUpdate.LiftLeaf | smt_trie/src/smt.rs:223-255 | a leaf that lost its sibling, moved up to below the first node with two children, is the canonical tree of the map without the key |
| Smt.SmtState.Get | smt_trie/src/smt.rs:116-160 | `get` returns the stored value or 0, both of its assertions hold, and it has no answer exactly when the walk ends at an empty slot |
| Smt.SmtState.Walk | smt_trie/src/smt.rs:179-202 | the walk follows the key's path to a leaf or an empty slot, with the nodes passed as siblings |
| Smt.SmtState.NewSubtree | smt_trie/src/smt.rs:266-329 | what is put at the end of the walk makes the tree of the map with the new value |
| Smt.SmtState.Unlink | smt_trie/src/smt.rs:209-265 | taking a leaf out, with the climb of a lonely sibling, makes the tree of the map without the key; the code's panic is not reached |
| Smt.SmtState.Rehash | smt_trie/src/smt.rs:330-344 | the last loop makes the root of the tree with the one subtree replaced, and stores every node |
| Smt.SmtState.Set | smt_trie/src/smt.rs:165-345 | after `set` the tree in the store is again the canonical tree of `kv_store`, which has the value, or lacks the key for 0, and the root is that of the reference definition |
| Smt.SmtState.Delete | smt_trie/src/smt.rs:348-351 | after `delete` the tree is the canonical tree of `kv_store` without the key, and the root that of the reference definition |
| SmtRuns.RunCalls | smt_trie/src/smt.rs:165-351 | after any run of `set` and `delete` calls tree and map agree, and the map is what the calls say |
| SmtRuns.CompareRuns | smt_trie/src/smt.rs:165-351 | two runs from the empty tree end with the same root exactly when they end with the same map |
| SmtRuns.GetHasNoAnswer | smt_trie/src/smt.rs:116-160 | `get` reaches `unreachable!()` exactly when the map is empty or the key's path leaves two keys of the map towards a side without keys |
| SmtSerialize.KeyRoundTrip | smt_trie/src/utils.rs:53-67 | a key comes back from its 256-bit word |
| SmtCells.KeyWord | smt_trie/src/utils.rs:53-55 | word i of a packed key is limb i |
| SmtCells.DecodedCells | smt_trie/src/smt.rs:501-535 | the cells of a node that is read: 0 and a digest, 2, the remaining key and the value of a leaf, or 1 and the places of the left and the right child |
| SmtSerialize.Output.Serialize | smt_trie/src/smt.rs:447-498 | the appended and patched vector stands, from the returned index, for the pruned tree; child pointers are 0 or larger than their parent's index |
| SmtSerialize.SerializeAndPrune | smt_trie/src/smt.rs:415-439 | the vector decodes to the pruned tree, with exactly the prefixes of the given keys kept; a nonempty subtree is behind a bare digest if and only if no given key leads to it or the store lacks it or a node above it |
| SmtSerialize.PruneHidesExactly | smt_trie/src/smt.rs:447-498 | that if and only if, for the pruning of any tree that can be written |
| SmtSerialize.PruneKeepsDigest | smt_trie/src/smt.rs:447-498 | pruning keeps the digest, also with subtrees that are not stored |
| SmtSerialize.HashSerialize | smt_trie/src/smt.rs:501-535 | the digest computed from a vector is that of the tree it stands for; a malformed vector is an error |
| SmtSerialize.PrunedRootIsRoot | smt_trie/src/smt.rs:415-535 | hashing the pruned vector gives the root, for every tree and every key set |
| SmtSerialize.PrunedValue | smt_trie/src/smt.rs:415-498 | a kept path is unpruned down to its leaf or empty slot; any other path tells the right value or nothing |
| SmtSerialize.SerializeState | smt_trie/src/smt.rs:415-439 | the vector of a valid tree hashes to its root, holds the value of every given key, and hides every subtree that no given key leads to |
| PrimeField.Fermat | evm_arithmetization/src/extension_tower.rs:95-106 | for a prime p and a not divisible by p, a to the power p - 1 is 1 |
| ExtensionTower.LimbProducts | evm_arithmetization/src/extension_tower.rs:292-313 | none of the four limb products saturates |
| ExtensionTower.Lsh512 | evm_arithmetization/src/extension_tower.rs:194-208 | shifting by 512 bits in four saturating steps is multiplication by 2^512, exactly |
| ExtensionTower.MulBls | evm_arithmetization/src/extension_tower.rs:292-313 | multiplication by limbs is multiplication modulo the field's order |
| ExtensionTower.Sums | evm_arithmetization/src/extension_tower.rs:163-187 | negation and subtraction invert addition, and no word overflows |
| ExtensionTower.InvBn | evm_arithmetization/src/extension_tower.rs:95-106 | the loop computes the power p - 2; if p is prime, a nonzero element times the result is 1 |
| ExtensionTower.InvBls | evm_arithmetization/src/extension_tower.rs:324-336 | the same for BLS12-381, on limbs |
| ExtensionTower.DivBls | evm_arithmetization/src/extension_tower.rs:343-345 | if p is prime, dividing and multiplying by a nonzero element changes nothing |
| ExtensionTower.DivBn | evm_arithmetization/src/extension_tower.rs:113-115 | the same for BN254 |
| SqrtTable.ExponentBits | evm_arithmetization/src/extension_tower.rs:210-265 | the 379 table entries denote (p + 1) / 4 |
| ExtensionTower.RootExact | evm_arithmetization/src/extension_tower.rs:210-265 | for p = 3 mod 4 the power (p + 1) / 4 of a is a root of a exactly when a has one |
| ExtensionTower.Sqrt | evm_arithmetization/src/extension_tower.rs:210-265 | a result squares to the input; if p is prime there is one exactly when the input is a square |
| ExtensionTower.LargestExceptMiddle | evm_arithmetization/src/extension_tower.rs:269-285 | the constant is (p + 1) / 2 and not (p - 1) / 2: the test is right for every element but that one |
| ExtensionTower.OrdersOfTheFields | evm_arithmetization/src/extension_tower.rs:25-127 | the two orders are the values of the polynomials of their curve families at the curves' parameters, and both are 3 modulo 4 |
| Type1.Execute | trace_decoder/src/type1.rs:247-360 | the loop over instructions computes what the machine's step function says, errors included |
| Type1.EmittedIsPushed | trace_decoder/src/type1.rs:247-360 | running the postorder emission of any node tree pushes exactly that tree |
| Type1Language.BranchGives | trace_decoder/src/type1.rs:338-347 | the branch that is popped has the mask it was read with, and the popped nodes in the order of their slots |
| Type1Language.BranchSlots | trace_decoder/src/type1.rs:338-347 | a branch takes one node for each bit of its mask, and the node of slot i lies above those for the lower bits: the highest bit takes the top of the stack |
| Type1Language.AccountIsRead | trace_decoder/src/type1.rs:266-337 | an account leaf takes its storage from the top of the stack and its code from below, each only if it has one, and a missing nonce or balance is 0 |
| Type1Language.ReadIsPrinted | trace_decoder/src/type1.rs:247-377 | a stream that is read to its end is the emission of its results joined by `NewTrie`, once missing nonces and balances are written as 0 |
| Type1Language.PrintedIsRead | trace_decoder/src/type1.rs:247-377 | the emission of tries joined by `NewTrie` is read back as those tries |
| Type1Language.DefaultsAreZero | trace_decoder/src/type1.rs:276-277 | any stream is read, or refused, like the one in which every missing nonce and balance is written as 0 |
| Type1Language.AcceptedExactly | trace_decoder/src/type1.rs:247-377 | the accepted streams are exactly the emissions, with exactly that result, where a missing nonce or balance counts as a written 0 |
| SegmentAggregation.TreeIsChain | evm_arithmetization/src/fixed_recursive_verifier.rs:893-1044 | the non-dummy segments of any tree that satisfies the circuits are a chain in registers and memory, and the root carries the first start and the last end |
| SegmentAggregation.AggregatedExactly | evm_arithmetization/src/fixed_recursive_verifier.rs:893-1044 | a list of segments is that of some satisfying tree with given root values exactly when it is a chain with those values |
| SegmentAggregation.SegmentsAgree | evm_arithmetization/src/fixed_recursive_verifier.rs:940-980 | any two segments of a satisfying tree agree on the trie roots, the block hashes, the counters and every metadata field but blob gas, excess blob gas and beacon root |
| SegmentAggregation.BlobGasMayDiffer | evm_arithmetization/src/proof.rs:1024-1060 | two segments can be aggregated exactly when the second follows the first, and just as well with any other blob gas, excess blob gas and beacon root in the second: these three metadata fields are not compared |
| TxnAggregation.BatchesAreChained | evm_arithmetization/src/fixed_recursive_verifier.rs:1046-1142 | the batches of any satisfying tree are a chain in state, transaction number and gas, the root spans it, and each batch runs the kernel on the initial memory from its entry to its halt, with the stated registers |
| TxnAggregation.AggregatedBatchesExactly | evm_arithmetization/src/fixed_recursive_verifier.rs:1046-1142 | a list of two or more batches is that of some satisfying tree with given root values exactly when it is a chain of such runs and the values span it |
| BlockAggregation.ChainKeeps | evm_arithmetization/src/fixed_recursive_verifier.rs:1222-1299 | along a chain of blocks numbers are consecutive in the field, the checkpoint is constant, and the first block starts from the checkpoint's state |
| BlockAggregation.HashWindow | evm_arithmetization/src/fixed_recursive_verifier.rs:1502-1522 | for every block and every d up to 256, `prev_hashes[256 - d]` is the hash of the block d before, or beyond the start of the chain what the first block was given |
| BlockAggregation.StateChain | evm_arithmetization/src/fixed_recursive_verifier.rs:1222-1299 | the batches of all blocks are one chain of state roots from the checkpoint to the last block, each a full run of the kernel |
| BlockAggregation.BlockAccounts | evm_arithmetization/src/fixed_recursive_verifier.rs:1524-1618 | within a block the transaction and receipt tries start empty, transactions are counted from 0 and gas adds up from 0 to the header's gas used |
| BlockAggregation.ProvedExactly | evm_arithmetization/src/fixed_recursive_verifier.rs:1222-1618 | a list of blocks is that of some proof that satisfies the circuits exactly when numbers, hash windows, checkpoints and states link, each block starts with empty tries and counters at 0 and ends at its header's gas, and the first one starts at the checkpoint; all on the fields, for blocks with and without a parent |
| LogicStark.ApplyIsCombination | evm_arithmetization/src/logic.rs:247-301 | AND, OR and XOR are the stated combinations of sum and AND |
| LogicStark.FlagsAreExclusive | evm_arithmetization/src/logic.rs:247-301 | at most one flag of a row that meets the constraints is set |
| LogicStark.Sound | evm_arithmetization/src/logic.rs:247-301 | over a prime field of more than 2^32 elements, a row that meets the constraints with a flag set holds in every result limb that operation on the input limbs |
| LogicStark.SoundByBits | evm_arithmetization/src/logic.rs:36-301 | column by column: in a row that meets the constraints, bit i of the result is the AND, OR or XOR of the two columns of bit i, as column 0, 1 or 2 says |
| LogicStark.ApplyAt | evm_arithmetization/src/logic.rs:119-137 | each bit of a result is the operation on the bits in its place |
| LogicStark.SoundForWords | evm_arithmetization/src/logic.rs:247-301 | the same for the 256-bit words of the row |
| LogicTrace.IntoRow | evm_arithmetization/src/logic.rs:164-187 | the filled row holds the flag, the bits of the inputs and the limbs of the result |
| LogicTrace.RowColumns | evm_arithmetization/src/logic.rs:164-187 | what such a row has in each of its 523 columns, by their numbers |
| LogicTrace.RowMeetsConstraints | evm_arithmetization/src/logic.rs:164-301 | the row of every operation meets all constraints |
| LogicTrace.PaddingMeetsConstraints | evm_arithmetization/src/logic.rs:217-236 | so does a padding row |
| LogicTrace.GenerateTraceRows | evm_arithmetization/src/logic.rs:217-236 | the trace has the least power of two of rows that is at least the asked number and that of the operations: the operations' rows, then zero rows |
| LogicTrace.TraceMeetsConstraints | evm_arithmetization/src/logic.rs:217-301 | every row of a generated trace meets all constraints |
| TrieRuns.FixedLengthIsPrefixFree | mpt_trie/src/trie_ops.rs:432-522 | keys of one length are prefix-free |
| SmtBits.AddBit | smt_trie/src/bits.rs:76-80 | the copy has the bit behind |
| SmtUpdate.PutLeaf | smt_trie/src/smt.rs:266-277 | a leaf set in an empty slot, or over the leaf of the same key, is the canonical tree of the map with the value |
| SmtUpdate.DropRoot | smt_trie/src/smt.rs:258-263 | taking the only leaf out leaves the empty tree of the empty map |
| SmtUpdate.DropLeaf | smt_trie/src/smt.rs:212-222 | a leaf whose sibling is an internal node can simply be cleared |
| SmtUpdate.NothingThere | smt_trie/src/smt.rs:209-212 | when the walk ends at an empty slot or at the leaf of another key, the map does not hold the key |
| SmtUpdate.FoundLeaf | smt_trie/src/smt.rs:184-193 | the key joined from a leaf at the end of a walk is the leaf's own key, and tells whether the map holds the key looked for |
| Smt.SmtState.ForkPoint | smt_trie/src/smt.rs:280-285 | the loop stops at the first bit in which two keys differ, before 252 |
| Smt.SmtState.NewChain | smt_trie/src/smt.rs:293-310 | the loop builds the chain of internal nodes from the fork up |
| Smt.SmtState.Climb | smt_trie/src/smt.rs:235-241 | the loop stops below the first node with two children, or at the root |
| Smt.SmtState.MoveUp | smt_trie/src/smt.rs:223-255 | the sibling leaf, rehashed for its new depth, makes the tree of the map without the key |
| SegmentAggregation.ProverSucceeds | evm_arithmetization/src/fixed_recursive_verifier.rs:1877-1961 | helper, by unfolding definitions: the values the prover fills in satisfy the circuit exactly when the segments follow each other and agree on all metadata |
| TxnAggregation.TxnProverSucceeds | evm_arithmetization/src/fixed_recursive_verifier.rs:1997-2050 | helper, by unfolding definitions: the prover's values satisfy the circuit exactly when the right side continues the left, both are full runs, and both start with the same registers |
| BlockAggregation.FirstBlockSucceeds | evm_arithmetization/src/fixed_recursive_verifier.rs:2112-2248 | helper, by unfolding definitions: with the dummy parent the prover builds, the first block's circuit is met exactly when the block starts from the checkpoint with empty transaction and receipt tries and its gas adds up |
| LogicStark.OpcodeTellsOp | evm_arithmetization/src/logic.rs:83-107 | helper, by unfolding definitions: the opcode column of the lookup tells the operation |
| ExtensionTower.BnSumsFit | evm_arithmetization/src/extension_tower.rs:49-73 | helper, by unfolding definitions: sums and differences of BN254 elements fit in 256 bits |

## Left out

- plonky2 and starky (FRI, commitments, the challenger, circuit building and serialization): a verified proof is
  modelled as a node of a tree whose public values satisfy the circuit's relations.
- Keccak and Poseidon internals: the trie takes the hash function as a parameter, the sparse tree uses ideal digests.
  Two different kinds of sparse-tree nodes with the same eight elements have different digests here.
- `Smt::set_hash`, and opaque nodes inside `set` runs: opaque digests appear only in the serialization.
- Smt.SmtState.Set: keys that agree on their first 252 path bits are excluded, because the code then shifts a limb by
  its whole width; runs over keys that part earlier are covered completely.
- SmtSerialize.Decode: the source would follow a child pointer backwards; the model calls that an error, and proves
  that the serializer never makes one.
- `Smt::serialize`, which passes all stored keys to `serialize_and_prune`, and the 256-bit encoding of digests.
- The trie's assertion that merged nibbles number at most 64: keys in the trie modules are sequences of any length,
  and the limit appears only in the packed modules.
- InsertContent.InsertLookup: values are taken to be nonempty, as the RLP encodings that callers insert are.
- TrieCommitment.EncodingCommits: the lengths of encodings are taken to fit in 64 bits, as they do on the machine.
- `get`, and the in-place `TrackedNode.Mark`, in builds without overflow checks: running out of nibbles in an extension
  is modelled as the panic of a build with them. What marking then does is in `ClampedMarking`, on values.
- The reset of a tracked trie after an error in marking: an error ends the call.
- Block metadata, registers and memory caps hold field elements without their byte encodings; the two-to-one
  aggregation of blocks of different chains is not modelled.
- The right child's proof in a segment aggregation with a dummy: it is verified but none of its values is used.
- Pairings, curve points, the tower above the base fields, and Frobenius tables.
- The recursive form `eval_ext_circuit` of the logic constraints, and the cross-table lookup argument itself.
- `type1.rs`'s `frontend`, which inserts the parsed tree into tries, and the byte-level parser in `wire.rs`.
- `trace_decoder/src/type2.rs`, `Nibbles::from_hex_prefix_encoding`, `ProofBuilder` beyond its path parsers, logging,
  serde, benches, networking and command-line code.
