# Verification of the BHLayer2 node's core

Models, in Dafny 4.11, of the parts of the repository where correctness is hardest to see, with proofs:

- **The Verkle tree** (`Validatable/verkle`). A 256-ary trie over 31-byte stems whose leaves hold 256 values.
  `Trie` says as a value what insertion, lookup and deletion compute; `TrieRuns` proves that runs of them are a
  finite map with a canonical shape, `Forks` when a deletion undoes an insertion. `LeafScalars` says digit by digit what
  the polynomials of a leaf hold. `LeafNodes`, `InternalNodes` and `Commits` are the nodes as heap objects that
  are updated in place, with cached commitments and the copy-on-write record of old child commitments; their
  methods refine `Trie`, and `Commits.CommitRoot` patches the caches level by level to exactly the commitments of a
  computation from scratch. `TreeRuns` and `VerkleTrees` put runs and `Build` on top.
- **Multiproofs and stateless trees.** `Multiproof`, `Stateless` and `ProofPlan` say what a proof consists of,
  `ProofItems`, `Extraction` and `Proofs` are the loops that collect it and that rebuild a tree from it, `Rebuild`,
  `Building`, `Planning` and `RoundTrip` prove the way round. `Chains`, `OpeningOrder`, `Contents` and `Readings` pin what
  a proof holds without reference to how it is collected: the union over its keys, one list only, and for each key its
  links, its status byte and the scalars of its value. `Wire` is the state diff, `Snapshot` connects the heap
  tree with the tree proofs are made from, `Migration` is the bulk insertion, `Encoding` the encodings of leaves and internal nodes.
- **The slot life cycle** (`SlotLife`, `SlotRuns`, `Tracking`, `Eliminators`): commit, heartbeat, vote, proof, expiry and
  task accounting as a protocol of atomic handlers, with invariants over every run; the handlers as objects refine it.
- **Compact algorithms**: the promote-odd Merkle tree (`Merkle`), the collector's greedy selection (`Collecting`), and
  advice, rounds and slot names of the scheduler (`Scheduling`).

How things are modelled:

- Group elements are written as logarithms to a fixed base, so the group law is integer addition; generators are
  arbitrary. Everything stated is an equation between sums of products and survives the reduction modulo the group
  order. The map from points to scalars is arbitrary, with the identity going to zero. SHA-256 is an arbitrary
  function with 32-byte results.
- A proof-list entry carries the path of the object that holds its commitment; it stands for the pointer that the
  source compares when it removes duplicates.
- In the slot life cycle a pointer to a shared item is an index into the list of all submitted slots, and the queue is
  a bag from which any message may be taken next, which includes every order of the real channel. The fields of `Log`
  are history only; no handler decides anything by them, and each count in them is the number of events of its kind in
  the run (`TimesIsTally`).
- Codecs for points are arbitrary, and a round trip asks of them only that they bring back the points at hand; for every
  leaf and for every list of points there is such a codec (`SomeCodecIsFaithful`).
- Clocks, certificates, votes and the arrival of messages are parameters or free choices.

Where the code does not meet a property, the exact condition is proved and a concrete run or input shows the failure:

- A slot of a task that needs no proof is finalized twice when a proof event arrives after its vote
  (`LateProofFinalizesTwice`): the finalized flag is set on a copy (`Tracker/tracker.go:87-93`). A slot is finalized at
  most once exactly when no proof event found it tracked and complete (`ExactlyOnce`, `WhenNoProofIsLate`). Nothing in
  the repository calls `Tracker.ReceiveProof` (`Tracker/tracker.go:95-104`) today, so the event is possible only once a
  proof channel is connected.
- A slot hash that is submitted twice can be both expired and finalized (`ResubmissionResolvesTwice`).
- The history of a task accounts for every handled final message of its slots exactly when none was handled before the
  task was registered (`TaskAccounting`); otherwise a finalized slot is lost to its task (`EarlyFinalIsNotCounted`). In
  the source's 32-bit fields the remaining size is always right and the history is right exactly while it fits
  (`AccountingIn32Bits`).
- Two insertion runs with the same values give the same tree exactly when they also wrote to the same stems
  (`CanonicalShape`); writing an empty value to a new stem leaves a leaf (`EmptyWriteLeavesLeaf`).
- Deletion does not undo a fork. Deleting a key gives the tree that never held it exactly when another value of its stem
  stays, or no other stem is alone in sharing a beginning with it (`DeleteUndoesWrites`); for two keys: exactly when they
  differ and have one stem or different first bytes (`ForkOutlivesDelete`).
- A value that is neither nil nor 32 bytes long changes on the wire (`ProofSurvivesWire`) and on disk (`LeafRoundTrip`):
  it comes back filled up with zeros.
- A leaf with an over-long value, or with a first value of fewer than eight bytes, cannot be written: the source slices
  out of range (`SerializeLeaf`).
- The single-slot encoding is faithful exactly when the omitted half commitment is the identity (`ShortFormDropsHalf`).
- Merkle roots bind lists of equal length and equal leaf widths; both conditions are needed (`WidthsMatter`,
  `LengthMatters`).
- A task smaller than the number of nodes is scheduled for more than its size (`SmallTask`), and the first two schedules
  of a task share their number (`FirstTwoSchedulesShareNumber`).

## Model

| member | source | states |
|---|---|---|
| Pedersen.CommitIsLinear | Validatable/verkle/config_ipa.go:89-92 | the commitment to a sum of polynomials is the sum of their commitments |
| Pedersen.CommitPatch | Validatable/verkle/tree.go:1176-1187 | adding the commitment of a one-point difference moves a commitment to the polynomial changed at that point |
| LeafNodes.GetConfig | Validatable/verkle/config_ipa.go:67-87 | the cached point commits to the suffix polynomial of the empty code hash alone, and the two cached scalars are its only non-zero coefficients |
| LeafNodes.EmptyCodeHashShortcut | Validatable/verkle/tree.go:285-300 | cached point plus commitment of the rest equals the plain commitment, for any polynomial with the two cached coefficients |
| LeafNodes.FillSuffixTreePoly | Validatable/verkle/tree.go:1448-1491 | the polynomial of a half, low and high scalar of each value with the 2^128 marker; an error exactly when a value is over 32 bytes |
| LeafScalars.ValueCoefficients | Validatable/verkle/tree.go:1448-1491 | a value's two coefficients: 2^128 plus the number of its first sixteen bytes, and the number of the rest; the first is at least 2^128 exactly for a non-empty value, the second below it, both zero for an empty one |
| LeafScalars.SuffixPolyTellsValues | Validatable/verkle/tree.go:1448-1491 | two halves have one polynomial if and only if their values agree, empty ones taken together and short ones filled up with zeros |
| LeafScalars.ExtensionCoefficients | Validatable/verkle/tree.go:302-320 | the extension polynomial is one, the number the stem writes, the two halves' scalars, and zero elsewhere |
| LeafScalars.LeafPolyTellsStem | Validatable/verkle/tree.go:302-320 | extension polynomials are equal if and only if the stems and both scalars are |
| LeafNodes.LeafNode.New | Validatable/verkle/tree.go:269-321 | C1, C2 and the extension commitment of the values, with or without the shortcut; an error exactly for an over-long value |
| LeafNodes.LeafNode.UpdateCn | Validatable/verkle/tree.go:1189-1222 | a half commitment moves from the stored value to the new one by two one-point differences |
| LeafNodes.LeafNode.UpdateMultipleLeaves | Validatable/verkle/tree.go:1253-1314 | the non-empty values are merged in and all three commitments equal those of a leaf built from the merged values |
| LeafNodes.LeafNode.UpdateLeaf | Validatable/verkle/tree.go:1224-1251 | one value, possibly nil, is stored and the commitments follow |
| LeafNodes.LeafNode.Delete | Validatable/verkle/tree.go:1318-1407 | removes the value, tells whether the leaf is empty, and keeps the commitments, dropping the one of an emptied half |
| LeafNodes.HalfRemoved | Validatable/verkle/tree.go:1362-1392 | subtracting a half's scalar gives the commitment of the leaf without that half |
| Trie.FindAfterInsert | Validatable/verkle/tree.go:367-441 | an insertion merges into the entry of its own stem and changes no other entry |
| Trie.SplitRoom | Validatable/verkle/tree.go:395-430 | two different stems in one slot leave a byte to branch on, so the split recursion ends above depth 31 |
| Trie.ShapeIsDetermined | Validatable/verkle/tree.go:367-441 | a valid tree whose non-root internal nodes have two stems below them is determined by its entries |
| Trie.InsertChildCanonical | Validatable/verkle/tree.go:367-441 | insertion keeps two stems below every non-root internal node |
| Trie.FindAfterDelete | Validatable/verkle/tree.go:586-632 | a deletion removes its key, drops an emptied leaf, and changes no other entry |
| Trie.DeletePopulated | Validatable/verkle/tree.go:586-632 | after a deletion no non-root internal node is without children |
| TrieRuns.GetAfterRun | Validatable/verkle/tree.go:361-441 | after any run of insertions Get returns the last non-empty value written, and an empty one elsewhere; exactly nil elsewhere when no empty value was written |
| TrieRuns.RunIsCanonical | Validatable/verkle/tree.go:367-441 | every insertion run ends in a canonical tree |
| TrieRuns.CanonicalShape | Validatable/verkle/tree.go:367-441 | two insertion runs end in the same tree if and only if they store the same values and wrote to the same stems |
| TrieRuns.MapDeterminesTrie | Validatable/verkle/tree.go:367-441 | without empty values, same final map if and only if same tree, and then the same root commitment |
| TrieRuns.EmptyWriteLeavesLeaf | Validatable/verkle/tree.go:388-394 | a run that writes nil to a new stem reads like the empty tree and is a different tree |
| TrieRuns.InsertsThenDeletes | Validatable/verkle/tree.go:586-632 | insertions then deletions leave exactly the undeleted last writes, without empty leaves or empty non-root nodes, on valid paths |
| Forks.DeleteKeepsShape | Validatable/verkle/tree.go:586-632 | in a canonical tree a deletion leaves two stems below every non-root internal node if and only if its leaf stays or no other stem is alone in sharing a beginning with the dropped one |
| Forks.DeletionsRestore | Validatable/verkle/tree.go:586-632 | deletions after insertions give the tree of a run that wrote just the remaining values if and only if the result is canonical |
| Forks.DeleteUndoesWrites | Validatable/verkle/tree.go:586-632 | one deletion gives the tree that never held the key if and only if another value of its stem stays or no other stem is alone in sharing a beginning with it |
| Forks.ForkOutlivesDelete | Validatable/verkle/tree.go:586-632 | with two keys: if and only if they differ and have the same stem or different first bytes |
| InternalNodes.InternalNode.CowChild | Validatable/verkle/tree.go:350-359 | records a child's commitment unless one is recorded; the node stays the commitment of recorded-or-current children |
| InternalNodes.InternalNode.InsertValuesAtStem | Validatable/verkle/tree.go:367-441 | the heap tree becomes the trie after insertion, the cached commitment stays that of recorded-or-current children at every node, every dirty child is recorded by its parent; an error exactly for an over-long value |
| InternalNodes.InternalNode.InsertBySplitting | Validatable/verkle/tree.go:395-430 | a leaf of another stem is moved down below new internal nodes, whose records and commitments are in order |
| InternalNodes.InternalNode.Insert | Validatable/verkle/tree.go:361-365 | one value at one key |
| InternalNodes.InternalNode.GetValuesAtStem | Validatable/verkle/tree.go:546-584 | the walk over the heap finds what the trie holds at the stem |
| InternalNodes.InternalNode.Get | Validatable/verkle/tree.go:766-784 | the value of a key, nil when absent, an error exactly for a key of another length |
| InternalNodes.InternalNode.Delete | Validatable/verkle/tree.go:586-632 | the heap tree becomes the trie after deletion, with commitments and records in order |
| InternalNodes.InternalNode.PresentIsDeletable | Validatable/verkle/tree.go:1385-1390 | a key with a value always has the half commitment that its deletion needs |
| Commits.SubtractPairs | Validatable/verkle/tree.go:880-888 | the in-place compaction leaves each pair's difference, no pair is overwritten before it is read |
| Commits.PatchNode | Validatable/verkle/tree.go:890-908 | a node's commitment moves to its children's current commitments at exactly the recorded positions |
| Commits.CommitNodesAtLevel | Validatable/verkle/tree.go:858-908 | does so for all nodes of a level, each with its own share of the gathered points |
| Commits.CommitLevel | Validatable/verkle/tree.go:822-846 | any split of a level into batches has the same effect |
| Commits.FillLevels | Validatable/verkle/tree.go:799-807 | collects exactly the nodes with records, each once, under its depth |
| Commits.CleanMeansCommitted | Validatable/verkle/tree.go:809-849 | a subtree without records carries the commitments of a computation from scratch |
| Commits.CommitRoot | Validatable/verkle/tree.go:809-849 | after Commit every record is empty and the root commitment equals the recursive commitment of the trie |
| TreeRuns.InsertAll | Validatable/verkle/tree.go:361-441 | any run of insertions and a Commit: the tree of the run, with all cached commitments as from scratch |
| TreeRuns.DeleteAll | Validatable/verkle/tree.go:586-632 | any run of deletions of present keys and a Commit: exactly those keys are gone, commitments as from scratch |
| TreeRuns.InsertThenDelete | Validatable/verkle/tree.go:586-632 | insertions, Commit, deletions, Commit: reads are the undeleted last writes, the root commitment is that of the result |
| VerkleTrees.VerkleTree.Build | Validatable/verkle/VerkleTree.go:17-30 | stores every 32-byte leaf under itself and commits; an error exactly when a leaf is longer |
| VerkleTrees.BuildDependsOnSet | Validatable/verkle/VerkleTree.go:17-30 | two leaf lists give the same tree if and only if they have the same members |
| VerkleTrees.MembershipProof | Validatable/verkle/VerkleTree.go:32-49 | the proof of one key arrives over the wire as it was made, and the tree rebuilt from it answers with the key when it is a leaf and with nil when not |
| VerkleTrees.VerkleTree.GetProof | Validatable/verkle/VerkleTree.go:32-49 | a built tree makes and serializes the proof of any of its leaves without error, with one status byte, which is 2 modulo 4 |
| VerkleTrees.StatusTellsMembership | Validatable/verkle/VerkleTree.go:32-49 | the proof of one key has one status byte; it is 2 modulo 4 if and only if some leaf of the tree shares the key's stem, and its upper bits are the depth of the walk's end |
| VerkleTrees.StatusOfSingleLeaf | Validatable/verkle/VerkleTree.go:32-49 | in the tree of one leaf the status byte of its proof is 10 |
| Snapshot.CommittedIsResolved | Validatable/verkle/tree.go:941-990 | the cached commitments of a committed heap tree are, node by node, those the proofs are about |
| Multiproof.OpeningsAreHonest | Validatable/verkle/tree.go:941-1049 | every opening of a committed tree satisfies C = Commit(f) and y = f[z], with 2*suffix wrapped to a byte |
| Multiproof.OpeningsHaveNoRepeats | Validatable/verkle/tree.go:121-164 | the root's list has no two openings of the same commitment at the same point |
| Multiproof.MergeKeepsClaims | Validatable/verkle/tree.go:121-164 | merging loses no claim and adds none |
| Chains.OpeningsAreUnion | Validatable/verkle/tree.go:941-1049 | a place and index is opened if and only if one of the keys needs it, each key taken by itself |
| Chains.OpeningsSayTheTree | Validatable/verkle/tree.go:941-1049 | each opening carries the commitment of the node or half at its place and that polynomial's value at its index |
| OpeningOrder.MergedInOrder | Validatable/verkle/tree.go:121-164 | the merged list is strictly ordered by place, then index |
| Contents.OneListOnly | Validatable/verkle/tree.go:941-1642 | the openings of sorted keys are the one ordered list that opens what some key needs and says what the tree holds there |
| Contents.CommitmentsAreTheOpenedOnes | Validatable/verkle/proof_ipa.go:245-260 | the proof's commitments are those of the opened places, each once, in path order, without the root |
| Contents.AbsenceStemsAreRunInto | Validatable/verkle/tree.go:1557-1591 | a stem is among the absence stems if and only if no key has it and some key's walk ends in its leaf |
| Contents.ValuesAreRead | Validatable/verkle/proof_ipa.go:229-269 | a proof shows for each key what Get reads there |
| Readings.StatusByteNamesTheEnd | Validatable/verkle/doc.go:43-48 | a stem's status byte is 8 times the depth of its walk's end, plus 2 in its own leaf, 1 in a leaf of another stem, 0 in an empty slot; 2 modulo 4 if and only if the tree has the stem |
| Readings.LinkIsOpened | Validatable/verkle/tree.go:941-990 | every node on a key's way is opened at the key's next byte, to the scalar of the child's commitment |
| Readings.EmptySlotIsOpened | Validatable/verkle/tree.go:1015-1035 | a key that ends in an empty slot has its last node opened to zero there |
| Readings.StemIsOpened | Validatable/verkle/tree.go:1493-1513 | a key that ends in a leaf has it opened to one at 0 and to the number of the leaf's stem at 1 |
| Readings.ValueIsOpened | Validatable/verkle/tree.go:1593-1638 | a key whose stem is present has its half opened in the leaf, and its value's two coefficients opened in the half |
| ProofItems.GroupKeys | Validatable/verkle/tree.go:911-939 | the maximal stretches of neighbouring keys with one byte at the depth |
| ProofItems.RunsAreGroups | Validatable/verkle/tree.go:911-939 | on sorted keys with a common prefix the stretches are the keys of each child, in child order |
| ProofItems.ProofElements.Merge | Validatable/verkle/tree.go:121-164 | appends the other's unknown claims in order with the four lists in lockstep, its unknown paths, and its values |
| Extraction.HalvesAsked | Validatable/verkle/tree.go:1513-1528 | on sorted keys the early exit misses neither half |
| Extraction.LeafProofItems | Validatable/verkle/tree.go:1493-1642 | the openings, commitments by path, values, statuses and absence stems of a leaf; an error exactly when a requested half holds an over-long value |
| Extraction.StubProofItems | Validatable/verkle/tree.go:1530-1543 | a stub is walked like a leaf without values and refuses keys of its own stem |
| Extraction.InternalProofItems | Validatable/verkle/tree.go:941-1049 | a node's own openings, one per child on a key's way, then everything of those children |
| Extraction.GetProofItems | Validatable/verkle/tree.go:941-1049 | all lists of the subtree; an error exactly when a key leads to an unknown node, to a stub of its stem, or to an over-long half |
| Extraction.PartialIsAnswerable | Validatable/verkle/proof_ipa.go:272-283 | what the keys reveal of a tree that can be answered can be answered for the same keys |
| Extraction.EmptySlotItems | Validatable/verkle/tree.go:1015-1035 | one absent-empty status per stem with the depth of the empty slot, a nil value per key |
| ProofPlan.PathCommsSorted | Validatable/verkle/proof_ipa.go:245-260 | the commitments in preorder are strictly sorted by path |
| ProofPlan.AbsenceSorted | Validatable/verkle/proof_ipa.go:481-484 | the absence stems come out strictly sorted |
| ProofPlan.StemsSorted | Validatable/verkle/proof_ipa.go:463-472 | sorted keys give strictly sorted stems |
| ByteOrder.SortStrings | Validatable/verkle/proof_ipa.go:255-256 | the strictly sorted list of the same strings |
| Proofs.SortedCommitments | Validatable/verkle/proof_ipa.go:245-260 | sorting the map's paths and dropping the root gives the preorder commitments |
| Proofs.GetProofElementsFromTree | Validatable/verkle/proof_ipa.go:187-227 | sorts the keys and extracts every list of the root, with the post-values where they differ; an error exactly for no keys, an unanswerable key or an unreadable post-value |
| Proofs.PostValueMeans | Validatable/verkle/proof_ipa.go:208-222 | a post-value is nil if and only if both reads have equal bytes or the new one is nil, and otherwise the new one |
| Proofs.MakeVerkleMultiProof | Validatable/verkle/proof_ipa.go:229-269 | the proof of the tree with its commitments in path order and the root left out, in the same error cases |
| Proofs.VerifierElements | Validatable/verkle/proof_ipa.go:272-283 | the verifier rebuilds the tree from an honest proof, extracts from it without error, and its (C, z, y) list and values are the prover's |
| Stateless.PackRoundTrip | Validatable/verkle/tree.go:1020-1031 | status and depth up to 31 survive being packed into a byte |
| Rebuild.CreatePathPlaces | Validatable/verkle/tree.go:448-541 | a successful call puts its occupant at its path and takes one commitment per node missing on the way, then those of the occupant |
| Rebuild.CreatePathOnWay | Validatable/verkle/tree.go:516-541 | missing nodes on the way get the next commitments in order, the others keep theirs |
| Rebuild.CreatePathKeeps | Validatable/verkle/tree.go:448-541 | everything off the way stays as it was |
| Building.CreateInside | Validatable/verkle/tree.go:516-541 | paths that go on below one internal child act inside that child only |
| Building.BuildLeaf | Validatable/verkle/tree.go:456-514 | a leaf or stub takes exactly its own commitments off the list |
| Building.BuildNode | Validatable/verkle/tree.go:448-541 | the run of paths below a node rebuilds the partial node and consumes exactly its commitments |
| Planning.AssignNode | Validatable/verkle/proof_ipa.go:496-552 | the loop over the statuses recovers what each path leads to and takes the subtree's absence stems off the front |
| Planning.PresentAtLeaf | Validatable/verkle/proof_ipa.go:486-494 | a leaf's path is in the presence cache exactly when its stem was asked for |
| Proofs.PreStateTreeFromProof | Validatable/verkle/proof_ipa.go:456-584 | the loops compute the rebuilt tree, the leftover commitments, or the error |
| Rebuild.AcceptedProof | Validatable/verkle/proof_ipa.go:456-552 | an accepted proof has as many statuses as stems, absence stems in order, and no status at odds with the values of its stem |
| RoundTrip.TreeIsRebuilt | Validatable/verkle/proof_ipa.go:456-584 | from a proof of a full tree comes the tree cut down to the keys, with every commitment used |
| RoundTrip.StatelessRoundTrip | Validatable/verkle/proof_ipa.go:456-584 | for any committed tree and sorted non-empty keys: every key reads as in the original, all commitments are consumed, and the rebuilt tree stands for the original's (C, z, y) list |
| Stateless.PartialAnswers | Validatable/verkle/tree.go:546-584 | the partial tree answers every requested key with the original value |
| Stateless.PartialSameClaims | Validatable/verkle/proof_ipa.go:272-283 | the partial tree stands for the prover's claims in the prover's order |
| Stateless.ReadResolved | Validatable/verkle/tree.go:766-784 | on the prover's tree a read is Get |
| Wire.SerializeDiff | Validatable/verkle/proof_ipa.go:312-350 | the state diff of the keys, pre-values and post-values; a panic exactly for a value over 32 bytes |
| Wire.DiffLines | Validatable/verkle/proof_ipa.go:312-350 | the lines of the diff are the keys in order, each with stem, suffix, and the words of its old and new value |
| Wire.WordMeans | Validatable/verkle/proof_ipa.go:312-350 | a word is absent exactly for an empty value, otherwise the value's bytes filled up with zeros |
| Wire.DeserializeDiff | Validatable/verkle/proof_ipa.go:414-433 | reads keys and values back in order |
| Wire.DiffRoundTrip | Validatable/verkle/proof_ipa.go:312-433 | flattening the diff returns the keys in order and each value in its 32-byte form |
| Wire.ProofSurvivesWire | Validatable/verkle/proof_ipa.go:312-433 | the values come back unchanged if and only if each is nil or 32 bytes long |
| Wire.OneStatusPerStem | Validatable/verkle/proof_ipa.go:463-475 | sorted keys give distinct stem groups, as many as extension statuses |
| Wire.SerializeProof | Validatable/verkle/proof_ipa.go:296-365 | stems, statuses, encoded commitments and the state diff |
| Wire.DeserializeProof | Validatable/verkle/proof_ipa.go:370-446 | the commitments decoded in order, keys and values read back; an error exactly when a commitment does not decode |
| Wire.SendProof | Validatable/verkle/proof_ipa.go:296-446 | where the codec brings the commitments back nothing fails, and the proof arrives unchanged if and only if every value is nil or 32 bytes long |
| Wire.SomeCodecIsFaithful | Validatable/verkle/proof_ipa.go:302-306 | for every list of points there is a codec that brings them back |
| Wire.RoundTripOverWire | Validatable/verkle/proof_ipa.go:296-584 | the tree rebuilt from a proof that went over the wire answers every key as the original |
| Encoding.SerializeLeaf | Validatable/verkle/tree.go:1839-1912 | picks and writes one of the three forms, short values filled up; a panic exactly for an over-long value or a first value of fewer than eight bytes |
| Encoding.SingleSlotLayout | Validatable/verkle/tree.go:1879-1891 | a leaf with one value alone: 193 bytes, each part at its place |
| Encoding.EoALayout | Validatable/verkle/tree.go:1892-1899 | an account without code: 192 bytes, each part at its place |
| Encoding.FullLayout | Validatable/verkle/tree.go:1900-1908 | any other leaf: a bit per value, three commitments, and each value filled up at the place its bit's rank gives |
| Encoding.SerializeInternal | Validatable/verkle/tree.go:1053-1072 | an internal node is written with a bit per slot that holds something |
| Encoding.InternalLayout | Validatable/verkle/tree.go:1053-1072 | 97 bytes: the type, bit i set if and only if slot i holds something, the commitment |
| Encoding.CreateInternalNode | Validatable/verkle/encoding.go:189-221 | a child for each set bit and the commitment, or an error for wrong lengths or a commitment that does not decode |
| Encoding.InternalRoundTrip | Validatable/verkle/encoding.go:87-91 | parsing a written internal node returns the occupied slots and the commitment |
| Encoding.SetBit | Validatable/verkle/tree.go:1712-1714 | sets one bit of the packed list and no other |
| Encoding.BitOfPacked | Validatable/verkle/encoding.go:66-71 | the mask test reads the packed bit |
| Encoding.ParseLeafNode | Validatable/verkle/encoding.go:101-135 | the loop reads the announced values, then three commitments; too short payloads are errors |
| Encoding.ParseSingleSlotNode | Validatable/verkle/encoding.go:156-187 | one value, one half commitment by its index, identity for the other |
| Encoding.SomeCodecIsFaithful | Validatable/verkle/encoding.go:101-135 | for every leaf there is a codec that brings its commitments back |
| Encoding.LeafRoundTrip | Validatable/verkle/encoding.go:81-187 | parsing a written leaf returns stem, filled-up values and all three commitments, in each form; the leaf itself if and only if every value is nil or 32 bytes long |
| Encoding.ShortFormDropsHalf | Validatable/verkle/encoding.go:156-187 | the single-slot form is faithful if and only if the omitted commitment is the identity |
| Encoding.StoredLeafRoundTrip | Validatable/verkle/tree.go:1646-1649 | so it is for any leaf the tree keeps synced |
| Migration.FirstDiffByteIdx | Validatable/verkle/conversion.go:91-98 | the first position where two different stems differ |
| Migration.SplitIsFork | Validatable/verkle/conversion.go:201-220 | the multi-level fork makes the nodes of the recursive split |
| Migration.BuildFork | Validatable/verkle/conversion.go:206-220 | the loop over the fork's levels |
| Migration.InsertMigratedLeaf | Validatable/verkle/conversion.go:151-223 | one leaf: equals inserting the values its stem lacks; an error exactly when a missing value of an existing leaf is over-long |
| Migration.InsertMigratedLeaves | Validatable/verkle/conversion.go:100-148 | the split into stretches by first byte equals inserting the leaves one after the other; an error exactly when one of them cannot be merged |
| Migration.StretchesAreIndependent | Validatable/verkle/conversion.go:124-143 | stretches with different first bytes can be inserted in either order, and neither decides whether the other fails |
| Migration.FillsOnlyGaps | Validatable/verkle/conversion.go:150-226 | every key keeps its value, otherwise takes the first migrated one; paths and canonical shape stay |
| SlotLife.StepIsGood | Epoch/EpochManager.go:27-91 | every handler step keeps the invariant |
| SlotRuns.TimesIsTally | Epoch/EpochManager.go:35-77 | over every run the history of a slot counts the events of each kind: proofs seen, proofs late, final messages handled, credited, missed |
| SlotRuns.ExactlyOnce | Tracker/tracker.go:65-138 | over every run: never both finalized and expired, finalized only with vote and proof, resolved exactly once after expiry if and only if no proof event found the slot complete, all messages handled when the queue holds none |
| SlotRuns.TasksAreRegistered | Tracker/tracker.go:26-33 | a task is tracked if and only if an event registered it, with that event's total and flag; it is registered once |
| SlotRuns.ProofFlag | Tracker/tracker.go:65-66 | a slot's proof flag is set if and only if a proof event happened to it or its task was registered as reliable before the slot came in |
| SlotRuns.PassedIsAnnounced | handler/voteHandler.go:39-54 | a hash is announced as won if and only if some vote event of the run passed it |
| SlotRuns.FinalNeedsVoteAndProof | Tracker/tracker.go:77-104 | a slot with a final message had its hash pass a vote, and had a proof event or a task registered as reliable before it |
| SlotRuns.UnreliableNeedsProof | Tracker/tracker.go:65-104 | a slot of a task never registered as reliable gets no final message without a proof event |
| SlotRuns.SlotsAreSubmissions | Epoch/EpochManager.go:35-50 | the slots are the submissions in order, each with its own hash, task and process |
| SlotRuns.RecordIsNoted | paradigm/oracle.go:128-221 | at every time the epoch record holds what the events since the last tick noted, and the epoch number counts the ticks |
| SlotRuns.WhenNoProofIsLate | Tracker/tracker.go:95-104 | no proof event finds a slot complete if it needs a proof and its hash gets at most one event, or needs none and gets none |
| SlotRuns.LateProofFinalizesTwice | Tracker/tracker.go:87-93 | a run in which a slot is finalized twice and its process counted twice |
| SlotRuns.ResubmissionResolvesTwice | Tracker/tracker.go:65-75 | a run in which a hash is submitted twice and is both expired and finalized |
| SlotRuns.TaskAccounting | paradigm/track.go:14-48 | over every run: history accounts for all handled final messages of the task if and only if none was handled before the task was registered; size is what the total lacks; the timer schedules exactly the units left again, and nothing when none are |
| SlotRuns.UnprocessedIsPutUp | Tracker/tracker.go:105-116 | over every run the scheduler is given exactly the registered totals and, at each timer of an unfinished task, the units left then |
| SlotRuns.HistoryIsSettled | paradigm/track.go:14-25 | with no such message and no late proof, history is the process of the finalized slots without a waiting message, each once |
| SlotRuns.RegisteredFirstMissesNone | Tracker/tracker.go:55-62 | no message is missed when slots are only submitted for registered tasks |
| SlotRuns.EarlyFinalIsNotCounted | Tracker/tracker.go:55-62 | a run in which a slot is finalized once before its task is registered and the task starts from nothing |
| SlotRuns.AccountingIn32Bits | paradigm/track.go:14-48 | in int32 fields the remaining size is right, and history is right if and only if it fits |
| SlotLife.HandleIsGood | Epoch/EpochManager.go:35-77 | handling any message keeps the invariant |
| SlotLife.CountVotesIsGood | handler/voteHandler.go:16-54 | announcing the winners of a heartbeat keeps each hash to one vote |
| SlotLife.ExpireSlotIsGood | Tracker/tracker.go:118-133 | a slot's expiry keeps the invariant |
| SlotLife.ReceiveProofIsGood | Tracker/tracker.go:95-104 | a proof event keeps the invariant |
| Tracking.VoteHandler.Process | handler/voteHandler.go:16-54 | announces each hash of the heartbeat with at least half of its votes in favour, once; no votes are enough |
| Tracking.PassesUnlessRejected | paradigm/vote.go:13-28 | a hash passes if and only if no more votes reject it than accept it |
| Tracking.OrderDoesNotMatter | handler/voteHandler.go:16-38 | the order of the answers does not change what passes |
| Tracking.Tracker.UpdateSlot | Tracker/tracker.go:65-75 | a slot is tracked, its timer started, its proof flag set for a reliable task |
| Tracking.Tracker.CheckFinalized | Tracker/tracker.go:87-93 | finalizes the shared item of a complete slot and loses the flag raised on the copy |
| Tracking.Tracker.WonVote | Tracker/tracker.go:77-86 | the step of a won vote |
| Tracking.Tracker.ReceiveProof | Tracker/tracker.go:95-104 | the step of a proof event |
| Tracking.Tracker.CollectExpiredSlot | Tracker/tracker.go:117-133 | the step of a slot's expiry |
| Tracking.Tracker.CollectExpiredTask | Tracker/tracker.go:108-116 | the step of a task's expiry |
| Tracking.Tracker.Commit | Tracker/tracker.go:55-62 | a finalized slot's process goes into its task; an error exactly for an unknown task |
| Tracking.EpochManager.Handle | Epoch/EpochManager.go:35-77 | one message of the dispatch loop is one protocol step |
| Tracking.EpochManager.UpdateEpoch | Epoch/EpochManager.go:93-130 | the heartbeat takes the record's commits along and a fresh record begins |
| Tracking.EpochManager.CollectVotes | handler/voteHandler.go:39-54 | counting the votes of a heartbeat is one protocol step |
| Tracking.EpochManager.Step | Epoch/EpochManager.go:27-91 | whatever event comes next, the objects take the protocol's step and keep its invariant |
| Tracking.EpochManager.Execute | Epoch/EpochManager.go:27-91 | any run of events ends in the state the protocol gives |
| Eliminators.Eliminator.Step | Tracker/Eliminators.go:27-47 | an item leaves exactly when one is due |
| Eliminators.Eliminator.Start | Tracker/Eliminators.go:27-47 | over any number of turns items are conserved, and each turn releases an item exactly when one held at its beginning is due by its clock, then one of the earliest |
| Eliminators.AtMostOnce | Tracker/Eliminators.go:27-47 | an item that came in once leaves at most once |
| Eliminators.LeavesAfterArrival | Tracker/Eliminators.go:27-47 | an item leaves in a turn whose clock has reached its time, after the turn it arrived in |
| Merkle.BuildMerkleTree | utils/merkle.go:10-34 | all levels, and the recursive hash as root; nothing for no leaves |
| Merkle.LevelsComputeTreeHash | Validatable/merkle/MerkleTree.go:19-44 | level-by-level building equals the recursive split at the largest power of two below n (section 2.1 of RFC 6962, no prefixes) |
| Merkle.Height | Validatable/merkle/MerkleTree.go:27-42 | the number of levels above the leaves is the base-two logarithm rounded up |
| Merkle.GetMerkleProof | utils/merkle.go:43-71 | the list read backwards folds the leaf to the root |
| Merkle.MerkleTree.Build | Validatable/merkle/MerkleTree.go:19-44 | the tree of the new leaves, or an error and the old tree for no leaves |
| Merkle.MerkleTree.GetRoot | Validatable/merkle/MerkleTree.go:12-17 | the recursive hash of the leaves |
| Merkle.MerkleTree.GetProof | Validatable/merkle/MerkleTree.go:46-82 | each pair holds the node its level's fold has reached, and the fold ends at the root |
| Merkle.FoldReachesEachLevel | Validatable/merkle/MerkleTree.go:50-76 | the items below a level fold to the leaf's ancestor there, promoted levels included |
| Merkle.ReverseInPlace | Validatable/merkle/MerkleTree.go:77-80 | the swapping loop reverses |
| Merkle.Binding | Validatable/merkle/MerkleTree.go:19-44 | equal roots over equal lengths and widths: equal lists, or two inputs with one hash |
| Merkle.WidthsMatter | Validatable/merkle/MerkleTree.go:31-33 | different leaf widths allow equal roots for different lists |
| Merkle.LengthMatters | Validatable/merkle/MerkleTree.go:27-42 | different lengths allow equal roots |
| Collecting.Collector.BinarySearch | Collector/collector.go:42-60 | the last position with at least the given size |
| Collecting.Collector.ProcessSlotUpdate | Collector/collector.go:28-69 | inserts one item behind the last of at least its size, keeps descending order and all items |
| Collecting.Collector.ProcessCollect | Collector/collector.go:75-95 | the fewest slots whose sizes sum to the request, or all when no selection reaches it; an error exactly for another task |
| Collecting.PrefixIsSelected | Collector/collector.go:82-95 | the sum of the first k slots is that of the selection of exactly those |
| Collecting.SelectedOneMore | Collector/collector.go:82-95 | selecting one more slot adds its size |
| Collecting.FirstOnesAreBest | Collector/collector.go:82-95 | no selection of k items sums to more than the first k |
| Collecting.ShortOnlyIfAllShort | Collector/collector.go:82-95 | the selection falls short only when all items together do |
| Scheduling.Advice | Monitor/monitor.go:79-100 | equal shares capped by the slot size and at least one, the remainder on the first node; the total |
| Scheduling.RoundsAreExact | paradigm/track.go:41-48 | a task of at least one unit per node is scheduled for exactly its size, in as many rounds as its even share takes slots |
| Scheduling.RoundsAreBounded | Monitor/monitor.go:79-98 | at most the rounds that full slots on all nodes need |
| Scheduling.SmallTask | Monitor/monitor.go:91-97 | a task of fewer units than nodes takes one round and is given one unit per node too many |
| Scheduling.SlotIdInjective | Schedule/scheduler.go:69-72 | slot names determine task, schedule and node, whatever the task name |
| Scheduling.SlotIdReads | Schedule/scheduler.go:69-72 | a slot name is task, schedule and node in this order, parted by underscores, and both numbers read back |
| Scheduling.DecimalReads | Schedule/scheduler.go:69-72 | a decimal string holds digits only, no leading zero, and reads back as its number |
| Scheduling.Scheduler.GenerateSynthSchedule | Schedule/scheduler.go:63-103 | slots named with the new number, distinct from each other and from all names before; the schedule carries the number before it |
| Scheduling.FirstTwoSchedulesShareNumber | Schedule/scheduler.go:64-68 | the first two schedules of a task both carry number 0, their slots differ |

## Left out

- Migration.InsertMigratedLeaf: works on the trie as a value, not on heap nodes; the walk through shared parents and the copy-on-write records it leaves are not modelled, nor are commitments after it.
- Migration.BuildFork: builds the fork's nodes from the fork upwards, where the source links them top-down.
- Migration.InsertMigratedLeaves: the stretches run in sequence; that their order does not matter is Migration.StretchesAreIndependent.
- Proofs.PreStateTreeFromProof: builds a tree value instead of mutating nodes in place; index panics of malformed proofs are error results, the order of errors is the source's.
- Rebuild.CreatePathPlaces: a panic on a missing commitment is an error result here.
- Proofs.MakeVerkleMultiProof: ends where the multipoint argument begins; what goes into the argument is the contract.
- Proofs.VerifierElements: ends where the check of the multipoint argument begins.
- VerkleTrees.VerkleTree.GetProof: the serialized multipoint argument is not part of it.
- VerkleTree.Verify, which extracts from the prover's own tree and hands the rest to the multipoint argument.
- Encoding.CreateInternalNode: children are presence bits; the placeholders' resolving is left out.
- Encoding.SerializeLeaf: a first value of fewer than eight bytes panics here; the source can read beyond its length when its capacity allows.
- Tracking.Tracker.Commit: works on unbounded integers; SlotRuns.AccountingIn32Bits relates them to the source's int32 fields, for processes that are not negative.
- Extraction.GetProofItems: runs on a snapshot value of the tree (unknown nodes and stubs included) instead of heap nodes; depths are passed along instead of stored.
- Commits.CommitLevel: goroutines of one level run one after the other; they touch disjoint nodes.
- Tracking.EpochManager.Handle: items are records in a list instead of separate heap objects; one handler body is one atomic step, races inside a handler are not modelled.
- Scheduling.Advice: sizes are unbounded natural numbers, at least one node and a slot size of at least one.
- Collecting.Collector.ProcessSlotUpdate: sizes are unbounded integers; the reconstruction that follows a collection is external.
- Eliminators.Eliminator.Pop: the binary heap of the standard library is a bag from which a least item is taken.
- Tasks registered twice (the source overwrites the first) and negative totals or processes are no events of the protocol.
- After an over-long value an insertion stops with an error; the half-updated tree the source leaves is not described.
- Inserting, proving or serializing after a deletion emptied half a leaf: the source leaves a nil commitment there.
- Hashed nodes, resolvers, flushing, batch serialization, tree merging, JSON and dot output.
- The IPA argument, point serialization, SHA-256, signatures and certificate checks.
- PostStateTreeFromStateDiff and copying of nodes.
- A new(Point) for a half that was not opened is the identity here; its scalar is never used.
- Aliasing of value slices between callers and leaves; stored values are copied.
- Slots that could not be scheduled, database, network and chain code, logging.
- MerkleTree.Verify, which always returns true.
