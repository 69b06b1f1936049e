# ECCA core: a verified model

This project models the four algorithmic cores of the ECCA stack in Dafny and proves what they
promise, or exactly when they do.

- **Merkle Mountain Range of medulla-pow** (`MerkleTrees`, `Rfc6962`, `MountainRange`, `BoundedRange`,
  `Mmr`). Digests stand for symbolic trees. The specification of a range is a forest kept by a binary
  counter; the class updates its peaks in place and is proved against it. The forest is then compared
  with an independent definition, the recursion of section 2.1 of RFC 6962, which splits at the
  largest power of two below the number of entries (`Rfc6962.SplitIsPowerOfTwo`). The bridge between
  the two is that one bottom-up round of joining neighbours leaves the tree of the standard unchanged
  (`Rfc6962.RfcTreeByPairs`).
- **The medulla-pow chain** (`Headers`, `ChainStates`, `ChainInvariants`, `ChainTheorems`,
  `ChainEffects`, `ChainLimits`, `ChainTips`, `LeadingZeros`, `Chain`). A state machine over
  submissions with an invariant over all runs, and the class whose fields follow it.
- **Merkle trees, proofs and the TypeScript range of packages/crypto** (`PaddedTree`, `MerkleProofs`,
  `SynapticField`, `Hex`). Proof completeness and soundness, and what roots determine.
- **The hippocampus DAG** (`LatticeStore`, `StoreEffects`, `EpochWindows`, `Recall`, `RecallGates`,
  `RecallLimits`, `RecallGrowth`, `ContentAddressing`, `Lattice`). A store with three indices, gated
  depth-first recall over graphs that may be cyclic, and content addressing. Node objects, maps and
  the walk's shared variables are updated in place in `Lattice`.
- **Semantic addresses** (`Words`, `Grammar`, `Presentations`, `CanonicalTexts`, `TextRules`,
  `Addresses`, `AddressParts`, `AddressBook`). Canonical text and what it determines, derivation into
  a buffer, prefix matching and distance, and the address book.

`Wrappers`, `Numbers`, `Sequences`, `Buffers` and `Digests` hold what these share.

## How to read it

SHA-256 is a parameter `H`. No theorem assumes it to be injective: those that need it require
`CollisionFree(H, hashed)`, where `hashed` is the finite set of strings that the computations
in question really hash. The symbolic identifiers of the DAG (`Computed(content)`) stand for the
digest of the canonical fields.

`Valid()` of each class ties its fields to a specification value (a forest, a state, a store), and
each method's `ensures` gives the new value as a function of the old one. Theorems about runs are
lemmas about those functions. `ChainEffects`, `StoreEffects`, `RecallGates`, `AddressParts` and
`TextRules` say once more, in the source's fields and constants and without those functions, what each
operation does. Loops of the source are loops here, with their invariants.

`dafny verify dfyconfig.toml` checks everything.

## Where the code and its documentation disagree

The model follows the code in each case.

- The header comment (chain.go:43) says 180 bytes; the layout and `Marshal` have 184.
- chain.go:46, mmr.go:36-37 and docs/chain_forks.md:8 describe a commitment to, or a window of, the
  last 256 entries. One whole peak is dropped at every append that leaves several, so the range covers
  the last 256 entries only until there are more (`WindowIsLastMaxLeavesIff`); with capacity 256 it
  covers one or two ever after (`RootCommitsToLastTwo`, `FieldRootOfBlock`).
- docs/chain_forks.md:11 gives 16 s as the target per block; the code compares with 240 s per 60 blocks.
- A failed mining attempt leaves its entry in the MMR (`CountsOfRun`).
- A difficulty above 64 makes the shift count negative and `refreshTarget` panics, after the block has
  been stored; the model returns `TargetOverflow` and keeps the old target. A chain gets there only
  with a collision among its own headers (`DifficultyStaysInRange`).
- The recall comment (dag.go:157) admits every pinned node; the code also wants its lease unexpired.
  The signed drift lets some far epochs pass (`DriftGateIff`).
- Recall with limits below the number of admitted nodes can miss nodes within the limits; the limits
  under which it cannot are given by `CompleteIffGuaranteed`.
- A lease is said only to extend (dag.go:119-120); on a pin without expiry it sets one
  (`ApplyKeepsLeasesIff`).
- The TypeScript range (index.ts:195-199) merges only while two peaks are left and so differs from the
  Go one from three entries on (`FieldRootIsMerkleTreeHashIff`).
- `merkleRoot` is called RFC-6962-style but repeats the last node of an odd layer, so lists of
  different lengths can share a root (`SameRootIff`, `DifferentLengthsShareRoot`).
- `derive`, `derivePartial` and `normalize` report three different depths for a grammar with a gap
  (`DepthsAgreeIff`).
- The separators `,` and `>` are not escaped in values (`CommaCollides`, `PartsCollide`); the texts
  determine the values if these do not contain them (`NormalTextTellsValues`).
- `fromHex` accepts text that is not hexadecimal (`TextRoundTripIff`).

## Model

| member | source | states |
|---|---|---|
| MountainRange.RootIsMerkleTreeHash | forks/medulla-pow-go/internal/mmr/mmr.go:46-78 | until the capacity is exceeded (and always when there is none) the incremental root is the recursive Merkle Tree Hash of section 2.1 of RFC 6962 over the whole log, the empty log included; the peaks are the perfect trees of the set bits of the count, largest first, and there are popcount of them |
| MountainRange.RangeIsBinaryForest | forks/medulla-pow-go/internal/mmr/mmr.go:46-64 | the forest kept by the merge loop is the one a binary counter prescribes for the whole log |
| MountainRange.MergeIsIncrement | forks/medulla-pow-go/internal/mmr/mmr.go:50-57 | merging a new tree while bits of the counter are clear is adding one to a binary counter of equal trees |
| MountainRange.BagBinaryForest | forks/medulla-pow-go/internal/mmr/mmr.go:67-78 | bagging those peaks from right to left gives the tree that the top-down split of RFC 6962 builds |
| Rfc6962.MTHIsTreeHash | forks/medulla-pow-go/internal/mmr/mmr.go:18-34 | the standard hash of a log is the digest of a symbolic tree, with the leaf and node prefixes of the code |
| Rfc6962.MTHCases | forks/medulla-pow-go/internal/mmr/mmr.go:13-34 | the three cases of the standard hash with the very bytes hashed: nothing, 0x00 and the entry, 0x01 and the hashes of both halves, split at the largest power of two below the length |
| MerkleTrees.TreeHashInjective | forks/medulla-pow-go/internal/mmr/mmr.go:18-34 | without a collision among the strings hashed, a digest commits to the whole tree, its shape included, thanks to the 0x00 and 0x01 prefixes |
| MerkleTrees.BagKeepsLeaves | forks/medulla-pow-go/internal/mmr/mmr.go:67-78 | bagging neither loses nor reorders leaves |
| BoundedRange.PeaksArePerfect | forks/medulla-pow-go/internal/mmr/mmr.go:50-57 | for any capacity and any log every peak is a perfect tree |
| BoundedRange.WindowIsSuffix | forks/medulla-pow-go/internal/mmr/mmr.go:46-64 | for any capacity the peaks cover a contiguous, non-empty suffix of the log, in order |
| BoundedRange.WindowIsBounded | forks/medulla-pow-go/internal/mmr/mmr.go:59-62 | that suffix has at most one entry more than the capacity, and after an odd number of appends no more than the capacity |
| BoundedRange.WindowNeverFull | forks/medulla-pow-go/internal/mmr/mmr.go:59-62 | for a capacity of at least three the window past the capacity never holds exactly that many entries |
| BoundedRange.WindowIsLastMaxLeavesIff | forks/medulla-pow-go/internal/mmr/mmr.go:36-42 | the documented rolling window holds exactly up to the capacity, or for capacities 1 and 2 when the parities agree, and for no other log |
| BoundedRange.RootCommitsToLastTwo | forks/medulla-pow-go/internal/mmr/mmr.go:59-78 | from twice the capacity on (past the capacity already when it is a power of two, such as 256) the root is the Merkle Tree Hash of the last entry after odd and of the last two after even counts |
| Mmr.RootOf | forks/medulla-pow-go/internal/mmr/mmr.go:46-78 | both formulas for the root of a range in one statement |
| Mmr.MMR.constructor | forks/medulla-pow-go/internal/mmr/mmr.go:44 | an empty range of the given capacity |
| Mmr.MMR.Append | forks/medulla-pow-go/internal/mmr/mmr.go:46-64 | adds the entry to the log; the root returned is the Merkle Tree Hash of the whole log up to the capacity and of the last one or two entries far past it |
| Mmr.MMR.Insert | forks/medulla-pow-go/internal/mmr/mmr.go:47-62 | the peaks become the digests of the forest for the extended log, the drop of the oldest included |
| Mmr.MMR.Merge | forks/medulla-pow-go/internal/mmr/mmr.go:50-56 | the loop over digests carries out the merging of trees |
| Mmr.MMR.Root | forks/medulla-pow-go/internal/mmr/mmr.go:67-78 | the loop returns the digest of the bagged forest, the hash of the empty string when there are no peaks |
| SynapticField.FieldKeepsLog | packages/crypto/src/index.ts:182-199 | after every append the in-order leaves of the peaks are exactly the log |
| SynapticField.FieldRootDeterminesLog | packages/crypto/src/index.ts:202-209 | without a collision among the strings hashed, equal roots mean equal logs |
| SynapticField.FieldForestShape | packages/crypto/src/index.ts:182-199 | from two entries on the peaks are the first leaf alone and behind it a binary-counter forest over the second leaf and pairs of later ones |
| SynapticField.FieldPeaks | packages/crypto/src/index.ts:182-199 | from two entries on there are popcount + 1 peaks and the first is the first leaf |
| SynapticField.FieldRootIsMerkleTreeHashIff | packages/crypto/src/index.ts:178-209 | this range agrees with RFC 6962, hence with the unbounded Go range, exactly for logs of at most two entries |
| SynapticField.SynapticFieldMMR.constructor | packages/crypto/src/index.ts:178-180 | an empty range |
| SynapticField.SynapticFieldMMR.Append | packages/crypto/src/index.ts:182-193 | appends bytes or decoded hexadecimal text and returns the root of the extended log; text that does not decode changes nothing |
| SynapticField.SynapticFieldMMR.Merge | packages/crypto/src/index.ts:184-191 | the loop over digests carries out the merging of trees |
| SynapticField.SynapticFieldMMR.Root | packages/crypto/src/index.ts:202-209 | the bagging loop returns the root of the log so far |
| PaddedTree.LayeredIsPadTree | packages/crypto/src/index.ts:126-134 | the layer loop builds the perfect tree of height ceil(log2 n) in which the last subtree is repeated at each odd layer |
| PaddedTree.DepthIsCeilLog2 | packages/crypto/src/index.ts:126-134 | the number of layers above the leaves is ceil(log2 n) |
| PaddedTree.PadTreeFringe | packages/crypto/src/index.ts:126-134 | that tree is perfect and its leaves are the list with the repetitions written out |
| PaddedTree.RouteToSource | packages/crypto/src/index.ts:164-170 | the bits of any integer index, negative ones included, lead to a leaf of the list, in range to the indexed one |
| PaddedTree.RouteSiblings | packages/crypto/src/index.ts:145-154 | the siblings collected by the prover are the subtrees beside the route to the indexed leaf |
| MerkleProofs.ProofsVerify | packages/crypto/src/index.ts:140-171 | completeness: for every list and index in range the proof exists, has ceil(log2 n) siblings and is accepted for the leaf at that index |
| MerkleProofs.AcceptedIff | packages/crypto/src/index.ts:158-171 | without a collision among the strings hashed, exactly what is accepted against the root of any list, for any integer index and any siblings: nothing for the empty list, otherwise the leaf that the index leads to with the digests beside its route |
| MerkleProofs.AcceptedProof | packages/crypto/src/index.ts:158-171 | soundness with no assumption on list, length or index: without a collision among the strings hashed an accepted proof is for a non-empty list, has exactly the height of the tree in siblings, they are the digests beside the route, and the leaf is the one the index leads to |
| MerkleProofs.VerifiesIff | packages/crypto/src/index.ts:140-171 | the same for an index in range, in terms of the honest proof: accepted if and only if the leaf is the one at the index and the siblings decode to those the prover sends |
| MerkleProofs.FoldFollowsRoute | packages/crypto/src/index.ts:163-169 | the verifier can only reach the digest of a tree along the route that the index bits describe in it |
| MerkleProofs.RouteFolds | packages/crypto/src/index.ts:163-169 | folding the digests beside a route reaches the digest of the tree |
| MerkleProofs.SameRootIff | packages/crypto/src/index.ts:123-136 | two lists have the same root if and only if they are the same after padding |
| MerkleProofs.SameLengthRoots | packages/crypto/src/index.ts:123-136 | lists of the same length have the same root if and only if they are equal |
| MerkleProofs.DifferentLengthsShareRoot | packages/crypto/src/index.ts:128-132 | any three leaves share their root with the same three and the last one again |
| MerkleProofs.SmallRoots | packages/crypto/src/index.ts:107-136 | the roots of no, one and two leaves, down to the bytes hashed |
| MerkleProofs.ProveFailsIff | packages/crypto/src/index.ts:141 | there is a proof exactly for the indices of the list |
| MerkleProofs.VerifierAnswers | packages/crypto/src/index.ts:163-171 | the verifier fails exactly when a sibling does not decode; otherwise it accepts at most one root, in lower-case hexadecimal |
| MerkleProofs.NextLayer | packages/crypto/src/index.ts:127-133 | one pass over a layer gives the digests of the layer above, the last node joined with itself when their number is odd |
| MerkleProofs.MerkleRoot | packages/crypto/src/index.ts:123-136 | returns the digest of the layered tree in hexadecimal, the hash of the empty string for no leaves |
| MerkleProofs.MerkleProof | packages/crypto/src/index.ts:140-156 | returns the honest proof, or an error for an index out of range |
| MerkleProofs.VerifyMerkleProof | packages/crypto/src/index.ts:158-171 | compares the folded digest with the root; a sibling that is not hexadecimal is an error |
| Hex.HexRoundTrip | packages/crypto/src/index.ts:135 | decoding the hexadecimal text of a byte string gives it back |
| TextRules.FromHexIff | packages/crypto/src/index.ts:166 | exactly the texts of an even number of hexadecimal digits, either case, decode, and re-encoding gives the text in lower case |
| TextRules.ToHexIs | packages/crypto/src/index.ts:135 | two lower-case digits a byte, the high one first |
| TextRules.ItemBytesIs | packages/crypto/src/index.ts:183 | an entry is appended as its bytes or as what its hexadecimal text decodes to |
| Headers.MarshalInjective | forks/medulla-pow-go/internal/chain/chain.go:64-76 | headers with the same 184 bytes agree in everything but the ipfs and sleeves roots |
| Headers.BigEndianRoundTrip | forks/medulla-pow-go/internal/chain/chain.go:69-72 | a number that fits the field width is read back from its big-endian bytes |
| Headers.TupleBytesInjective | forks/medulla-pow-go/internal/chain/chain.go:173 | the concatenated roots determine the tuple |
| ChainEffects.CoherenceHashIs | forks/medulla-pow-go/internal/chain/chain.go:173-174 | the coherence hash is that of the cross, evm, ipfs and sleeves roots in this order |
| ChainEffects.HeaderLayout | forks/medulla-pow-go/internal/chain/chain.go:64-76 | the offset and width of every field in the hashed bytes |
| ChainEffects.BigEndianDigit | forks/medulla-pow-go/internal/chain/chain.go:69-72 | the number fields have their most significant byte first |
| Headers.Marshal | forks/medulla-pow-go/internal/chain/chain.go:64-76 | the buffer filled piece by piece is the 184-byte layout |
| ChainStates.FirstNonce | forks/medulla-pow-go/internal/chain/chain.go:189-201 | the search result: the least nonce below 50,000,000 whose hash is below the target, and none only if every attempt misses |
| ChainInvariants.InvariantRun | forks/medulla-pow-go/internal/chain/chain.go:113-187 | after every run, failed submissions included: block i has epoch i, repeats and commits to its tuple, links to the hash of block i - 1, carries the least nonce for the target of its own difficulty, has the difficulty replayed from earlier timestamps, and stands in the MMR log after block i - 1 with the field root the MMR had right then; the log has one entry per block and per failure |
| ChainInvariants.InvariantSubmit | forks/medulla-pow-go/internal/chain/chain.go:158-187 | every submission, mined or not, keeps that invariant |
| ChainEffects.SubmitEffect | forks/medulla-pow-go/internal/chain/chain.go:158-201 | a submission is mined exactly when one of 50,000,000 nonces brings the hash of the written-out header below the target; then the block with the first such nonce, the time and the tuple of the submission is put behind the others and answered, else only the MMR grows |
| ChainEffects.BlocksOfRun | forks/medulla-pow-go/internal/chain/chain.go:113-187 | over every run the first block has the start time, and every later block the time and the tuple of the submission at its position |
| ChainEffects.InitialIs | forks/medulla-pow-go/internal/chain/chain.go:102-124 | the state after genesis, field by field |
| ChainTips.TipDeterminesChain | forks/medulla-pow-go/internal/chain/chain.go:64-81 | two chains reached by any runs, from any initial difficulties, whose tips hash alike consist of the same blocks, unless two of the strings hashed collide or a chain of more than 2^32 blocks has a header that hashes to zero |
| ChainLimits.DifficultyStaysInRange | forks/medulla-pow-go/internal/chain/chain.go:126-129 | unless two headers of the chain itself collide, no run raises the difficulty above 64, where the shift for the target becomes impossible |
| ChainLimits.OverflowNeedsCollision | forks/medulla-pow-go/internal/chain/chain.go:204-221 | a submission that makes the target overflow completes a collision among the headers of the chain |
| ChainLimits.OverflowReached | forks/medulla-pow-go/internal/chain/chain.go:204-221 | with a hash that collides everywhere a run does reach the overflow |
| ChainTheorems.HeaderDifficulties | forks/medulla-pow-go/internal/chain/chain.go:166-184 | each header difficulty is a fold over the initial difficulty and the earlier timestamps; it moves by at most one, only where a multiple of 60 from 120 on blocks precede, and never below 1 |
| ChainEffects.HeaderRetargets | forks/medulla-pow-go/internal/chain/chain.go:204-221 | in every reachable chain the difficulty at 120, 180, ... blocks goes up by one iff the last 60 blocks span less than 120 s, down by one iff they span more than 480 s and it is above 1, and stays otherwise; in terms of header fields alone |
| ChainEffects.StateRetargets | forks/medulla-pow-go/internal/chain/chain.go:204-221 | the same for the difficulty in force after the latest block, which between those lengths is that of the latest block |
| ChainTheorems.ReplayStep | forks/medulla-pow-go/internal/chain/chain.go:204-221 | one more block changes the difficulty by at most one, at lengths 120, 180, ... only |
| ChainTheorems.ReplayBounds | forks/medulla-pow-go/internal/chain/chain.go:204-221 | the difficulty stays at least 1 if it starts there and grows by at most a sixtieth of the chain length |
| ChainTheorems.CountsOfRun | forks/medulla-pow-go/internal/chain/chain.go:158-187 | every submission appends one MMR entry, and exactly the mined ones add a block |
| ChainTheorems.FieldRootOfBlock | forks/medulla-pow-go/internal/chain/chain.go:46 | the field root in a header is the Merkle Tree Hash of all MMR entries so far up to 256 of them, and of the last one or two beyond; the block's own coherence hash is the newest of them |
| ChainTheorems.PositionsCountFailures | forks/medulla-pow-go/internal/chain/chain.go:175-185 | the MMR entry of block i stands as many places behind i as submissions failed before that block |
| ChainTheorems.EpochIsIndex | forks/medulla-pow-go/internal/chain/chain.go:166-183 | the epoch in a header is the index of the block, as uint32 |
| LeadingZeros.BelowTargetIff | forks/medulla-pow-go/internal/chain/chain.go:126-129 | a hash is below the target of a difficulty if and only if its hexadecimal form starts with that many zeros |
| LeadingZeros.BlocksShowWork | forks/medulla-pow-go/internal/chain/chain.go:189-201 | the hash of every mined block of every run starts with as many zeros as its difficulty says, and no smaller nonce achieves that; all 64 digits are zero for a difficulty above 64, which takes a collision |
| Chain.MedullaChain.constructor | forks/medulla-pow-go/internal/chain/chain.go:102-124 | the new chain is the initial state of the state machine, the genesis entry in the MMR included |
| Chain.MedullaChain.SubmitCoherenceRoot | forks/medulla-pow-go/internal/chain/chain.go:158-187 | fields and MMR make exactly the step of the state machine, also when mining fails and its MMR entry stays |
| Chain.MedullaChain.NewHeader | forks/medulla-pow-go/internal/chain/chain.go:164-175 | the header to be mined, with its field root taken after its own entry was appended |
| Chain.MedullaChain.MineAndStore | forks/medulla-pow-go/internal/chain/chain.go:177-186 | the block is stored exactly when a nonce is found |
| Chain.MedullaChain.StoreBlock | forks/medulla-pow-go/internal/chain/chain.go:181-184 | appends the block, advances the epoch and retargets |
| Chain.MedullaChain.MineHeader | forks/medulla-pow-go/internal/chain/chain.go:189-201 | the loop finds the first nonce, or none within the attempts |
| Chain.MedullaChain.MaybeRetarget | forks/medulla-pow-go/internal/chain/chain.go:204-221 | difficulty and target after a block, and whether the shift for the new target is possible |
| Chain.MedullaChain.EpochAnchor | forks/medulla-pow-go/internal/chain/chain.go:249-258 | the backward scan returns the newest block with the epoch; up to 2^32 blocks that is the block at that index, or none |
| Chain.AnchorIsNewest | forks/medulla-pow-go/internal/chain/chain.go:249-258 | whenever there is a block of the epoch the scan answers with one of that epoch that is not older |
| Chain.AnchorByIndex | forks/medulla-pow-go/internal/chain/chain.go:249-258 | the newest block of an epoch is found by plain indexing until the counter wraps |
| LatticeStore.RunWellFormed | forks/hippocampus-dag-go/internal/dag/dag.go:77-138 | after every run of Put, Pin and Lease: nodes are stored under their own non-empty identifiers, each index bucket is the insertion log filtered by its key, and the pinned set is exactly the nodes marked pinned |
| LatticeStore.ApplyWellFormed | forks/hippocampus-dag-go/internal/dag/dag.go:77-138 | every operation keeps that |
| LatticeStore.IndexedExactlyOnce | forks/hippocampus-dag-go/internal/dag/dag.go:87-89 | a stored identifier occurs once in the bucket of its own epoch, stack and kind and nowhere else; other identifiers occur nowhere |
| StoreEffects.PutEffect | forks/hippocampus-dag-go/internal/dag/dag.go:77-94 | what a Put changes: nothing for a taken identifier, else one node with its own pin and expiry, the end of its three buckets and the pinned set |
| StoreEffects.PinEffect | forks/hippocampus-dag-go/internal/dag/dag.go:103-113 | what a Pin changes: the error exactly for unknown identifiers, else this node is pinned with its expiry kept, and until when its pin holds |
| StoreEffects.LeaseEffect | forks/hippocampus-dag-go/internal/dag/dag.go:124-138 | what a Lease changes: the two errors exactly when and without any change, else this node is pinned and its lease active at exactly the epochs up to the new expiry |
| StoreEffects.LeaseActiveIs | forks/hippocampus-dag-go/internal/dag/dag.go:143-154 | when a lease is active, in terms of the stored fields |
| EpochWindows.WindowHolds | forks/hippocampus-dag-go/internal/dag/dag.go:233-237 | a stable window holds exactly the logged nodes with an epoch between both ends included, in the order of their epochs |
| EpochWindows.StableWindowUnique | forks/hippocampus-dag-go/internal/dag/dag.go:229-249 | at most one sequence is sorted by epoch and keeps the insertion order within every epoch |
| EpochWindows.FlattenIsStableWindow | forks/hippocampus-dag-go/internal/dag/dag.go:239-247 | reading the buckets in increasing order of epoch gives the insertion log filtered to the window and stably sorted |
| Recall.DriftGateIff | forks/hippocampus-dag-go/internal/dag/dag.go:200-209 | the int64 drift is at most 2 exactly for epochs at most two apart, or close modulo 2^64, or exactly 2^63 apart |
| Recall.RecallSound | forks/hippocampus-dag-go/internal/dag/dag.go:172-218 | for every request and graph: fragments and broken entries are duplicate-free, disjoint and together the visited set; each fragment is admitted and ends a link path of admitted nodes no longer than depth and token; each broken entry ends such a path and its reason is true |
| RecallGates.BrokenTellsWhy | forks/hippocampus-dag-go/internal/dag/dag.go:179-212 | for every request each broken entry ends a path of passing nodes no longer than the depth, and its reason is, both ways, the first gate closed there: missing, stack, token against the length of that path, or epochs apart with the distance reported |
| RecallGates.FragmentPasses | forks/hippocampus-dag-go/internal/dag/dag.go:179-213 | for every request each fragment passes the written-out stack and epoch gates and ends such a path within depth and token |
| RecallGates.DriftIs | forks/hippocampus-dag-go/internal/dag/dag.go:200-209 | the drift reported is the distance of the epochs, modulo 2^64 for those 2^63 or more apart |
| RecallGates.RecallInLinkOrder | forks/hippocampus-dag-go/internal/dag/dag.go:172-218 | fragments and broken entries are listed in the order of a depth-first search with an explicit stack that takes links from the first to the last |
| RecallGates.FidelityTimesEntries | forks/hippocampus-dag-go/internal/dag/dag.go:220-225 | fidelity times the number of entries is the number of fragments |
| Recall.FidelityIsShare | forks/hippocampus-dag-go/internal/dag/dag.go:220-225 | fidelity lies in [0, 1], is 1 exactly when nothing is broken and 0 exactly when everything listed is |
| Recall.RecallComplete | forks/hippocampus-dag-go/internal/dag/dag.go:172-218 | on any graph, cycles included, with depth and token at least the number of admitted nodes less one, the fragments are exactly the admitted nodes reachable through admitted nodes |
| Recall.RecallBroken | forks/hippocampus-dag-go/internal/dag/dag.go:186-212 | with depth and token at least that number, the broken entries are exactly the missing or not admitted nodes at the end of such paths, each with its reason |
| Recall.WalkSound | forks/hippocampus-dag-go/internal/dag/dag.go:178-217 | the recursive walk keeps soundness from any state it can be called in |
| Recall.WalkComplete | forks/hippocampus-dag-go/internal/dag/dag.go:178-217 | the recursive walk leaves no wanted link of an expanded node unvisited outside the nodes still being expanded |
| RecallLimits.CompleteIffGuaranteed | forks/hippocampus-dag-go/internal/dag/dag.go:172-218 | for given depth, token and number of admitted nodes: every recall from the store of a run is complete within the limits if and only if the limits cover every simple path, or are at most 0, or are 1 with the token not smaller than the depth |
| RecallLimits.GuaranteedComplete | forks/hippocampus-dag-go/internal/dag/dag.go:178-217 | one half: under that condition no admitted node within the limits is missed |
| RecallLimits.IncompleteWitness | forks/hippocampus-dag-go/internal/dag/dag.go:182-185 | the other half: otherwise there is a run whose store loses a node that was first met too deep and stays marked visited |
| RecallGrowth.ApplyKeepsLeasesIff | forks/hippocampus-dag-go/internal/dag/dag.go:115-138 | an operation keeps every active lease active if and only if it does not lease an indefinite pin; contents never change and expiries never decrease |
| RecallGrowth.FiniteLeaseStays | forks/hippocampus-dag-go/internal/dag/dag.go:124-154 | a finite lease active at an epoch stays active at that epoch over every later run, and its expiry never moves back |
| RecallGrowth.RecallNeverForgets | forks/hippocampus-dag-go/internal/dag/dag.go:77-154 | no sequence of operations that leases no indefinite pin removes a fragment, for a fixed request whose limits cover the later store |
| ContentAddressing.NoCycles | forks/hippocampus-dag-go/internal/dag/dag.go:63-94 | a store filled only with computed identifiers has no link cycle |
| ContentAddressing.RunAcyclicIff | forks/hippocampus-dag-go/internal/dag/dag.go:77-94 | with any identifiers, the link graph after a run is free of cycles if and only if no Put of it stored a new identifier that the links of its node already led to |
| ContentAddressing.ApplyAcyclicIff | forks/hippocampus-dag-go/internal/dag/dag.go:77-94 | the same for one operation |
| ContentAddressing.ChosenIdentifiersCanCycle | forks/hippocampus-dag-go/internal/dag/dag.go:80-86 | such a Put exists: with an identifier chosen by the caller a node can link to itself |
| ContentAddressing.StoresAgreeBelow | forks/hippocampus-dag-go/internal/dag/dag.go:63-94 | two such stores that hold everything below a root hold the same ciphertexts, links, epochs, kinds and stacks below it |
| Lattice.DAG.constructor | forks/hippocampus-dag-go/internal/dag/dag.go:52-61 | an empty, well-formed store |
| Lattice.DAG.Put | forks/hippocampus-dag-go/internal/dag/dag.go:77-94 | computes a missing identifier, keeps the first node under an identifier, otherwise stores the node and enters it in the indices |
| Lattice.DAG.Insert | forks/hippocampus-dag-go/internal/dag/dag.go:86-92 | the store and index updates of a new node |
| Lattice.DAG.Pin | forks/hippocampus-dag-go/internal/dag/dag.go:103-113 | marks the node and the pinned set without touching the expiry; reports an unknown identifier |
| Lattice.DAG.Lease | forks/hippocampus-dag-go/internal/dag/dag.go:124-138 | sets pin and expiry if the new expiry is later; otherwise an error and no change |
| Lattice.DAG.LeaseActive | forks/hippocampus-dag-go/internal/dag/dag.go:143-154 | pinned and either without expiry or not yet expired |
| Lattice.DAG.Recall | forks/hippocampus-dag-go/internal/dag/dag.go:172-227 | returns the stored node objects of the fragments, the broken entries in order of discovery, and the fidelity of the specified walk |
| Lattice.Walker.Visit | forks/hippocampus-dag-go/internal/dag/dag.go:178-217 | the closure on shared visited and output variables carries out one step of the specified walk |
| Lattice.Walker.VisitAll | forks/hippocampus-dag-go/internal/dag/dag.go:214-216 | the loop over the links of a node |
| Lattice.DAG.EpochScan | forks/hippocampus-dag-go/internal/dag/dag.go:230-249 | returns the stored nodes of the insertion log filtered to the window and stably sorted by epoch |
| Lattice.DAG.KeysInWindow | forks/hippocampus-dag-go/internal/dag/dag.go:233-238 | collects exactly the index keys in the window, each once, in no particular order |
| Lattice.DAG.AppendBucket | forks/hippocampus-dag-go/internal/dag/dag.go:242-246 | appends the nodes of one bucket; the lookup never fails |
| Lattice.SortEpochs | forks/hippocampus-dag-go/internal/dag/dag.go:239 | orders the distinct keys |
| Words.CleanIsWords | packages/semantic-address/src/grammar.ts:51 | lower-casing, trimming and collapsing leaves exactly the lower-cased words with single blanks between them |
| Words.CleanSameIff | packages/semantic-address/src/grammar.ts:51 | two values clean to the same text if and only if they have the same lower-cased words |
| TextRules.LowerCharIs | packages/semantic-address/src/grammar.ts:51 | each capital letter of ASCII becomes its small one |
| TextRules.SpacesAre | packages/semantic-address/src/grammar.ts:51 | which characters are white space, by code point |
| TextRules.LexLeIs | packages/semantic-address/src/grammar.ts:53 | the order of sorting is lexicographic: a prefix first, else the smaller character at the first difference |
| TextRules.FacetTextIs | packages/semantic-address/src/grammar.ts:49-56 | the text of a facet is its sorted non-empty cleaned values with commas between them |
| TextRules.NormalTextIs | packages/semantic-address/src/grammar.ts:42-60 | the normalised text names the facets present in canonical order |
| Grammar.SortSorts | packages/semantic-address/src/grammar.ts:53 | the sorted list is in code-unit order and a permutation |
| Grammar.OrderedUnique | packages/semantic-address/src/grammar.ts:53 | an ordered list is determined by its elements |
| Grammar.CanonByValues | packages/semantic-address/src/grammar.ts:45-56 | grammars whose facets have the same cleaned values in any order have the same canonical form, on which normalization and both derivations depend |
| Presentations.SameFacetIff | packages/semantic-address/src/grammar.ts:49-53 | facets have the same cleaned values if and only if their raw values have the same lower-cased words, value by value in any order |
| Presentations.CanonIgnoresPresentation | packages/semantic-address/src/grammar.ts:31-33 | permuting the raw values of facets and changing their case and white space changes nothing in the canonical form |
| Presentations.CanonIdempotent | packages/semantic-address/src/grammar.ts:45-56 | neither does replacing every facet of a grammar by its own normalised text |
| Grammar.FacetTextIdempotent | packages/semantic-address/src/grammar.ts:49-56 | replacing a facet by its own normalised text changes nothing |
| Grammar.CommaCollides | packages/semantic-address/src/grammar.ts:56 | the separator is not escaped: one value with a comma and two values normalise alike |
| CanonicalTexts.FacetTextSameIff | packages/semantic-address/src/grammar.ts:56 | two facets have the same text if and only if their sorted values have the same pieces between commas |
| CanonicalTexts.FacetTextTellsValues | packages/semantic-address/src/grammar.ts:56 | for values without commas two facets have the same text if and only if they have the same cleaned values |
| CanonicalTexts.NormalTextSameIff | packages/semantic-address/src/grammar.ts:59 | two grammars have the same normalised text if and only if their parts have the same pieces between the separators |
| CanonicalTexts.NormalTextTellsFacets | packages/semantic-address/src/grammar.ts:56-59 | for facets without the separator of parts the normalised text determines the canonical form; an equals sign does no harm |
| CanonicalTexts.NormalTextTellsValues | packages/semantic-address/src/grammar.ts:42-60 | for values with neither separator in them two grammars normalise alike if and only if every facet has the same cleaned values |
| CanonicalTexts.PartsCollide | packages/semantic-address/src/grammar.ts:59 | otherwise not: a domain can contain what looks like an entity |
| Grammar.Normalize | packages/semantic-address/src/grammar.ts:42-60 | returns the canonical facets that are present, joined in order, and their number |
| Grammar.NormalizedDepth | packages/semantic-address/src/grammar.ts:59 | the number of parts is the number of facets present |
| Grammar.DepthsAgreeIff | packages/semantic-address/src/derive.ts:49 | the depths of the three functions are ordered partial, normalised, full; the outer two agree, and likewise the last two, exactly when no facet follows a gap |
| Addresses.FacetSegment | packages/semantic-address/src/derive.ts:30-48 | one facet through the pipeline to its four bytes, or nothing |
| Addresses.FillSegments | packages/semantic-address/src/derive.ts:29-50 | the loop writes the segments in place, absent ones zero, and counts up to the last one present |
| Addresses.FillTail | packages/semantic-address/src/derive.ts:53-60 | depth byte and fingerprint behind the segments |
| Addresses.Derive | packages/semantic-address/src/derive.ts:24-63 | the full address of a grammar and a content hash |
| AddressParts.AddressBytes | packages/semantic-address/src/derive.ts:24-63 | the bytes of a full address: four of the hash of each facet text under its written-out name or zeros, the depth, and the first eleven of the content hash |
| AddressParts.SameAddressIff | packages/semantic-address/src/derive.ts:59-60 | two contents get the same address under one grammar exactly when their hashes agree on eleven bytes |
| AddressParts.CanonIs | packages/semantic-address/src/grammar.ts:9 | which facet stands where |
| Addresses.AddressDepth | packages/semantic-address/src/address.ts:15-18 | the depth nibble is one more than the position of the last facet present |
| Addresses.DerivePartial | packages/semantic-address/src/derive.ts:72-102 | segments, names and text of the facets before the first gap |
| AddressParts.PartialAddressIs | packages/semantic-address/src/derive.ts:72-102 | a partial address has the bytes and names of exactly the facets before the first gap |
| Addresses.DerivedMatches | packages/semantic-address/src/derive.ts:108-115 | an address derived from a canonical grammar matches the partial address derived from every other that agrees with it on the latter's leading facets |
| Addresses.DerivedMatchesIff | packages/semantic-address/src/derive.ts:108-115 | unless the four-byte hashes involved collide, it matches no other |
| Addresses.PrefixMatch | packages/semantic-address/src/derive.ts:108-115 | the loop decides whether the address starts with the bytes of the partial address; depth 0 matches everything |
| AddressParts.MatchesIff | packages/semantic-address/src/derive.ts:108-115 | what matching compares, byte by byte |
| Addresses.PopCount | packages/semantic-address/src/derive.ts:131-135 | the shift loop counts the ones |
| Addresses.OnesOfXor | packages/semantic-address/src/derive.ts:126 | the ones of the exclusive or are the differing bits |
| Addresses.PrefixDistance | packages/semantic-address/src/derive.ts:122-129 | the loop sums the differing bits of the first min(4 depth, 20) bytes, none for a negative depth |
| AddressParts.DistanceIs | packages/semantic-address/src/derive.ts:122-135 | the distance adds up the bits in which corresponding bytes differ |
| AddressParts.CoveredIs | packages/semantic-address/src/derive.ts:124 | four bytes a level up to five levels, none below zero |
| Addresses.DistanceMetric | packages/semantic-address/src/derive.ts:122-129 | symmetric, triangle inequality, zero exactly for equal covered bytes, at most eight a byte |
| Addresses.DistanceMonotone | packages/semantic-address/src/derive.ts:122-129 | the distance grows with the bytes covered |
| Addresses.DistanceAndMatch | packages/semantic-address/src/derive.ts:108-129 | for depths 1 to 5 it is 0 exactly when one address matches the prefix of the other at that depth; at most 160 |
| AddressBook.FromHexText | packages/semantic-address/src/address.ts:58-65 | the loop parses 32 pairs; any other length is an error |
| AddressBook.AddressRoundTrip | packages/semantic-address/src/address.ts:33-65 | parsing the text of an address gives the address |
| AddressBook.TextRoundTripIff | packages/semantic-address/src/address.ts:58-65 | a text of 64 characters comes back, in lower case, if and only if all of them are hexadecimal digits; others are accepted and changed |
| TextRules.ParseFromDigit | packages/semantic-address/src/address.ts:61-63 | two digits give the byte they write, a digit and something else the digit |
| TextRules.ParseAfterBlank | packages/semantic-address/src/address.ts:61-63 | white space or a plus before a digit is skipped |
| TextRules.ParseAfterMinus | packages/semantic-address/src/address.ts:61-63 | a minus before a digit negates modulo 256 |
| TextRules.ParseNothing | packages/semantic-address/src/address.ts:61-63 | any other pair is stored as zero |
| AddressBook.HexPrefixIff | packages/semantic-address/src/book.ts:56-64 | a text starts with the text of some bytes exactly when the bytes do |
| AddressBook.Book.constructor | packages/semantic-address/src/book.ts:15-16 | an empty book |
| AddressBook.Book.Put | packages/semantic-address/src/book.ts:19-21 | sets the entry under the text of its address and keeps the position of a key already there |
| AddressBook.Book.Delete | packages/semantic-address/src/book.ts:72-74 | removes that key and tells whether it was there; the others keep their order |
| AddressBook.WithoutKeepsOrder | packages/semantic-address/src/book.ts:72-74 | removing a key leaves the keys before and after it in their order |
| AddressBook.Book.Get | packages/semantic-address/src/book.ts:24-26 | finds a value if and only if an entry of exactly this address is stored |
| AddressBook.Book.QueryPartial | packages/semantic-address/src/book.ts:42-50 | the matching entries in insertion order, the same as a query by the text of a derived partial address |
| AddressBook.Book.QueryByHexPrefix | packages/semantic-address/src/book.ts:56-64 | the entries whose key starts with the text, in insertion order |
| AddressBook.DerivedIsProper | packages/semantic-address/src/derive.ts:94-101 | a partial address made by derivePartial has four bytes a level and their text as its hex, which is what the queries rely on |
| AddressBook.QueryByEntry | packages/semantic-address/src/book.ts:42-64 | both queries answer entry by entry, in order, with exactly the entries that start with what is asked for |
| AddressBook.QueriesAgree | packages/semantic-address/src/book.ts:42-64 | both queries return the same entries for a derived partial address |
| AddressBook.DeeperQuery | packages/semantic-address/src/book.ts:33-50 | a deeper query returns the shallower result filtered |

## Left out

- Mmr.MMR.Append: the count is unbounded; the wrap of uint64 after 2^64 appends is not modelled.
- SynapticField.SynapticFieldMMR.Append: the size is unbounded; JavaScript shifts it as a 32-bit integer, which differs from 2^31 entries on.
- ChainTips.TipDeterminesChain: for a chain of more than 2^32 blocks it asks that no header hashes to zero, since the epoch wraps and the block after such a header could pass for a genesis block.
- Chain.MedullaChain.constructor: an initial difficulty of at most 64, since a larger one panics before there is a chain.
- ChainTheorems.HeaderDifficulties: the difficulty is a number without the bound of uint32, which ReplayBounds and DifficultyStaysInRange show to suffice.
- Chain.MedullaChain.SubmitCoherenceRoot: the clock is an argument, with Unix seconds below 2^63; `Validate` never fails and is not modelled; nor is the broadcast to subscribers.
- Lattice.DAG.Recall: fidelity is an exact rational, not a float64, and broken entries are pairs of identifier and reason; their rendering as one string (`cid#reason`) is not modelled, so neither is its ambiguity for identifiers containing `#`.
- Lattice.DAG.Put: the content of a node cannot be changed through a pointer kept outside the store.
- ContentAddressing.NoCycles: the identifier is a symbolic term over the canonical fields; the JSON encoding, SHA-256 and the `ecca://` text are not modelled, nor is a chosen text that equals a computed one.
- Lattice.SortEpochs: the library sort is modelled by an insertion sort.
- Grammar.SortSorts: characters are compared by code point, which orders those beyond U+FFFF differently from the UTF-16 units JavaScript compares.
- Words.CleanIsWords: lower-casing of ASCII letters only; case mapping of other letters is not modelled. The same holds for Words.CleanSameIff, Grammar.Normalize and all that builds on them.
- Addresses.Derive: the SHA-256 digest of the content is an argument, and the hash of the UTF-8 form of a facet text a function.
- MerkleProofs.VerifiesIff: the index is an integer of any size; fractions and NaN are not modelled.
- MerkleProofs.MerkleRoot: leaves are byte strings; the UTF-8 conversion of text leaves is not modelled.
- Accessors (`Tip`, `Height`, `Difficulty`, `Epoch`, `Count`, `RootHex`, `Snapshot`, `Get`, `Stat`, `segment`, `prefix`, `startsWith`, `toShortString`, `getByHex`, `size`, `addresses`): they would only add easy members.
- `SynapticProof`: it returns the current peaks for any known block, a lookup without a property of its own.
- Pools, subscribers and replication peers: bookkeeping that nothing modelled here reads.
- Locks: each locked method is one atomic step.
- `parseDescription`: regular-expression heuristics.
- Signatures, key derivation and encryption of packages/crypto: calls into foreign libraries.
- Services, workers, contracts, bus and persistence: plumbing around libraries that are not part of this model.
