# A verified model of the cool-sdk core

This project models, in Dafny, the parts of the SDK that have to be right on every input or in
every run, and proves what they promise:

- **The Merkle log.** `Merkle`, `Inclusion`, `Consistency`: RFC 6962 tree hashes and proofs are generated
  top-down by splitting at a power of two and checked bottom-up by loops over the bits of two indices.
  The two forms are proved to walk the same levels, which gives completeness and soundness of both
  verifiers. `LogFile`, `LogMemory`, `TreeHead`, `LogConsistency` build on it: logs across crashes, and one
  history recovered from receipts alone.
- **OpenTimestamps proofs.** `OtsWire`, `OtsOrder`, `OtsTree`, `OtsIO`: the recursive reader and printer
  with its sorted output, and `OtsFormat`: what a written file looks like, byte by byte and in which order; `OtsMerge`, `OtsHeap`, `OtsRun`, `OtsShared`: merging and splicing proof trees, as
  values, in place on separate trees, and in place on objects that share what was grafted into them;
  `OtsCycles`, `OtsForest`, `OtsTwice`: when that closes a cycle.
- **Enforcement.** `Principal`, `Delegation`, `Decision`, `NonceStore`, `Gateway`, `SharedStore`: gateways whose
  calls interleave at every await, over replay stores that keep or forget nonces, down to the statements
  the shared backends run.
- **Codecs, policy, capture.** `Der`, `DerValues`, `Vsock`, `Policy`, `Capture`.

Conventions. SHA-256, the other hash functions, UTF-8, regular expressions, digests of CBOR and signature
checks are parameters, and nothing is assumed about them. A statement of soundness therefore ends in "or two
hash inputs collide"; since *some* collision exists for every such hash, `Basics.Collides` names the two
sets of inputs it must come from: those hashed by the verifier and those hashed for the tree. Exceptions
are values (`Result`, `Option`, a `Threw` case). Concurrency is a step function and a run is any list of
enabled steps. Times are integers in milliseconds on one clock. Loops and objects of the source are methods
and classes, each proved equal to the function that the lemmas are about.

## Where the code falls short of a promise

Each of these is a proved statement about the code as it is: a case that fails, and exactly when none does.

- `merkle.ts:36` does not terminate for more than 2^30 leaves, and `merkle.ts:205` sees only 32 bits
  (`Shift32.SplitLoop32`, `Shift32.PowerOfTwo32`).
- `merkle.ts:71-202`: the verifiers do not look at lengths. Two joined hashes, cut elsewhere, pass as a leaf and its
  sibling or as an older root and its proof (`Inclusion.CutElsewhereAccepted`, `Consistency.CutElsewhereAccepted`).
  Soundness holds exactly when the one value the climb starts from has 32 bytes (`Inclusion.InclusionSound`,
  `Consistency.ConsistencySound`). A negative size is not refused (`Consistency.NegativeSizeAccepted`).
- `log-file.ts:76-80` takes any read error for a first run. The log may then sign a second, different head of an old size
  (`LogFile.UnreadableRestartForks`) or, with nothing given out yet and one line on disk, issue that line's index again
  (`LogFile.UnreadableRestartForgets`). Its promise holds from then on exactly when only empty heads had been given out
  and the file has no whole line, cannot be replayed, or ends in an unterminated piece (`LogFile.UnreadableRestart`).
- `log-file.ts:107`: if the write throws although the whole line is on disk, the next record is issued the same
  index (`LogFile.FailedAppendForks`), exactly when the file was in order and ended in a whole line; after an
  unterminated piece the file is refused at the next start instead (`LogFile.FailedAppendExact`). These two are the only
  steps after which the log can break its promise (`LogFile.SafeExactly`).
- `replay-shared.ts:20-21` asks that the time to live exceed the validity window. Since a decision may predate its request by
  a minute and a call may wait for the store, a store is safe for all requests of a window exactly from window plus one
  minute plus store timeout on (`Gateway.StoreIsSafeExactly`; for each backend, `SharedStore.BackendIsSafeExactly`, where
  DynamoDB's time to live counts rounded up to whole seconds). This is for decisions not dated after the call that
  presents them, which the gateway does not check: with one that is, a request runs twice whatever the time to live
  (`Gateway.DatedAheadRunsTwice`).
- `delegation.ts:69-72`: an empty action or resource name hides any extra name after it
  (`Delegation.EmptyNameHidesExcess`). A link for which no excess is found narrows the one before it exactly when an
  empty name in it is also the other's, or it allows nothing (`Delegation.NoExcessNarrows`, `Delegation.ChainNarrows`).
- `der.ts:200` packs the first two OID arcs into one byte; an OID survives exactly when they fit in seven bits
  (`DerValues.OidRoundTrip`), and accepted content is re-encoded exactly when its first number is one octet
  (`DerValues.OidReencodes`). `der.ts:192-195` makes of no bytes an INTEGER that is refused, and of no other
  (`DerValues.IntegerBytesRoundTrip`).
- `policy.ts:126`: `exists` reads a missing fact as a definite no (`Policy.ExistsIsNotConservative`); a single test survives
  every completion exactly when it is not such a question about a missing fact (`Policy.TestSurvivesExact`).
- `anchor.ts:428-445`: `merge` takes over links without asking where they lead. For two nodes of a parsed proof about one
  message it comes to its end and leaves no cycle exactly when the node merged in does not lead to the other
  (`OtsForest.ParsedMergeExact`); an `append` of no bytes is an input on which it does (`OtsForest.AppendNothingCloses`).
  Splicing a fresh graft into a parsed proof never closes a cycle (`OtsShared.SpliceAt`); splicing a second one, once
  the first is shared by two nodes, can (`OtsTwice.SecondGraftCloses`).
- `capture.ts:129-198`: counts are conserved all through a run exactly when none of four things happens
  (`Capture.BalancedExact`): a capture into a queue with `maxQueue` 0 (`Capture.NoRoomBreaks`), an `onDrop` that throws on
  overflow (`Capture.OnDropThrowLoses`), an `onSent` that throws (`Capture.OnSentThrowDoubles`), or a drain that dies in
  its catch branch because the retry's `setTimer` throws or a rejection carries no error object
  (`Capture.TimerThrowLoses`). An `onDrop` that throws for a batch given up, or a `setTimer` that throws in `capture`, is
  harmless.

## Model

| member | source | states |
|---|---|---|
| Merkle.NodeInputInjective | src/merkle.ts:28-31 | an interior node's hash input determines both children exactly when the first has the same length |
| Merkle.InputsSeparate | src/merkle.ts:12-31 | leaf, node and empty-tree hash inputs never coincide |
| Merkle.TreeHashMeans | src/merkle.ts:12-50 | the empty tree is the hash of no bytes, a leaf of 0x00 and its data, a node of 0x01, left and right, split at the largest power of two below n |
| Merkle.LargestPowerOfTwoBelow | src/merkle.ts:33-38 | the doubling loop returns the largest power of two strictly below n, for every n > 1 |
| Merkle.HeightLeast | src/merkle.ts:44-50 | `Height` is the least h with n <= 2^h, the ceil(log2 n) of the length bounds |
| Merkle.Lift | src/merkle.ts:89-95 | the inner ascent of both verifiers stops at a right child and emits exactly one left sibling |
| Merkle.BitSidesLeft | src/merkle.ts:85-101 | below a full left subtree the bit walk is that subtree's walk followed by a right sibling |
| Merkle.BitSidesRight | src/merkle.ts:85-101 | adding the top bit of a right subtree to both indices appends exactly one left sibling |
| Merkle.SidesAgree | src/merkle.ts:56-105 | the verifier's bottom-up bit walk visits the same sides, in the same order, as the generator's top-down recursion |
| Merkle.SplitsAgree | src/merkle.ts:138-199 | the same for consistency proofs, after the trailing one bits of the smaller index are dropped |
| Merkle.TopStep | src/merkle.ts:85-101 | a climb ending in the hash of l and r joined exactly l and r last, or what it hashed collides with that node |
| Inclusion.RootFromInclusionProof | src/merkle.ts:71-105 | the loop throws out of range, too long or too short in exactly those cases and otherwise returns the fold of the path |
| Inclusion.VerifyInclusion | src/merkle.ts:111-125 | for any bytes, true exactly when the index is in range, the path has the tree's length and folds to the expected root |
| Inclusion.SidesBounded | src/merkle.ts:52-65 | an audit path has at most ceil(log2 n) siblings |
| Inclusion.AuditPathFolds | src/merkle.ts:56-65 | the generated path leads from its leaf to `merkleRoot`, for every leaf list and index |
| Inclusion.InclusionComplete | src/merkle.ts:56-125 | generation fails only out of range, and what it returns is accepted against the true root |
| Inclusion.FoldSound | src/merkle.ts:71-105 | a path that rebuilds the root is the audit path of that leaf, or verifier and tree inputs collide |
| Inclusion.InclusionSound | src/merkle.ts:107-125 | on arbitrary bytes: an accepted leaf is leaf i with the generated path exactly when it has 32 bytes, or inputs collide |
| Inclusion.CutElsewhereAccepted | src/merkle.ts:28-125 | two joined leaf hashes cut anywhere are accepted as leaf and sibling |
| Inclusion.RecordSound | src/merkle.ts:23-31 | an accepted record is, byte for byte, the record logged at that index, whatever bytes the path holds, or inputs collide |
| Consistency.IsPowerOfTwoCorrect | src/merkle.ts:204-206 | `x & (x - 1)` is zero exactly for powers of two |
| Consistency.WalkProof | src/merkle.ts:172-201 | the two bit loops accept exactly the node lists that rebuild both roots with nothing left over |
| Consistency.VerifyConsistency | src/merkle.ts:154-202 | all branches on any bytes and integers: size zero, equal sizes, larger first size, negative sizes, the prepended root for powers of two, and the walk |
| Consistency.EmptyTreeAcceptsAll | src/merkle.ts:161-164 | from size zero every proof and every pair of roots is accepted |
| Consistency.SubproofFolds | src/merkle.ts:138-148 | the unabridged proof rebuilds the root of the first m leaves and the root of all leaves |
| Consistency.SubproofKnown | src/merkle.ts:138-148 | the first node is left out exactly when m is a power of two, and then it is the older root |
| Consistency.ConsistencyComplete | src/merkle.ts:131-202 | for all leaves and 0 <= m <= n the generated proof is accepted between the true roots and has at most ceil(log2 n) + 1 nodes |
| Consistency.FoldSound | src/merkle.ts:179-199 | nodes that rebuild the newer root are the generated ones, or inputs collide |
| Consistency.ConsistencySound | src/merkle.ts:150-202 | on arbitrary bytes: if the newer root commits to n leaves, an accepted older root is the root of their first m with the generated proof exactly when the walk starts from 32 bytes, or inputs collide |
| Consistency.CutElsewhereAccepted | src/merkle.ts:154-202 | two joined leaf hashes cut anywhere are accepted as older root and proof |
| Consistency.NegativeSizeAccepted | src/merkle.ts:161-201 | a negative first size is walked and can be accepted |
| Consistency.FoldDeterminesPath | src/merkle.ts:184-199 | two climbs over the same sides to one root passed through the same nodes, or their inputs collide |
| Consistency.NoFork | src/merkle.ts:150-202 | two older roots of one size accepted against one newer root, and their proofs, are equal exactly when their walks start from equally many bytes, or inputs collide, however that root was made |
| Consistency.ChainSound | src/phala/consistency.ts:10-14 | if the last head of a chain of accepted proofs commits to some leaves, every head commits to a prefix of them, or inputs collide |
| Shift32.SplitLoop32 | src/merkle.ts:34-38 | with 32-bit shifts the split loop stops exactly for n <= 2^30, and then at the mathematical split |
| Shift32.PowerOfTwo32 | src/merkle.ts:204-206 | the 32-bit test is the power-of-two test of the low 32 bits: right up to 2^32, wrong at 3 * 2^32 |
| Hex.ToHexDecodes | src/codec.ts:20-39 | hex output is lower case, twice as long, and decodes to the bytes |
| Hex.FromHexDecodes | src/codec.ts:29-39 | lower-case hex of even length decodes, and encodes back to itself |
| Hex.ToHexMeans | src/codec.ts:20-27 | two lower-case digits for each byte, the high half first |
| Hex.FromHexExactly | src/codec.ts:29-39 | succeeds exactly on an even number of hex digits of either case, and each pair gives its byte, the high half first |
| Multihash.RoundTrip | src/multihash.ts:18-47 | a digest survives its tagged form |
| Multihash.TaggedForm | src/multihash.ts:21-47 | the tagged form is the prefix and the hex; exactly that prefix, valid hex and 32 bytes are read |
| LogMemory.MemoryLog.Append | src/log-memory.ts:48-54 | the record is appended and its index returned; both arrays stay in step |
| LogMemory.MemoryLog.InclusionAuditPath | src/log-memory.ts:56-59 | fails only out of range; the path is accepted for the record there and, unless inputs collide, no path is accepted there for another record |
| LogMemory.MemoryLog.BuildSTH | src/log-memory.ts:66-88 | the signed head, read back, commits to exactly the records appended: each is provable under it and, unless inputs collide, nothing else is at any index |
| TreeHead.SignedHeadReads | src/log-memory.ts:66-88 | what is signed is log, size, root and time, the head is read back exactly, and the only co-signature is the log's own and not external |
| LogFile.WriteEffect | src/phala/log-file.ts:74-109 | what any number of characters of an append, written before a failure, does to a later replay |
| LogFile.ReplayFile | src/phala/log-file.ts:67-90 | the loop returns the decoded lines, skipping empty ones, and refuses the file at its first malformed line |
| LogFile.SegmentsMean | src/phala/log-file.ts:81-81 | splitting cuts the text at its newlines: no piece holds one, and joined they are the text |
| LogFile.ReplayMeans | src/phala/log-file.ts:67-90 | a replay succeeds exactly if every line that is not empty is the hex of a leaf, and gives those leaves in the order of their lines |
| LogFile.LineForm | src/phala/log-file.ts:107-107 | an append writes 64 lower-case digits, two for each byte of the leaf, and a newline |
| LogFile.WriteKeeps | src/phala/log-file.ts:101-110 | after any partial write a replay still extends the leaves in memory, or is refused for good |
| LogFile.StepExact | src/phala/log-file.ts:67-138 | append, torn append, failed append, head, crash and restart each keep the log's invariant exactly when they are safe where they happen |
| LogFile.RunsAreConsistent | src/phala/log-file.ts:7-14 | in every run of safe steps, torn and failed writes included, consistency from every head ever signed verifies and every index ever issued has an accepted audit path |
| LogFile.SafeExactly | src/phala/log-file.ts:67-138 | after a step everything given out stays honoured however the log goes on without faults, if and only if the step was safe |
| LogFile.AtomicRunsRestart | src/phala/log-file.ts:67-110 | if each append is atomic the file can be replayed after every run |
| LogFile.FaultlessRunsRecordAll | src/phala/log-file.ts:57-138 | in every run without faults, crashes and restarts included, file and memory hold the leaves of all appended records in order and nothing else, each record has its own index, and each head is that of the records appended before it |
| LogFile.UnreadableRestart | src/phala/log-file.ts:75-80 | after a start-up whose read failed, what is given out stays honoured for good exactly when only empty heads had been given out and the file has no whole line, cannot be replayed, or ends in an unterminated piece |
| LogFile.UnreadableRestartForgets | src/phala/log-file.ts:75-110 | a concrete run in which nothing was given out before such a start-up, and an index is issued for a record that is not there |
| LogFile.UnreadableRestartForks | src/phala/log-file.ts:75-80 | a concrete run in which such a start-up leads to two different signed heads of size 1 |
| LogFile.FailedAppendExact | src/phala/log-file.ts:101-110 | on any file, a failed write keeps file and memory in agreement exactly when part of its line is missing or the file ended in an unterminated piece or was beyond repair |
| LogFile.FailedAppendForks | src/phala/log-file.ts:101-110 | a concrete run in which a write that fails after its whole line is on disk leads to one index issued for two records |
| LogFile.FileLog.Open | src/phala/log-file.ts:57-90 | starting on a file, readable or not, is the restart step; refused exactly when a line is malformed; the invariant holds exactly when the step is safe |
| LogFile.FileLog.Append | src/phala/log-file.ts:101-110 | the append step, or the failed append when the write throws, and exactly when the invariant survives that |
| LogFile.FileLog.BuildSTH | src/phala/log-file.ts:120-150 | the head step: size and root of the leaves in memory, signed, given out, and written as the checkpoint |
| LogFile.FileLog.ProveConsistency | src/phala/log-file.ts:161-170 | a proof for any size up to the present one, accepted for every head given out with that size, the last checkpoint included |
| LogFile.FileLog.InclusionAuditPath | src/phala/log-file.ts:112-114 | fails only out of range; accepted for every issued leaf at that index |
| LogConsistency.CollectLeaves | src/phala/consistency.ts:83-93 | throws exactly when a binding hash does not decode; otherwise one leaf per claimed index and a reason exactly when two claims differ |
| LogConsistency.OrderLeaves | src/phala/consistency.ts:94-103 | the leaves in order, or the first missing index, all before it being there |
| LogConsistency.CollectHeads | src/phala/consistency.ts:105-114 | the first head of every size and a reason exactly when two heads of one size differ |
| LogConsistency.CheckHeads | src/phala/consistency.ts:116-134 | no reason exactly when every head is signed and matches the leaves it covers |
| LogConsistency.CheckPairs | src/phala/consistency.ts:136-157 | once every head matches the leaves no pairwise proof can fail |
| LogConsistency.LeavesUnique | src/phala/consistency.ts:83-103 | the receipts determine the leaves |
| LogConsistency.HeadsDecide | src/phala/consistency.ts:105-134 | without equivocation, checking one head per size checks every receipt |
| LogConsistency.VerifyLogConsistency | src/phala/consistency.ts:69-166 | throws exactly on an undecodable binding; answers ok exactly when a single list of leaves explains every receipt's head and leaf |
| LogConsistency.HistoryMeans | src/phala/consistency.ts:69-166 | one history is: at least two sizes, every leaf of the largest claimed, every receipt's record and head explained by the leaves, no two receipts naming two logs, two roots of one size or two leaves at one index, and the first head of every size signed |
| LogConsistency.WithHeadPicks | src/phala/consistency.ts:73-73 | exactly the receipts with a head and an index are looked at, in order |
| LogConsistency.HonestReceiptsPass | src/phala/consistency.ts:68-166 | signed receipts of an honest log that name two sizes and every leaf describe one history |
| OtsWire.VarUintReads | src/phala/anchor.ts:146-195 | a written integer is read back exactly and nothing after it is consumed |
| OtsWire.VarBytesReads | src/phala/anchor.ts:159-200 | the same for length-prefixed bytes |
| OtsWire.PayloadDecodes | src/phala/anchor.ts:207-240 | the payload of a known attestation decodes to it |
| OtsWire.AttestationReads | src/phala/anchor.ts:207-243 | a written attestation of a known kind is read back and nothing after it is consumed |
| OtsFormat.VarUintMeans | src/phala/anchor.ts:182-195 | an integer is written in groups of seven bits, low ones first, the high bit set on all but the last |
| OtsFormat.VarUintReadsGroups | src/phala/anchor.ts:146-157 | reading goes up to the first byte without the high bit, which must be among the first nine, and puts the groups together, low ones first |
| OtsFormat.VarUintCutOff | src/phala/anchor.ts:146-157 | without such a byte: too large after nine bytes, otherwise cut off |
| OtsOrder.CompareBytes | src/phala/anchor.ts:361-367 | the loop is lexicographic comparison with a proper prefix first |
| OtsOrder.AttestationOrder | src/phala/anchor.ts:390-403 | the order flips sign with its arguments and is zero exactly on equal attestations |
| OtsOrder.AttestationOrderTransitive | src/phala/anchor.ts:390-403 | the order is transitive, so sorting by it is well defined |
| StableSort.SortSorts | src/phala/anchor.ts:308-310 | the sorted copy is in order |
| StableSort.SortSorted | src/phala/anchor.ts:308-310 | a list in order is left alone |
| OtsTree.OpsMeaning | src/phala/anchor.ts:251-272 | append and prepend keep both parts, reversing twice is the identity, hexlifying loses nothing |
| OtsFormat.OpTable | src/phala/anchor.ts:250-272 | which hash or rewriting each tag stands for; every other tag is refused |
| OtsFormat.RewritesMean | src/phala/anchor.ts:265-268 | reversing gives the bytes from last to first, hexlifying two digits for each |
| OtsTree.OrdersTotal | src/phala/anchor.ts:361-403 | of two attestations or two operations one always sorts first |
| OtsTree.BranchOrder | src/phala/anchor.ts:361-388 | the order of operations is transitive and equates exactly those written the same; which comes first is `OtsFormat.BranchesMean` |
| OtsFormat.CompareSeqMeans | src/phala/anchor.ts:361-367 | not positive exactly if one is a prefix of the other or has the smaller element at the first difference |
| OtsFormat.BranchesMean | src/phala/anchor.ts:369-372 | an operation sorts first by the smaller tag, then by the argument that is a prefix or has the smaller byte at the first difference |
| OtsFormat.AttestationsMean | src/phala/anchor.ts:374-401 | attestations sort by their eight tag bytes, then by URI code units, height, or payload |
| OtsTree.OpReads | src/phala/anchor.ts:245-248 | a written operation is read back with its argument |
| OtsTree.StampReads | src/phala/anchor.ts:281-336 | reading what was written, whatever follows it, gives the tree in sorted form and leaves exactly what follows |
| OtsTree.BranchesRead | src/phala/anchor.ts:281-336 | the same for the operations of one node and the separators between them |
| OtsTree.NormalWrites | src/phala/anchor.ts:302-336 | the sorted form is written as the same bytes |
| OtsFormat.NormalOrder | src/phala/anchor.ts:308-310 | in the sorted form, for all i < j, attestation i comes before attestation j and operation i before operation j in those orders, and nothing is added or lost |
| OtsFormat.WrittenForm | src/phala/anchor.ts:302-336 | a node is written as its attestations, then its operations, each in that order, 0xff before all but the last; a node without any is refused |
| OtsFormat.FileForm | src/phala/anchor.ts:417-426 | a file is the magic, version 1, the tag of SHA-256, the digest, and the tree |
| OtsFormat.HeadsRead | src/phala/anchor.ts:405-415 | another version is refused; the hash tag decides whether 32 or 20 bytes of digest follow |
| OtsFormat.HeadCutOff | src/phala/anchor.ts:405-415 | a file that ends before its hash tag is refused for that |
| OtsFormat.OtherMagicRefused | src/phala/anchor.ts:163-168 | a file with any other magic is refused |
| OtsTree.ReadDerived | src/phala/anchor.ts:281-300 | whatever input is accepted, every sub-message is derived by its operation and no node is empty |
| OtsTree.ProofRoundTrip | src/phala/anchor.ts:405-426 | a serialised proof parses to its digest and sorted tree, and serialising that gives the same bytes |
| OtsTree.ParsedIsDerived | src/phala/anchor.ts:613-622 | a parsed file, tampered or not, is about its digest and holds only derived messages |
| OtsIO.Reader.Byte | src/phala/anchor.ts:134-137 | returns the next byte and advances, or fails at the end |
| OtsIO.Reader.TakeBytes | src/phala/anchor.ts:139-144 | returns the next n bytes and advances, or fails when fewer are left |
| OtsIO.Reader.VarUintValue | src/phala/anchor.ts:146-157 | the shift-and-add loop reads the same number and leaves the same rest as the recursive reader |
| OtsIO.Reader.VarBytesValue | src/phala/anchor.ts:159-161 | the same for length-prefixed bytes |
| OtsIO.ReadAttestationFrom | src/phala/anchor.ts:207-215 | the reader object agrees with the attestation parser |
| OtsIO.ReadTimestamp | src/phala/anchor.ts:281-300 | the reading loop agrees with the tree parser on result, error and position |
| OtsIO.Writer.PutVarUint | src/phala/anchor.ts:182-195 | appends the base-128 form |
| OtsIO.Writer.PutVarBytes | src/phala/anchor.ts:197-200 | appends length and bytes |
| OtsIO.Writer.PutAttestation | src/phala/anchor.ts:217-243 | appends tag and framed payload |
| OtsIO.WriteTimestamp | src/phala/anchor.ts:308-336 | the writing loops append the tree's serialisation, and refuse exactly the trees with an empty node |
| OtsMerge.AttestationKey | src/phala/anchor.ts:338-342 | two attestations have the same key exactly when they are equal |
| OtsMerge.OpKey | src/phala/anchor.ts:344-349 | two operations have the same key exactly when they are equal |
| OtsMerge.AttestationsUnite | src/phala/anchor.ts:433-438 | the attestation loop yields exactly the union |
| OtsMerge.MergeIsUnion | src/phala/anchor.ts:428-460 | merging derived trees about one message never throws, keeps every message derived, and reaches exactly the union |
| OtsMerge.SpliceAdds | src/phala/anchor.ts:593-599 | splicing a tree at every topmost node about its message never throws, keeps messages derived and adds exactly what it attests, on values |
| OtsMerge.NormalReaches | src/phala/anchor.ts:302-336 | sorting does not change what a tree attests |
| OtsHeap.MergeAttestationsInto | src/phala/anchor.ts:433-438 | in place, only the node's attestations change, to the merged list |
| OtsHeap.MergeInto | src/phala/anchor.ts:428-445 | in place, `into` becomes the merged tree or the merge throws exactly when the function does; only the two trees' objects are touched |
| OtsHeap.MergeLinks | src/phala/anchor.ts:439-444 | the loop over operations, each turn leaving the links still to come untouched |
| OtsHeap.FindLink | src/phala/anchor.ts:440-441 | the first link with the same operation key |
| OtsShared.MergeEntry | src/phala/anchor.ts:439-444 | one turn of the loop over live, shared objects: only links and facts of the graft come in, and `into` then reaches what the entry reached |
| OtsShared.MergeShared | src/phala/anchor.ts:428-445 | in place, `into` and `from` possibly shared or the same, on levels that agree: it is the run of merge, throws exactly on different messages, loses nothing, changes no object above, and `into` reaches all that `from` reached |
| OtsShared.ReachBounded | src/phala/anchor.ts:428-460 | no object comes to reach anything that neither it nor the graft reached |
| OtsShared.MergeOpsShared | src/phala/anchor.ts:439-444 | the loop over live links is the run of the loop, and `into` then reaches what every link of `from` reached |
| OtsShared.TakingOverExact | src/phala/anchor.ts:439-444 | taking over a single link keeps the objects free of cycles exactly when it does not lead back to the object that takes it |
| OtsShared.SpliceShared | src/phala/anchor.ts:593-599 | the walk over shared objects reaches all the graft reached if it meets its message and touches nothing otherwise |
| OtsShared.ParsedShape | src/phala/anchor.ts:281-300 | a parsed proof and a fresh graft always have the shape that makes splicing safe |
| OtsShared.SpliceAt | src/phala/anchor.ts:593-599 | in place on a parsed proof, at any number of nodes that then share the graft: never throws, stays derived and acyclic, and reaches exactly the union |
| OtsCycles.AboveCloses | src/phala/anchor.ts:428-445 | on any objects: if `from` leads to `into`, no run of merge comes to an end without a cycle |
| OtsCycles.PairFinishes | src/phala/anchor.ts:428-445 | from objects whose places agree, merge comes to its end and every object keeps its place |
| OtsCycles.StaysAcyclic | src/phala/anchor.ts:428-445 | objects that keep their places have no cycle |
| OtsForest.MergeExact | src/phala/anchor.ts:428-445 | for any two nodes about one message among trees: merge comes to its end and leaves no cycle if and only if `from` does not lead to `into` |
| OtsForest.ParsedMergeExact | src/phala/anchor.ts:281-300 | the same for all pairs of nodes of a parsed proof |
| OtsForest.AppendNothingCloses | src/phala/anchor.ts:428-445 | an input on which it closes a cycle: the node merged in appends no bytes to reach the other |
| OtsTwice.FirstGraft | src/phala/anchor.ts:560-599 | a graft spliced at two nodes of a concrete proof is shared by them |
| OtsTwice.SecondGraftCloses | src/phala/anchor.ts:560-599 | a second graft spliced into that proof ends with a cycle |
| NonceStore.KeyStringInjective | src/authz/replay.ts:33-34 | scopes without a NUL keep their nonces apart |
| NonceStore.MemoryNonceStore.Consume | src/authz/replay.ts:30-39 | the first use of a key wins and every later one is a replay |
| NonceStore.SecondsAreLate | src/authz/replay-shared.ts:79-86 | rounding to whole seconds never ends a key before its time to live |
| NonceStore.StatementsMean | src/authz/replay-shared.ts:62-94 | each backend's statement wins its key exactly when it is absent or expired there, with a row that lasts its time to live; otherwise rows stay, or an expired one goes |
| NonceStore.ExpiredIsWonAgain | src/authz/replay-shared.ts:62-74 | after PostgreSQL's delete an expired key is free for its insert |
| NonceStore.WonAgainOnlyAfterTtl | src/authz/replay-shared.ts:62-94 | however the PostgreSQL, Redis or DynamoDB statements of many callers interleave, a key is won again only after its time to live |
| Principal.UptoSplit | src/authz/principal.ts:122-130 | in an ordered list the events before the break are exactly those up to t |
| Principal.InsertUpto | src/authz/principal.ts:111-112 | an event dated after t leaves the past at t alone; any other takes its stable place in it |
| Principal.AsOfStable | src/authz/principal.ts:101-132 | the state at t depends only on the events dated up to t, in order of arrival |
| Principal.StatusMeans | src/authz/principal.ts:122-130 | terminal exactly after an ending event, and then revoked or decommissioned as the last of them says; otherwise active exactly if every suspension was lifted later |
| Principal.KeysMean | src/authz/principal.ts:122-130 | the last event about a key decides whether it is bound and to what; without one the record does |
| Principal.KeyAtExactly | src/authz/principal.ts:116-146 | a key has a value at t exactly when the record or the last event about it up to t binds it to that value |
| Principal.UsableExactly | src/authz/principal.ts:134-142 | usable exactly if enrolled, created by then, unexpired, with no ending event and every suspension lifted up to then, and holding the key asked for |
| Principal.RevokedFromThenOn | src/authz/principal.ts:116-132 | from a revocation on the principal is at no time active or suspended |
| Principal.PrincipalDirectory.Enroll | src/authz/principal.ts:89-99 | the first failing check is the answer; a record that passes is active from its creation on, once, and no other principal changes |
| Principal.PrincipalDirectory.Apply | src/authz/principal.ts:101-114 | accepts only a signed, well-formed event of the principal's issuer, keeps the list in stable time order, and leaves every earlier state of every principal unchanged |
| Principal.PrincipalDirectory.StateAt | src/authz/principal.ts:116-132 | the loop with its early break is the fold over exactly the events dated up to t |
| Delegation.WithinIsContainment | src/authz/delegation.ts:53-65 | the syntactic test on patterns holds exactly when everything one covers the other covers |
| Delegation.CoversExactly | src/authz/delegation.ts:53-54 | a pattern covers a name exactly if they are equal or it ends in `*` with the rest a prefix of the name |
| Delegation.AllowsExactly | src/authz/delegation.ts:138-142 | a link allows a use exactly if the action is listed, some resource pattern covers the resource, and no limit is exceeded |
| Delegation.ExcessExactly | src/authz/delegation.ts:67-77 | which excess is found, name by name, resource by resource, and by amount |
| Delegation.NoExcessNarrows | src/authz/delegation.ts:67-77 | when no excess is found, the parent allows whatever the child allows exactly if an empty name of the child is the parent's too, or the child allows nothing |
| Delegation.EmptyNameHidesExcess | src/authz/delegation.ts:68-72 | an empty name lets a child gain an action, or a resource, that its parent does not have |
| Delegation.VerifyLink | src/authz/delegation.ts:111-133 | one turn of the loop passes exactly when the delegator holds the named key at issue and the signature verifies under it, both principals are in force, nothing is revoked, the times fit, and root or continuity and narrowing hold; a reason given is true of the link |
| Delegation.VerifyDelegationChain | src/authz/delegation.ts:97-144 | passes exactly for a genuine chain: within the depth limit, simple, unbroken, every link signed under a key its delegator held at issue, live, narrowing, its leaf authorising the request; no delegation and too deep in exactly those cases, and any other reason true of the first link that fails, or of the request once all links are genuine |
| Delegation.AuthorisesExactly | src/authz/delegation.ts:97-144 | the checks together hold exactly for a genuine chain, spelt out link by link in terms of keys, signatures, events and times |
| Delegation.ChainNarrows | src/authz/delegation.ts:124-133 | along a checked chain every link narrows the one before exactly when no link has an empty name of its own |
| Delegation.EveryLinkAllows | src/authz/delegation.ts:124-143 | every link of an accepted chain allows the use, not only the leaf |
| Delegation.NoAmplification | src/authz/delegation.ts:98-144 | an accepted chain is a simple path from an allowed root to the requester; every link is signed under a key its delegator held at issue, its delegator in force at issue and at the time and its delegate at the time, no link outlives the one before, each allows action, resource and amount, and the leaf is for this audience |
| Decision.DecideThenVerify | src/authz/decision.ts:91-219 | verifying a fresh decision with the same request, policy and facts reproduces it; it is fresh exactly from a minute before issue until expiry |
| Decision.DecisionBodyMeans | src/authz/decision.ts:91-128 | permit exactly when unexpired, the policy valid and its decision allow or audit_only; error exactly when unexpired and the policy invalid; deny exactly on expiry, deny or quarantine; indeterminate otherwise; and the record names this request, its digest, principal and nonce |
| Decision.FactsMean | src/authz/decision.ts:66-79 | which fact each field of the request becomes, the request winning over facts sent along |
| Decision.ChecksMean | src/authz/decision.ts:130-219 | when each check of a decision passes, fails or is not made, in terms of digests, signers, policy, facts and times |
| Decision.StandingMeans | src/authz/decision.ts:205-214 | the principal check passes exactly for a principal in force, the delegation check exactly for a genuine chain |
| Decision.ReproducedPermit | src/authz/decision.ts:183-197 | a reproduced permit was decided before expiry and the policy permits on the facts given |
| Gateway.ToolGateway.Register | src/authz/gateway.ts:113-116 | a name is registered once |
| Gateway.AdmittedMeans | src/authz/gateway.ts:135-164 | a call that passes the checks names a registered tool for its action and resource, carries a permit bound to its request, valid now, for a usable principal, and a verified chain where one is named |
| Gateway.AdmitExactly | src/authz/gateway.ts:135-164 | admitted if and only if the named tool is registered for this action and a pattern covering this resource, a planned execution is the observed one, the permit is signed by a trusted key and bound to this request and audience, unexpired, reproduced where policy and facts are sent, and its principal and chain are in force |
| Gateway.RefusalsMean | src/authz/gateway.ts:135-150 | unknown tool, mismatch of action or resource, parameters and execution: which refusal is given, and exactly when |
| Gateway.LaterRefusalsMean | src/authz/gateway.ts:150-164 | the same for the refusals that follow from the decision checks |
| Gateway.HonestCallAdmitted | src/authz/gateway.ts:135-164 | a timely call with the evaluator's own permit on the same policy and facts is admitted |
| Gateway.StepKeepsInv | src/authz/gateway.ts:135-180 | every step of every call, of the store and of time keeps the system's invariant |
| Gateway.RanWasPermitted | src/authz/gateway.ts:7-26 | in every run a tool that ran was registered for the action and resource of its request, its planned execution was the observed one, its permit signed, bound and timely; a call confirmed rejected never ran its tool |
| Gateway.ConfirmationsMean | src/authz/gateway.ts:135-180 | in every run a call ran exactly on an answer that its insert won, completed or failed exactly as its tool ended, was replayed exactly on an answer that the key was taken, unavailable exactly for want of one, and rejected otherwise for its reason, with nothing following |
| Gateway.TwoRunsNeedForgetting | src/authz/gateway.ts:166-171 | if two calls with one audience and nonce both ran, one won the key after the other's time to live while its own request was unexpired up to the store timeout |
| Gateway.AtMostOnce | src/authz/replay.ts:25-62 | over a store that keeps its keys no two calls with the same audience and nonce ever both run, in any interleaving |
| Gateway.ForgettingIsSafe | src/authz/replay-shared.ts:20-60 | if the time to live covers first consumption to expiry plus the store timeout, a request never runs twice |
| Gateway.SpanPlusTimeoutIsEnough | src/authz/replay-shared.ts:20-60 | a request never runs twice if the time to live is at least the time from its earliest presentation to its expiry plus the store timeout |
| Gateway.WindowPlusTimeoutIsEnough | src/authz/decision.ts:199-203 | of decisions not dated ahead: a time to live of validity window plus a minute plus store timeout is enough |
| Gateway.WindowAloneRunsTwice | src/authz/replay-shared.ts:20-60 | a request admitted at two moments runs twice in some run whenever the time to live is below the time between them plus the store timeout |
| Gateway.TimeToLiveExact | src/authz/replay-shared.ts:20-60 | a request admitted from a minute before its issue to its expiry runs at most once in every run, on decisions not dated ahead, if and only if the time to live is at least that span plus the store timeout |
| Gateway.SampleAdmitted | src/authz/gateway.ts:135-164 | a concrete gateway and call that is admitted at any time up to its expiry |
| Gateway.StoreIsSafeExactly | src/authz/replay-shared.ts:20-60 | of decisions not dated ahead: a store is safe for all requests of at most a given window if and only if its time to live is at least that window plus a minute plus the store timeout |
| Gateway.DatedAheadRunsTwice | src/authz/decision.ts:199-203 | whatever the time to live, a request with a decision dated after the call that presents it can run twice |
| SharedStore.ActSimulated | src/authz/replay-shared.ts:62-94 | every step of gateways over PostgreSQL, Redis or DynamoDB statements is a step of the gateway over its abstract store |
| SharedStore.HistoriesAreRuns | src/authz/replay-shared.ts:41-94 | every interleaving of gateways, clients and statements is a run of the abstract system with the same calls |
| SharedStore.NeverTwice | src/authz/replay-shared.ts:41-94 | over those backends, on decisions not dated ahead, a request never runs twice if the time to live as kept is at least its window plus a minute plus the store timeout |
| SharedStore.BackendIsSafeExactly | src/authz/replay-shared.ts:41-94 | each backend is safe for all requests of at most a given window if and only if its time to live as kept is at least that window plus a minute plus the store timeout |
| Gateway.RanWithinDelegation | src/authz/gateway.ts:146-171 | in every run, a tool that ran for a request naming a delegation had a genuine chain, every link signed under a key held at issue and allowing action, resource and amount, if no link has an empty name of its own |
| Gateway.RanIsReplayable | src/authz/gateway.ts:146-171 | in every run, a tool that ran with policy and facts sent along was permitted by that policy, and would be on any completion of the facts |
| Der.LengthReads | src/platform/der.ts:39-50 | a written length below 2^32 is read back |
| Der.LengthWrites | src/platform/der.ts:39-50 | every accepted length is in its shortest form and re-encodes to the same octets |
| Der.LengthForms | src/platform/der.ts:157-170 | which octets a length is written as |
| Der.ElementForm | src/platform/der.ts:157-170 | an element is written as tag, length and content, a constructed one with its children in order |
| Der.RefusalsMean | src/platform/der.ts:34-65 | which malformed input gives which error |
| Der.TrailingRefused | src/platform/der.ts:67-72 | bytes after the element are refused |
| Der.OneReads | src/platform/der.ts:34-65 | reading an encoded element within the limits returns it and leaves what follows |
| Der.OneWrites | src/platform/der.ts:34-65 | any element read is one the writer produces and re-encodes to the bytes read |
| Der.ParseIsInverse | src/platform/der.ts:34-72 | a buffer parses to an element exactly when the element is writable within the limits and the buffer is its encoding |
| Der.OneEncoding | src/platform/der.ts:67-72 | two accepted buffers with the same element are the same buffer |
| Der.BuildTlv | src/platform/der.ts:157-170 | the writer's loop builds tag, shortest length and content |
| Der.ReadLengthAt | src/platform/der.ts:39-50 | the accumulating loop agrees with the length parser on value, error and position |
| Der.ReadOneAt | src/platform/der.ts:34-65 | the reader on a buffer and offset agrees with the element parser on value, error and position |
| Der.ReadChildren | src/platform/der.ts:55-63 | the loop over a constructed element's content reads exactly its children |
| DerValues.ArcsRead | src/platform/der.ts:93-110 | arcs below 2^46 are read back |
| DerValues.ArcsWrite | src/platform/der.ts:93-110 | accepted arcs are in range, minimal, and re-encode to the same octets |
| DerValues.ArcForms | src/platform/der.ts:201-205 | an arc is written in groups of seven bits, high ones first, the high bit set on all but the last |
| DerValues.KnownOid | src/platform/der.ts:198-207 | the octets of a known OID |
| DerValues.OidRoundTrip | src/platform/der.ts:93-207 | an OID survives encoding and decoding exactly when its packed first number is below 128 |
| DerValues.OidReencodes | src/platform/der.ts:93-207 | accepted content is what the writer writes exactly when its first number is one octet |
| DerValues.DecodeOidContent | src/platform/der.ts:93-110 | the single loop decodes the OID, with its errors |
| DerValues.BuildArc | src/platform/der.ts:201-205 | the loop builds the arc's base-128 digits |
| DerValues.IntegerIsInverse | src/platform/der.ts:112-128 | content is read as v exactly when v is below 2^48 and the content is what the writer writes for v |
| DerValues.IntegerForms | src/platform/der.ts:185-196 | which octets small integers are written as |
| DerValues.IntegerRefusals | src/platform/der.ts:112-128 | empty, negative, padded and too large content is refused, each with its error |
| DerValues.IntegerBytesRoundTrip | src/platform/der.ts:112-119 | an unsigned magnitude survives without its leading zeros exactly if it has a byte; of none the writer makes what the reader refuses |
| DerValues.IntegerBytesMean | src/platform/der.ts:192-195 | of a magnitude with a byte the writer makes the same number, not negative and in its shortest form |
| DerValues.BuildInteger | src/platform/der.ts:185-196 | the loops build the minimal content with a sign octet where needed |
| DerValues.BuildIntegerBytes | src/platform/der.ts:192-195 | the same from given bytes, skipping leading zeros |
| Vsock.DecodeConserves | src/nitro/vsock.ts:64-83 | the raw bytes of the frames and the rest are the input; every frame is one the encoder makes; what waits is below a header and 1 MiB |
| Vsock.FrameForm | src/nitro/vsock.ts:48-58 | a frame is the magic, version, kind and length in big-endian order, then the payload |
| Vsock.HeaderMeans | src/nitro/vsock.ts:64-83 | which header is taken, which refused and why |
| Vsock.ShortBufferWaits | src/nitro/vsock.ts:64-83 | fewer bytes than a header wait |
| Vsock.DecodeEncoded | src/nitro/vsock.ts:48-83 | any list of encoded frames decodes to those frames with nothing pending |
| Vsock.DecodeAppend | src/nitro/vsock.ts:60-83 | decoding in two goes: an error stays, otherwise the second part continues from the rest |
| Vsock.FrameDecoder.Push | src/nitro/vsock.ts:64-83 | one push decodes buffer and chunk together, returns the frames or throws, and keeps exactly the rest |
| Vsock.ChunkingFrom | src/nitro/vsock.ts:60-83 | however a stream is cut, it fails exactly when the whole stream fails and otherwise gives the same frames and rest |
| Vsock.ChunkedFrames | src/nitro/vsock.ts:60-88 | any cut of any list of encoded frames gives those frames back and leaves nothing pending |
| Vsock.ForwardsUnchanged | src/nitro/vsock.ts:90-124 | the forwarder writes only bytes it received, in order, and holds back less than a header and 1 MiB |
| Vsock.ForwardResolves | src/nitro/vsock.ts:95-124 | it resolves exactly for streams of whole frames, and then has written every byte and counted bytes and frames |
| Policy.EvaluateCondition | src/platform/policy.ts:102-141 | the recursion with early returns is three-valued logic, and the facts it collects are exactly the missing ones it comes to |
| Policy.AllMeans | src/platform/policy.ts:103-111 | `all` is false exactly if some part is false, true exactly if every part is true |
| Policy.AnyMeans | src/platform/policy.ts:112-120 | `any` is true exactly if some part is true, false exactly if every part is false |
| Policy.NotMeans | src/platform/policy.ts:121-123 | `not` exchanges true and false and keeps unknown |
| Policy.TestMeans | src/platform/policy.ts:124-141 | a test is unknown exactly when its fact is missing or null, unless it asks just that; what each operator answers otherwise, order being between numbers only |
| Policy.AskedMissing | src/platform/policy.ts:102-141 | every fact found missing is missing, and an unknown answer always names one |
| Policy.DefiniteSurvives | src/platform/policy.ts:102-141 | if every `exists` asks for a fact that is there, a definite answer survives any filling in of missing facts |
| Policy.TestSurvivesExact | src/platform/policy.ts:124-130 | a single test survives every completion exactly when it does not ask whether a missing fact exists |
| Policy.ExistsIsNotConservative | src/platform/policy.ts:126-126 | `exists` on a missing fact is a definite answer that a completion reverses |
| Policy.EvaluatePolicy | src/platform/policy.ts:184-195 | the pass over the rules and the fold give the decision, one entry per contributing rule with its id, reason and exactly the missing facts it came to, and the reason codes |
| Policy.DecideIsSeverest | src/platform/policy.ts:193-194 | the decision is the severest contribution, or the default when no rule contributes |
| Policy.DecideLadder | src/platform/policy.ts:143-195 | deny if some rule gives it, otherwise quarantine, require_approval, defer, audit_only, allow in that order, otherwise the default |
| Policy.OrderIrrelevant | src/platform/policy.ts:184-194 | permuting the rules never changes the decision |
| Policy.UnknownIsConservative | src/platform/policy.ts:11-17 | if each effective on_unknown is at least as severe as its rule's decision and the default, missing facts never make the decision milder |
| Policy.PermitSurvives | src/platform/policy.ts:11-17 | with on_unknown at defer or stricter, a permit on partial facts is the decision on every completion |
| Capture.StepKeepsInv | src/phala/capture.ts:125-201 | every step of captures and of any number of drains, harmless throws included, keeps the queue's invariant |
| Capture.Conservation | src/phala/capture.ts:125-211 | in every run what left the queue, in order, followed by the queue is what was accepted; accepted is sent plus dropped plus queued plus held; the queue is bounded and nothing evicted unless it was full; no batch is tried more than maxRetries + 1 times and none given up sooner |
| Capture.FatesAreFinal | src/phala/capture.ts:175-201 | in every continuation a settled batch stays as it is, no event changes batch, and attempts never go back |
| Capture.ClosedAcceptsNothing | src/phala/capture.ts:125-211 | in every continuation after close nothing more is accepted and the queue only gives up its front |
| Capture.CloseIsForGood | src/phala/capture.ts:203-211 | from `close` on, in every continuation, nothing more is accepted |
| Capture.CountersMean | src/phala/capture.ts:125-198 | over every run, whatever throws, `failures` counts failed sends and thrown callbacks, `batches` the sends that went through, and the high-water mark is the longest the queue has been |
| Capture.AttemptsCounted | src/phala/capture.ts:175-198 | over every run a batch is sent once when taken and once for each retry |
| Capture.StepShifts | src/phala/capture.ts:125-201 | for any options and whatever throws, a step changes what is unaccounted for by exactly its stated amount |
| Capture.BalancedExact | src/phala/capture.ts:125-211 | accepted is sent plus dropped plus queued plus held all through a run if and only if no capture finds no room at all, no `onDrop` throws on overflow, and neither an `onSent` throws nor a drain dies on a batch with events |
| Capture.NoRoomBreaks | src/phala/capture.ts:129-138 | with maxQueue 0 the first event breaks count and bound |
| Capture.OnDropThrowLoses | src/phala/capture.ts:133-144 | when onDrop throws on overflow one event is counted nowhere |
| Capture.OnSentThrowDoubles | src/phala/capture.ts:180-198 | when onSent throws a batch is counted twice |
| Capture.TimerThrowLoses | src/phala/capture.ts:186-198 | when the drain dies in its catch branch its batch is counted nowhere, for good |
| Capture.CaptureQueue.CaptureEvent | src/phala/capture.ts:125-148 | the capture step, with what a throwing `onDrop` or `setTimer` makes of it: a full queue loses its oldest event and no other, a closed one takes nothing |
| Capture.CaptureQueue.CloseQueue | src/phala/capture.ts:203-211 | the close step: the flag is set and nothing else changes |
| Capture.CaptureQueue.TakeBatch | src/phala/capture.ts:176-178 | a drain takes the oldest events, a whole batch or all there are |
| Capture.CaptureQueue.SendSucceeded | src/phala/capture.ts:181-185 | the batch is counted as sent once |
| Capture.CaptureQueue.SendFailed | src/phala/capture.ts:186-198 | the batch is retried exactly while retries are left, and then counted as dropped; or the drain dies |

## Left out

- Signatures, CBOR, base64, KMS, X.509, COSE, and the reports of envelopes, receipts, Nitro, NVIDIA, TEE and RFC 3161 timestamps: library calls and long lists of independent branches.
- Sockets, timers and HTTP: the Redis client and its reply parser, vsock servers, calendars, explorers.
- Command line, user interface, documentation, capability and compliance tables, and the small folds of status, outcome, trust and disclosure.
- Consistency.VerifyConsistency: sizes are integers; fractional numbers and NaN, which the source does not exclude, are not modelled.
- Merkle.Root: uses the mathematical split for every n; the 32-bit loop is `Shift32.SplitLoop32`.
- OtsTree.ParseProof: integers are exact where the source rounds beyond 2^53; unknown attestations lose their payload when read, as in the source, and are therefore outside the round trip.
- OtsTree.WriteStamp: the library sort is modelled as a stable insertion sort, for comparisons proved total and transitive.
- OtsMerge.SpliceAdds: on values; the objects, and a graft shared by several nodes, are in `OtsShared.SpliceAt`.
- OtsHeap.MergeInto: the two trees are trees and disjoint; shared objects are in `OtsShared.MergeShared`.
- OtsShared.SpliceShared: splicing again into objects an earlier graft made shared is covered where levels agree; that it can close a cycle otherwise is `OtsTwice.SecondGraftCloses`, and no exact condition on a sequence of grafts is given.
- Vsock.FrameDecoder.Push: copies of byte arrays are not distinguished from views of them.
- Der.ReadOneAt: `subarray` views are values; decoding of times and certificate extensions is not modelled.
- DerValues.DecodeOid: OIDs are lists of arcs; the dotted spelling is not modelled.
- Policy.EvaluatePolicy: structural validation and the digests in the record are not modelled.
- Capture.Conservation: timers, the cost samples and the `inFlight` promise are not modelled, nor callbacks that call back into the queue; any number of drains may run at any time, which includes what the source allows. Whether `close` returns is not stated.
- Gateway.Admit: parameter commitments are a given truth value and execution contexts are compared as a whole.
- Gateway.AtMostOnce: one clock for gateways and store; clock skew is not modelled. An answer counts up to the timeout after the call's start; the source's timer starts after its synchronous checks and may fire late, so the timeout in these statements includes that delay. All calls share one time to live and timeout. FileNonceStore is the atomic insert of the model with an answer that may be lost.
- Principal.PrincipalDirectory.Enroll: what the signature and trust checks say of a record is given.
- LogFile.Step: what was written stays written. A power loss may drop lines that were acknowledged, since the source does not sync them, and two processes on one file are not modelled.
- LogFile.FileLog.BuildSTH: signing is a parameter; a checkpoint write that fails is not modelled.
