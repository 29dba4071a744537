# Veyora: models and proofs

Dafny models of the parts of Veyora where a mistake would be hardest to see, with proofs of what those
parts promise. Each module follows one component; loops, buffers, queues and stores that the programs
update step by step are methods over loops, arrays and classes here, and each is proved against a
specification function about which the properties are then proved.

- **Manifests** (`ManifestCbor`, `Merkle`, `Ed25519`): the closed canonical CBOR codec in both directions,
  the paged Merkle tree, and signing and verifying. The hash is any function to 32-byte strings, so binding
  is stated as "equal, or these two hashed strings collide". The curve group is a parameter, its laws
  hypotheses that are shown not to contradict each other (`Ed25519.LawsAreConsistent`; sections 5.1.5 to
  5.1.7 of RFC 8032).
- **Protocol encodings and symmetric cryptography** (`ProtocolCbor`, `Bits`, `ChaCha20`, `Aead`, `X25519`,
  `Buckets`): map-capable CBOR with length-first keys (section 4.2.3 of RFC 8949), domain-separated
  preimages, ChaCha20 and Poly1305 (sections 2.1 to 2.8 of RFC 8439), the ladder (section 5 of RFC 7748)
  under the laws of its two formulas, and the padding sizes. Those laws, and that the base generates a group
  of the stated order, are hypotheses that the real curve satisfies; no witness for them is given here.
- **Backup streams** (`BackupStream`, `BackupFrames`): the two C programs that write and check framed
  backups, with their bounded buffers. The stream cipher is a parameter whose push and pull are inverse.
- **Record synchronisation** (`RecordStore`, `SyncProtocol`, `SyncQueues`, `SyncOutcomes`, `SyncClient`,
  `Rekey`): clients with offline queues over a compare-and-set store, as an interleaving state machine and
  as the client's own methods, and the change of master password with its rollback. Clients only name
  revisions the store has handed out; requests are handled one at a time; responses may be lost and requests
  may arrive after the client gave them up.
- **Configuration** (`ConfigRegistry`, `RustLiteral`, `ConfigRuntime`, `ConfigSoundness`): the registry
  validator and renderer, the string literals it hands to the Rust compiler, and the layered loader.
- **Smaller machines** (`RateLimiting`, `Decimal`, `AtomicFile`, `Json`, `JsonStrings`, `BackupRestore`,
  `BackupExactness`, `SnapshotVerify`): the fixed-window limiter, atomic file replacement under concurrent
  writers, and the hand-written JSON backup against an RFC 8259 parser, the import and the snapshot check.

`Bytes` holds byte orders and the shared result types.

## Where the code and its promises part

Each of these is proved, with the exact condition where there is one.

- A signature whose nonce is zero modulo the group order does not verify (`Ed25519.OwnSignatureVerifies`).
  The test for a zero coordinate with the sign bit set never fires (`Ed25519.SignOfZeroTestNeverFires`);
  the small-order test refuses such points.
- Preimages of domains that hold a NUL can coincide (`ProtocolCbor.NulBreaksSeparation`), and which do is
  known exactly (`ProtocolCbor.PreimagesCollideExactlyWhen`, `ProtocolCbor.ContinuationsCollideExactlyWhen`).
- A message longer than 64 * (2^32 - 1) bytes is encrypted in part with the block that supplies the
  one-time key; nothing in the code refuses it (`Aead.KeyBlockIsNotReused`).
- A reply to a replayed write takes a newer one out of the queue exactly when that was saved during the
  flush (`SyncQueues.TakesAnotherExactlyWhen`), and it can then be lost for good
  (`SyncOutcomes.SaveDuringFlushIsLost`, `SyncOutcomes.TakenOutIsLost`). `flushPending` is described as
  dropping writes on definitive rejections; it drops them on every error that is not a network failure, and
  where no request arrives after its client gave it up, loses exactly those the store would have granted and
  had not seen (`SyncClient.FlushesLoseNothingExactlyWhen`). A request that arrives late can still save a
  dropped write (`SyncOutcomes.UnderWayMayCommit`); which writes are lost for good is then exact too
  (`SyncOutcomes.LostExactlyWhen`).
- A password change promises to leave the vault consistent after a failure; it does so exactly when the
  failing update did not reach the store and every rollback update did
  (`Rekey.FailureIsConsistentExactlyWhen`).
- The generator accepts a negative default for a duration or a size, and every load then fails
  (`ConfigSoundness.LoadBlamesProjectionExactlyWhen`, `ConfigSoundness.NegativeDurationIsAccepted`). It also
  renders control characters into Rust source that does not compile (`RustLiteral.CompiledIffShared`).
- A key is held to every limit of a minute at once exactly when it does not leave that minute and come back
  to it, which takes a clock that steps back (`RateLimiting.LimitHoldsExactlyWhen`,
  `RateLimiting.AdvancingClockNeverReturns`); for one limit, each stay
  in the minute is allowed its own (`RateLimiting.EachStayHasTheLimit`).
- Atomic replacement works exactly when no target is a temporary name that its writers can take
  (`AtomicFile.AtomicExactlyWhen`).
- Identifiers that pass the restore program's own check can spoil a backup: it restores exactly when no text
  field needs an escape (`BackupExactness.BackupRestoresExactlyWhen`), and a quote can leave no JSON at all
  (`BackupRestore.QuoteBreaksBackup`). A snapshot that passes the check is refused by the import when a
  revision exceeds 2^63 - 1 (`SnapshotVerify.VerifiedIsImportedWhole`). The hexadecimal check that asks for
  lower case takes other forms too (`SnapshotVerify.DecodesExactlyPairs`,
  `SnapshotVerify.CanonicalExactlyLowerHex`).

## Model

| member | source | states |
|---|---|---|
| ManifestCbor.HeadIsShortest | packages/security-kernel/oracles/manifest-v1.py:166-177 | every argument up to 2^64 - 1 gets the major type and the shortest of the five forms, whose bytes read back as the argument |
| ManifestCbor.DecodeEncode | packages/security-kernel/oracles/manifest-v1.py:180-234 | an encoding, wherever it stands and whatever follows it, decodes to its value and its exact end |
| ManifestCbor.EncodeDecode | packages/security-kernel/oracles/manifest-v1.py:195-234 | whatever decodes re-encodes to exactly the bytes consumed, so only canonical forms are accepted |
| ManifestCbor.AcceptsExactlyEncodings | packages/security-kernel/oracles/manifest-v1.py:180-234 | the decoder yields a value and an end exactly when that value's encoding stands in between |
| ManifestCbor.PrefixFree | packages/security-kernel/oracles/manifest-v1.py:180-192 | no encoding is a proper prefix of another, and one encoding has one value |
| ManifestCbor.EncodeInjective | packages/security-kernel/oracles/manifest-v1.py:180-192 | different values have different encodings |
| ManifestCbor.DecodeCbor | packages/security-kernel/oracles/manifest-v1.py:209-234 | the decoder's loop over list items terminates on every input and computes the recursive decoding, errors included |
| Merkle.SortIsStable | packages/security-kernel/oracles/manifest-v1.py:331 | the sort by record ID is sorted, a permutation, and keeps equal IDs in their order |
| Merkle.NodeCount | packages/security-kernel/oracles/manifest-v1.py:333-350 | a non-empty tree has one node per page and exactly one inner node fewer than pages, and the pages hold all rows |
| Merkle.OrderIndependent | packages/security-kernel/oracles/manifest-v1.py:326-350 | with distinct IDs the whole result is the same for every order of the input |
| Merkle.RootNodeAgrees | packages/security-kernel/oracles/manifest-v1.py:338-350 | the level loop computes the digest of a tree whose leaves are the pages in order |
| Merkle.NodeBinding | packages/security-kernel/oracles/manifest-v1.py:333-347 | two trees with one digest are equal unless two of the strings hashed for them collide; a page is never taken for an inner node |
| Merkle.RootBindsLeaves | packages/security-kernel/oracles/manifest-v1.py:326-350 | for any lengths, page sizes and an empty side too, equal roots mean equal leaf sequences in ID order, or two different hashed strings have one digest |
| Merkle.HashPages | packages/security-kernel/oracles/manifest-v1.py:333-337 | the page loop hashes the domain-separated encodings of consecutive pages, numbered from zero, or reports the first encoding error |
| Merkle.NextLevel | packages/security-kernel/oracles/manifest-v1.py:341-349 | one pass of the inner loop joins neighbours and promotes an odd last digest unchanged |
| Merkle.BuildTree | packages/security-kernel/oracles/manifest-v1.py:326-350 | the loops together give the specified root, leaf hashes and nodes for every page size, refused ones included |
| Ed25519.ScalarMultiplyIsMultiple | packages/security-kernel/oracles/manifest-v1.py:85-93 | double-and-add equals repeated addition for every scalar |
| Ed25519.ScalarMultiplyLoop | packages/security-kernel/oracles/manifest-v1.py:85-93 | the loop as written computes that multiple |
| Ed25519.DecodeEncodePoint | packages/security-kernel/oracles/manifest-v1.py:96-99 | an encoded curve point decodes to itself exactly when it passes the small-order and order checks |
| Ed25519.SignOfZeroTestNeverFires | packages/security-kernel/oracles/manifest-v1.py:128-144 | the test for a zero x with the sign bit set can never be true, because the recovered root is even |
| Ed25519.NegativeZeroIsSmallOrder | packages/security-kernel/oracles/manifest-v1.py:128-144 | such an encoding is refused all the same, as a point of small order |
| Ed25519.ClampMasks | packages/security-kernel/oracles/manifest-v1.py:102-108 | clearing three bits, clearing one and setting one is the arithmetic the model clamps with, for every byte |
| Ed25519.ClampedIsNotMultipleOfL | packages/security-kernel/oracles/manifest-v1.py:102-125 | neither a clamped scalar nor eight times it is a multiple of the group order |
| Ed25519.SignatureEquation | packages/security-kernel/oracles/manifest-v1.py:111-125 | the response computed modulo the order satisfies the verification equation for every scalar, nonce and challenge |
| Ed25519.OwnSignatureVerifies | packages/security-kernel/oracles/manifest-v1.py:111-163 | for every seed and message a signature verifies under its own key if and only if the nonce is not zero modulo the order |
| Ed25519.ResponseIsUnique | packages/security-kernel/oracles/manifest-v1.py:147-163 | for one key, message and commitment at most one response verifies, so the check of the scalar against the order leaves no second form of a signature |
| ProtocolCbor.EncodeIsRawOfCanon | packages/security-kernel/oracles/project-crypto-v1.py:72-87 | encoding with sorted maps is the unsorted encoding of the value whose maps are in key order at every depth |
| ProtocolCbor.EncodingDeterminesValue | packages/security-kernel/oracles/project-crypto-v1.py:72-87 | two encodable values have one encoding if and only if they differ at most in the order of map entries |
| ProtocolCbor.EncodingPrefixFree | packages/security-kernel/oracles/project-crypto-v1.py:72-87 | no encoding of a nested value is a proper prefix of another |
| ProtocolCbor.InsertionOrderIsIrrelevant | packages/security-kernel/oracles/project-crypto-v1.py:84-86 | a map with distinct keys encodes to the same bytes whatever its insertion order, nested maps included |
| ProtocolCbor.PreimageInjective | packages/security-kernel/oracles/project-crypto-v1.py:90-91 | for NUL-free domains two preimages are equal if and only if the domains are and the bodies differ at most in map order |
| ProtocolCbor.NulBreaksSeparation | packages/security-kernel/oracles/project-crypto-v1.py:90-91 | for every ASCII domain, another one holding a NUL gives the same preimage with a different body |
| ProtocolCbor.PreimagesCollideExactlyWhen | packages/security-kernel/oracles/project-crypto-v1.py:90-91 | two preimages of any domains are equal if and only if the domains are and the bodies differ at most in map order, or one domain continues the other by a NUL and the start of its body |
| ProtocolCbor.ContinuationsCollideExactlyWhen | packages/security-kernel/oracles/project-crypto-v1.py:90-91 | where one domain continues another by a NUL and more, and the first byte of that does not say where a length is to be found, some two bodies have one preimage if and only if that byte announces a string reaching past the rest and the second NUL |
| Bits.RotateInverse | packages/security-kernel/oracles/project-crypto-v1.py:268-269 | rotating by an amount and then by the rest of the 32 bits gives the word back |
| ChaCha20.QuarterInverse | packages/security-kernel/oracles/project-crypto-v1.py:272-280 | at four different positions the quarter round has an exact two-sided inverse on all states |
| ChaCha20.QuarterIsLocal | packages/security-kernel/oracles/project-crypto-v1.py:272-280 | a quarter round changes no other word |
| ChaCha20.QuarterRound | packages/security-kernel/oracles/project-crypto-v1.py:272-280 | the eight in-place updates of the list give the specified state |
| ChaCha20.RoundsPermute | packages/security-kernel/oracles/project-crypto-v1.py:283-294 | any number of double rounds permutes the 16-word states |
| ChaCha20.ChaChaRounds | packages/security-kernel/oracles/project-crypto-v1.py:283-294 | the loop on a copy performs ten double rounds |
| ChaCha20.ChaChaBlock | packages/security-kernel/oracles/project-crypto-v1.py:297-305 | the block is the sum of the permuted and the initial state, and other key or nonce lengths are refused |
| ChaCha20.ChaChaXor | packages/security-kernel/oracles/project-crypto-v1.py:318-325 | byte i is XORed with keystream byte i mod 64 of block counter + i / 64 modulo 2^32, for every length; lengths of key and nonce are noticed only when there is a byte to encrypt |
| ChaCha20.XorStreamInvolution | packages/security-kernel/oracles/project-crypto-v1.py:318-325 | applying the stream twice gives the value back |
| Aead.PolynomialStep | packages/security-kernel/oracles/project-crypto-v1.py:338-341 | appending one coefficient is one multiply-and-add of the block polynomial |
| Aead.AccumulateBlocks | packages/security-kernel/oracles/project-crypto-v1.py:337-341 | the accumulator loop equals the block polynomial at r modulo 2^130 - 5 for every message |
| Aead.Poly1305 | packages/security-kernel/oracles/project-crypto-v1.py:332-342 | the tag is that value plus s modulo 2^128, and other key lengths are refused |
| Aead.MacInputInjective | packages/security-kernel/oracles/project-crypto-v1.py:345-350 | the padded input determines associated data and ciphertext, for lengths below 2^64 |
| Aead.ChaCha20Poly1305Seal | packages/security-kernel/oracles/project-crypto-v1.py:345-350 | the sealing procedure gives the ciphertext and tag specified, or the error of the first length that is refused |
| Aead.SealedOpens | packages/security-kernel/oracles/project-crypto-v1.py:345-350 | the stream applied to all but the tag gives the plaintext back, and the tag is the one over that data and ciphertext |
| Aead.KeyBlockIsNotReused | packages/security-kernel/oracles/project-crypto-v1.py:318-350 | byte i of a sealed message is plaintext byte i XORed with a byte of the block numbered 1 + i / 64 modulo 2^32, and none of these is the block of the one-time key if and only if the message has at most 64 * (2^32 - 1) bytes |
| X25519.LadderStep | packages/security-kernel/oracles/project-crypto-v1.py:374-391 | one step moves the running pair from [m], [m+1] to [2m + bit], [2m + bit + 1] up to the pending swap |
| X25519.LadderLoop | packages/security-kernel/oracles/project-crypto-v1.py:371-395 | the loop with deferred swaps and the closing inversion computes the specified coordinate for every scalar and every received coordinate, zero and unreduced ones included |
| X25519.LadderIsMultiple | packages/security-kernel/oracles/project-crypto-v1.py:371-395 | under the ladder laws that coordinate is the one of [k]P for every k below 2^255 |
| X25519.OnlyResidueMatters | packages/security-kernel/oracles/project-crypto-v1.py:371-395 | a coordinate and its residue modulo the prime give the same result |
| X25519.ZeroGivesZero | packages/security-kernel/oracles/project-crypto-v1.py:371-395 | a coordinate divisible by the prime gives zero for every scalar |
| X25519.DifferentialAddSymmetric | packages/security-kernel/oracles/project-crypto-v1.py:382-387 | differential addition does not depend on the order of its two terms |
| X25519.ClampMasks | packages/security-kernel/oracles/project-crypto-v1.py:363-366 | the three maskings of the scalar are the arithmetic the model clamps with, for every byte |
| X25519.SharedSecret | packages/security-kernel/oracles/project-crypto-v1.py:360-395 | the function returns the 32 bytes of the ladder's result for the clamped scalar and the coordinate received, and refuses other lengths |
| X25519.ReceivedModuloPrime | packages/security-kernel/oracles/project-crypto-v1.py:360-395 | received bytes with congruent coordinates give the same secret, and those congruent to zero give 32 zero bytes |
| X25519.PublicKeyServes | packages/security-kernel/oracles/project-crypto-v1.py:397-398 | a public key is the coordinate of [a]B for the clamped a, and the ladder laws apply to that point in turn |
| X25519.PartiesAgree | packages/security-kernel/oracles/project-crypto-v1.py:360-398 | two parties derive the same 32 bytes from each other's public keys |
| Buckets.BucketIsLeast | packages/security-kernel/oracles/project-crypto-v1.py:484-493 | a length has a bucket exactly from 0 to 16 MiB, and it is the least of the 27 sizes that holds it |
| Buckets.BucketsAreMonotone | packages/security-kernel/oracles/project-crypto-v1.py:484-493 | longer records never get smaller buckets |
| Buckets.BucketsAreFixed | packages/security-kernel/oracles/project-crypto-v1.py:484-493 | each of the 27 sizes is its own bucket |
| Buckets.PaddingIsBounded | packages/security-kernel/oracles/project-crypto-v1.py:484-493 | from 1025 bytes up the bucket is at most twice the length less one |
| BackupStream.AppendByte | packages/security-kernel/oracles/secretstream-v1.c:168-174 | a byte is written inside the capacity or nothing is, and the code tells which |
| BackupStream.AppendBytes | packages/security-kernel/oracles/secretstream-v1.c:176-183 | the whole block is written inside the capacity or nothing is |
| BackupStream.AppendUint | packages/security-kernel/oracles/secretstream-v1.c:185-206 | a value is written in full exactly when it is at most 2^32 - 1 and fits; otherwise only a prefix, never before the offset or past the capacity |
| BackupStream.UintDecodes | packages/security-kernel/oracles/check-secretstream-v1.c:216-227 | every integer written reads back through the canonical decoder, whatever follows it |
| BackupStream.BuildAad | packages/security-kernel/oracles/secretstream-v1.c:231-248 | for all 64-bit arguments it succeeds exactly when index, kind and count fit 32 bits, and then fits its 96-byte buffer; in every case the buffer ends up holding the head and the integers up to the first that does not fit, and what it held before after them |
| BackupStream.AadIsCanonical | packages/security-kernel/oracles/check-secretstream-v1.c:229-246 | the associated data is the domain, a zero byte and the canonical encoding of hash, index, kind and count |
| BackupStream.AadInjective | packages/security-kernel/oracles/secretstream-v1.c:231-248 | equal associated data mean equal hash, index, kind and count |
| BackupStream.BuildFinalPlaintext | packages/security-kernel/oracles/secretstream-v1.c:250-271 | it succeeds exactly when the count is at most 1023 and the logical size at most 2^32 - 1, and then fits its buffer; in every case the buffer ends up holding what was written up to the first failure, and what it held before after that |
| BackupStream.PaddedLengthFits | packages/security-kernel/oracles/secretstream-v1.c:250-271 | the 64-bit product of count and chunk size is written exactly up to 1023 chunks, and does not wrap before |
| BackupStream.FooterIsCanonical | packages/security-kernel/oracles/check-secretstream-v1.c:270-289 | the footer is the canonical encoding of hash, count, size, padded length and logical hash |
| BackupFrames.WriteFrames | packages/security-kernel/oracles/secretstream-v1.c:355-410 | the generator's loop succeeds exactly when the footer can be written, and then writes frames 0 to count as one stream |
| BackupFrames.CheckFrame | packages/security-kernel/oracles/check-secretstream-v1.c:352-411 | one turn of the checking loop accepts exactly a frame whose data, tag, plaintext, padding and decryption all match |
| BackupFrames.CheckFrames | packages/security-kernel/oracles/check-secretstream-v1.c:352-416 | the checking loop accepts exactly count message frames in index order followed by one final frame, opened by one stream |
| BackupFrames.GeneratedIsAccepted | packages/security-kernel/oracles/check-secretstream-v1.c:352-416 | for every case that can be encoded the checker accepts what the generator writes |
| BackupFrames.AcceptedFramesDecode | packages/security-kernel/oracles/check-secretstream-v1.c:362-404 | accepted frames say in canonical CBOR which message of how many they are, and the last carries the footer for exactly this count, size and hashes |
| BackupFrames.ExchangedFramesRefused | packages/security-kernel/oracles/check-secretstream-v1.c:352-416 | two accepted frames exchanged are refused |
| BackupFrames.SlicesPartitionSnapshot | packages/security-kernel/oracles/secretstream-v1.c:363-367 | the logical slices of any snapshot put together are that snapshot, each byte once and in order, if and only if the chunks have room for it |
| BackupFrames.MessagesCarrySlices | packages/security-kernel/oracles/secretstream-v1.c:355-390 | the messages hold, before their padding, the slices of the snapshot of zeros that the programs make up, and all of it if and only if the chunks have room for it |
| RecordStore.RestoreUndoesTombstone | packages/storage/persistence/src/lib.rs:280-312 | a tombstone followed by a restore gives back the live body two revisions on and changes nothing else |
| RecordStore.EnqueueKeepsOnePerRecord | apps/web/src/core/pending-queue.js:44-49 | a queued write replaces any earlier one for its record |
| RecordStore.WithoutFirst | apps/web/src/core/pending-queue.js:52-54 | with one entry per record, removing the first entry's record removes that entry alone |
| SyncProtocol.NextKeeps | apps/web/src/records.js:390-453 | every step of any client, the store or the network keeps the protocol invariant, and history only grows |
| SyncProtocol.RunKeeps | apps/web/src/records.js:390-453 | the invariant holds after every run |
| SyncProtocol.RunGrows | packages/storage/persistence/src/lib.rs:280-312 | no commit and no issued write is ever altered later in a run |
| SyncProtocol.RevisionsAreConsecutive | packages/storage/persistence/src/lib.rs:280-312 | in every interleaving a record's commits are 1, 2, 3, ..., each naming its immediate predecessor, and the stored row is the last |
| SyncProtocol.CommitsAtMostOnce | apps/web/src/records.js:422-444 | a write commits at most once, at one place of one record, however often it is replayed or delivered late |
| SyncProtocol.AcknowledgedIsNeverLost | apps/web/src/records.js:399-407 | a write acknowledged to its client stays committed at that revision for ever after |
| SyncProtocol.DroppedWasDecided | apps/web/src/records.js:437-441 | a write dropped on a conflict had its place taken: by itself with the response lost, or by another write that asked for the same place |
| SyncProtocol.QueuesStayUnique | apps/web/src/core/pending-queue.js:44-54 | in every run each queue holds at most one write per record |
| SyncQueues.QueueHoldsLastFailedSaves | apps/web/src/core/pending-queue.js:44-54 | at every moment of every run a queue holds, record by record, the write whose save failed last, unless a reply to a replay of that record came since |
| SyncQueues.FlushHoldsAlways | apps/web/src/records.js:422-444 | in every run, of the records a flush has still to replay, the queue holds the write the flush will send or one whose save failed since the flush began |
| SyncQueues.TakesAnotherExactlyWhen | apps/web/src/records.js:428-441 | in every run a reply takes out of the queue a write it does not answer if and only if a save of that record failed since that flush began, and nothing replaced or settled it before the reply |
| SyncQueues.QueuedUntilReplacedOrSettled | apps/web/src/records.js:405-441 | in every run a write whose save failed stays queued until a later save of its record fails or a reply to a replay of its record comes; where that replay was of another write, it was itself saved during that flush |
| SyncQueues.ReplyRemovesOnlyItsWrite | apps/web/src/records.js:428-441 | a replay's reply leaves the other queued writes alone if and only if the queue does not meanwhile hold a different write for that record |
| SyncOutcomes.LostExactlyWhen | apps/web/src/records.js:390-453 | after any run an issued write commits in no continuation, requests given up and arriving late included, if and only if it has not committed and its place is another write's or neither a queue, a flush nor an open request carries it any more |
| SyncOutcomes.CommittedIsAnywhere | packages/storage/persistence/src/lib.rs:280-312 | in every state of a run a write has committed at the place it asked for or nowhere in any record's history |
| SyncOutcomes.UnderWayMayCommit | apps/web/src/records.js:422-444 | while its place is free, a write that a queue, a flush or an open request still carries commits in some continuation |
| SyncOutcomes.TakenOutIsLost | apps/web/src/records.js:428-441 | a write that the reply to another takes out of the queue, where the store has decided the place both ask for, has committed already or never will in any continuation |
| SyncOutcomes.SaveDuringFlushIsLost | apps/web/src/records.js:422-444 | for every client, record and contents some run takes a save made during a flush out of the queue unsent, and no continuation commits it |
| SyncClient.FlushConserves | apps/web/src/records.js:422-444 | synced, conflicting and pending writes add up to the queue, and the pending ones are its end in order |
| SyncClient.StopsAtFirstLoss | apps/web/src/records.js:428-441 | the flush stops early exactly at the first lost request or response |
| SyncClient.PutTwice | packages/storage/persistence/src/lib.rs:280-312 | a put sent again changes nothing and is refused |
| SyncClient.LossesDoNotMatter | apps/web/src/records.js:422-444 | whatever is lost over any number of flushes, once the queue is empty the store holds what one flush without losses would have left |
| SyncClient.AllRoundsSettle | apps/web/src/records.js:422-444 | after any number of flushes, a queued write's record ends as its own put leaves it, or as it was if it was rejected before any request for it arrived |
| SyncClient.TurnLosesExactlyWhen | apps/web/src/records.js:428-441 | one turn changes what the queue will come to if and only if it drops, on an error that is neither a network failure nor a conflict, a write the store would have granted |
| SyncClient.FlushesLoseNothingExactlyWhen | apps/web/src/records.js:422-444 | whatever is lost or rejected over any number of flushes, where no request arrives after its client gave it up, they amount to one flush without losses if and only if no write the store would have granted is rejected before any request for it has arrived |
| SyncClient.Client.FlushPending | apps/web/src/records.js:422-444 | the loop over the queue's snapshot gives the specified store, queue and counts |
| SyncClient.Client.ReplayItem | apps/web/src/records.js:428-441 | one turn of the flush: any answer takes the item off the queue, a network failure leaves it |
| SyncClient.Client.SaveEntry | apps/web/src/records.js:390-413 | a save reaches the store or, on a network failure, replaces any queued write for its record |
| SyncClient.Client.RestoreEntry | apps/web/src/records.js:306-318 | a restore writes the stored body back alive at the next revision, and nothing when a request is lost |
| SyncClient.Client.TombstoneRecord | apps/web/src/records.js:447-453 | a delete names the revision it expects and reports the store's answer or a network failure |
| Rekey.InventoryDescribes | apps/web/src/records.js:231-243 | the inventory holds every live record once, with its revision and what it says |
| Rekey.PassLeavesUpdates | apps/web/src/records.js:250-274 | a pass over the inventory leaves each update that arrived in its record and everything else as it was |
| Rekey.SuccessRekeysEverything | apps/web/src/records.js:245-278 | if no write fails, every live record opens under the new key to what it said, one revision on, tombstoned records are untouched, and the session has the new key and salt |
| Rekey.FailureIsConsistentExactlyWhen | apps/web/src/records.js:258-274 | a failed change restores key and salt; every live record says the same under the old key if and only if the failing update did not arrive and every rollback update did, and revisions have then grown by exactly 0 or 2 |
| Rekey.WrongPasswordChangesNothing | apps/web/src/records.js:220-229 | with a wrong current password neither store nor session changes |
| Rekey.Session.ChangeMasterPassword | apps/web/src/records.js:220-283 | the procedure with its two loops leaves the specified rows, key and salt for every combination of request fates |
| Rekey.Session.ResealAll | apps/web/src/records.js:250-257 | the update loop stops at the first update that does not report success |
| Rekey.Session.TakeBack | apps/web/src/records.js:258-271 | the rollback loop tries every update that succeeded, whatever becomes of its requests |
| Rekey.Session.TakeInventory | apps/web/src/records.js:231-243 | the inventory loop yields the specified items or fails where a record does not open |
| RustLiteral.CompiledIffShared | tools/codegen/backend/generate_backend_projection.py:583-588 | a registry string reaches the compiled program unchanged if and only if it is printable ASCII apart from line feed, carriage return and tab, and is never changed into another |
| ConfigRegistry.CheckSettings | tools/codegen/backend/generate_backend_projection.py:290-295 | the loop with its set of seen names accepts exactly 34 settings that are valid one by one and pairwise differently named |
| ConfigRegistry.CheckRegistry | tools/codegen/backend/generate_backend_projection.py:257-304 | the validator accepts exactly the registries with valid metadata, settings and integrity digest |
| ConfigSoundness.CompiledMirrors | tools/codegen/backend/generate_backend_projection.py:622-647 | a rendered setting carries the registry's own names, kind, mode and operational bounds |
| ConfigSoundness.TextChecksAgree | packages/config/src/value.rs:152-170 | the generator's check of a text and the runtime's agree on every string |
| ConfigSoundness.CompiledSpecIsValid | packages/config/src/resolved.rs:121-131 | a setting that is accepted and rendered passes the runtime's checks of it |
| ConfigSoundness.AcceptedProjectionIsValid | packages/config/src/resolved.rs:107-134 | an accepted registry that is rendered passes the runtime's check of the whole projection |
| ConfigSoundness.DefaultConverts | packages/config/src/value.rs:95-121 | a default converts if and only if it is no negative duration or size, and is then the registry's own |
| ConfigSoundness.ProjectionIsNeverBlamed | packages/config/src/value.rs:123-197 | for a rendered setting the runtime never reports the projection as invalid, whatever value it is given |
| ConfigSoundness.LoadBlamesProjectionExactlyWhen | packages/config/src/resolved.rs:68-99 | for layers of the right owner and version a load reports an invalid projection if and only if the accepted registry has a negative duration or size as a default |
| ConfigSoundness.NegativeDurationIsAccepted | tools/codegen/backend/generate_backend_projection.py:442-512 | every accepted duration setting stays accepted when given a bound range and a default below zero |
| ConfigSoundness.AcceptedIsSafe | tools/codegen/backend/generate_backend_projection.py:412-439 | every value the runtime accepts for a setting lies inside the registry's safety bounds |
| ConfigSoundness.LoadedIsSafe | packages/config/src/resolved.rs:68-99 | whatever a load yields, from any layer, lies inside the safety bounds of its setting |
| ConfigRuntime.MountedPathStaysBelow | packages/config/src/value.rs:221-234 | a path is valid if and only if it is the prefix followed by one or more plain components, none empty, "." or ".." |
| ConfigRuntime.LayerMeans | packages/config/src/resolved.rs:137-161 | a layer is accepted if and only if no name repeats and each entry is valid on its own; its entries then override and nothing else changes |
| ConfigRuntime.OrderDoesNotMatter | packages/config/src/resolved.rs:137-161 | the order of a layer's entries decides neither acceptance nor result |
| ConfigRuntime.CommandBeforeFileBeforeDefault | packages/config/src/resolved.rs:68-99 | a load gives each setting its command value, else its file value, else its default, and leaves no required one out |
| ConfigRuntime.SecretsComeFromTheFile | packages/config/src/resolved.rs:154-156 | a secret reference in the result is an entry of the owner file |
| ConfigRuntime.LoadedIsValid | packages/config/src/resolved.rs:137-161 | every loaded value was accepted by a specification of its setting |
| ConfigRuntime.CheckProjection | packages/config/src/resolved.rs:107-134 | the loop with its set of names accepts exactly the projections with valid metadata and 34 distinct, consistent settings |
| ConfigRuntime.ApplyEntries | packages/config/src/resolved.rs:137-161 | the loop over a layer gives the specified values or the first entry's error |
| ConfigRuntime.TakeDefaults | packages/config/src/resolved.rs:84-89 | the loop over specifications collects their defaults or reports the first that fails |
| ConfigRuntime.LoadConfig | packages/config/src/resolved.rs:68-99 | loading performs the checks in the order of the code, with the error of the first that fails |
| ConfigRuntime.ConfigLayer.Replace | packages/config/src/resolved.rs:53-59 | the first entry of that name is changed in place, or a new one is appended |
| RateLimiting.RateLimiter.Allow | services/api/src/lib.rs:1179-1194 | one call updates the key's window and answers as specified, and a limit of zero allows everything |
| RateLimiting.WindowsHold | services/api/src/lib.rs:1179-1194 | whatever the clock does, a key's window counts its requests of the minute it is in as long as it has not returned to that minute, and any other minute it asked in is one it has left |
| RateLimiting.ExactlyTheLimit | services/api/src/lib.rs:1164-1195 | in every minute to which it does not return, a key is allowed exactly the lesser of its requests and the limit |
| RateLimiting.AnyWindowIsBounded | services/api/src/lib.rs:1164-1195 | in any w consecutive seconds a key is allowed at most limit * (1 + (w + 58) / 60) requests, if it returns to none of the minutes they touch |
| RateLimiting.OtherKeysDoNotMatter | services/api/src/lib.rs:1188-1194 | an answer depends on the earlier requests of its own key alone, with any clock |
| RateLimiting.ReturningIsAllowedTwice | services/api/src/lib.rs:1189-1191 | a key that comes back to a minute it left is allowed at least two requests there under a limit of one |
| RateLimiting.LimitHoldsExactlyWhen | services/api/src/lib.rs:1179-1194 | a key is held to every limit at once in a minute if and only if it does not leave that minute and come back to it |
| RateLimiting.EachStayHasTheLimit | services/api/src/lib.rs:1179-1194 | with any clock and for each limit, a key is allowed in a minute exactly the first requests up to the limit of each of its stays there |
| RateLimiting.ReturnsAreStays | services/api/src/lib.rs:1189-1191 | a key has come back to a minute exactly when it has stayed there more than once |
| AtomicFile.TempPathsDiffer | apps/desktop/src-tauri/src/atomic_file.rs:36-43 | temporary names with different numbers differ, whatever their targets |
| AtomicFile.FileSystem.WriteFile | apps/desktop/src-tauri/src/atomic_file.rs:52-64 | a write succeeds exactly when nothing fails, replaces the target exactly when the rename happens, and leaves no temporary file |
| AtomicFile.FileSystem.WriteViaTemp | apps/desktop/src-tauri/src/atomic_file.rs:66-93 | each failure point leaves the target old before the rename and new after it |
| AtomicFile.NextKeeps | apps/desktop/src-tauri/src/atomic_file.rs:52-93 | every step of every concurrent writer, failures and crashes included, keeps the invariant of files and writers, when no target is a temporary name these writers can take |
| AtomicFile.RunKeepsNames | apps/desktop/src-tauri/src/atomic_file.rs:36-43 | in every run, whatever the targets, the names taken are distinct, numbered below the counter, and no more than the writers that have begun |
| AtomicFile.LastReplacementWins | apps/desktop/src-tauri/src/atomic_file.rs:52-93 | every path but the writers' own temporary files holds the contents of the last writer to rename over it, or its initial bytes |
| AtomicFile.TargetIsOldOrComplete | apps/desktop/src-tauri/src/atomic_file.rs:52-93 | at any moment of any run a target holds its initial bytes or one writer's complete contents |
| AtomicFile.TemporaryNamesDiffer | apps/desktop/src-tauri/src/atomic_file.rs:36-43 | in every run, whatever the targets, no two writers have the same temporary file |
| AtomicFile.NoTemporaryRemains | apps/desktop/src-tauri/src/atomic_file.rs:57-63 | when all writers have finished without a crash or a failed removal, no temporary file remains and the files are the initial ones with the replacements made |
| AtomicFile.SuccessIsCommitted | apps/desktop/src-tauri/src/atomic_file.rs:86-92 | in every run, whatever the targets, a writer that reports success has replaced its target |
| AtomicFile.TempNamedTargetIsExposed | apps/desktop/src-tauri/src/atomic_file.rs:36-43 | whichever target has the name of a temporary file its writers can take, some run leaves it empty before any writer has replaced anything |
| AtomicFile.AtomicExactlyWhen | apps/desktop/src-tauri/src/atomic_file.rs:36-93 | for every starting point, run and moment every target is old or complete if and only if no target has the name of a temporary file these writers can take |
| Json.QuotedReadsBackIffPlain | services/backup/src/main.rs:71-78 | a text printed between quotes as it is reads back as itself if and only if it holds no quote, backslash or control character |
| Json.NumberIsRead | services/backup/src/main.rs:72-77 | a printed integer is read back as one number of exactly those digits |
| BackupRestore.ExportSnapshot | services/backup/src/main.rs:52-83 | the printing loop writes exactly the specified text and counts the rows |
| BackupRestore.SnapshotParses | services/backup/src/main.rs:52-83 | the printed text is one JSON array of exactly the rows' objects |
| BackupRestore.SnapshotReadsBack | services/restore/src/main.rs:186-236 | for every list of rows with plain text fields the restore reads exactly the rows that were printed |
| BackupRestore.QuoteBreaksBackup | services/backup/src/main.rs:71-78 | where the first thing in all the text fields that is not plain is a quote, and white space aside neither a comma nor a closing brace follows it, the whole snapshot is no JSON |
| BackupRestore.Database.ImportSnapshot | services/restore/src/main.rs:186-268 | the import loop inserts every row in one transaction, or leaves the table as it was with the first row's error |
| BackupRestore.ImportOnlyAdds | services/restore/src/main.rs:238-247 | import never alters an existing row and adds exactly the first row of each new key |
| BackupRestore.ImportIsIdempotent | services/restore/src/main.rs:238-247 | a second import changes nothing |
| BackupRestore.ImportRecreates | services/restore/src/main.rs:186-268 | the rows of a table, in any order, imported into an empty one recreate it |
| BackupRestore.BackupRestores | services/restore/src/main.rs:186-268 | a backup of plain rows restores the table exactly, and changes nothing over the table it was taken from |
| JsonStrings.ParsedStrings | services/restore/src/main.rs:186-188 | the strings of a text that parses, found by its quotes alone, are exactly the strings of its value |
| BackupExactness.SnapshotStrings | services/backup/src/main.rs:71-78 | every string found in a printed snapshot needs no escape, or a longer field of some row needs one too |
| BackupExactness.SnapshotReadsBackExactlyWhen | services/restore/src/main.rs:186-236 | a printed snapshot of rows in range reads back as those rows if and only if no text field of any row holds a quote, a backslash or a control character |
| BackupExactness.BackupRestoresExactlyWhen | services/restore/src/main.rs:186-268 | a backup restored into an empty table recreates the table if and only if every row is plain in that sense, and a restore over the table then changes nothing |
| SnapshotVerify.HexReadsBack | services/restore/src/main.rs:79-87 | the lower-case form of any bytes decodes to them |
| SnapshotVerify.LowerHexIsCanonical | services/restore/src/main.rs:79-87 | lower-case texts decode in one way only |
| SnapshotVerify.DecodesExactlyPairs | services/restore/src/main.rs:79-87 | the decoder accepts exactly the texts of even length made of pairs whose second character is a digit of either case and whose first is one or a plus sign |
| SnapshotVerify.CanonicalExactlyLowerHex | services/restore/src/main.rs:79-87 | an accepted text is the form its own bytes are written in if and only if it is in lower case |
| SnapshotVerify.VerifySnapshot | services/restore/src/main.rs:92-184 | the loop with its set of keys reports the first error of the first bad record, or the numbers of records and tombstones |
| SnapshotVerify.BackupVerifies | services/restore/src/main.rs:92-184 | a printed snapshot passes if and only if every row is valid and no key repeats |
| SnapshotVerify.VerifiedIsImportedWhole | services/restore/src/main.rs:186-200 | a snapshot that passes is imported if and only if no revision exceeds 2^63 - 1, and then with every record's own key |
| SnapshotVerify.DistinctRowsAllPresent | services/restore/src/main.rs:238-247 | rows with distinct keys imported into an empty table are all there |

## Left out

- BackupRestore.QuoteBreaksBackup: whether the text is JSON at all is not decided where the first character that is not plain is a backslash, a control character, or a quote before a comma or a brace; which rows fail to read back is exact in `BackupExactness.SnapshotReadsBackExactlyWhen`.
- SyncClient.FlushesLoseNothingExactlyWhen: no request arrives after its client gave it up; late arrivals are steps of `SyncProtocol`, and `SyncOutcomes.LostExactlyWhen` covers them.
- Rekey.FailureIsConsistentExactlyWhen: assumes that the session key is the one derived from the current password, that no other client writes, and that every record belongs to this vault.
- SyncClient.LossesDoNotMatter: no other client writes between the flushes; with other writers the interleaved runs of `SyncProtocol` apply.
- SyncProtocol.RevisionsAreConsecutive: purging, batch writes and the server-side vault rekey are no steps of the protocol, and revisions do not wrap at 2^64.
- Curve arithmetic: the Edwards and Montgomery formulas as group laws, point decoding by square root, and the order of the base points are hypotheses.
- The strength of SHA-256, SHA-512, Argon2id and the authenticated ciphers; XChaCha20, HPKE, P-256 and the fixture corpora.
- Python's recursion limit in the CBOR decoder, and lone surrogates in Python strings.
- Memory exhaustion, metadata parsing, directory checks and file system errors of the two C programs; their case tables are parameters, and tag files count up to their first NUL as `strcmp` does.
- The listing after a change of master password: records keep the old salt as their vault identifier (`apps/web/src/records.js:360-365`) while the listing filters on the new one, so nothing is claimed of it.
- The HTTP wire between `records.js` and the API, authentication, vault scopes, record shape checks of the API, and browser storage that fails.
- The JSON form of a record's plaintext: an entry's contents are one value that sealing and opening carry through.
- Error messages of the generator, its capability section, file handling and write step; the integrity digest is a parameter.
- Strings of the configuration that are no valid Unicode, and the generated file beyond its string literals and numbers.
- Ciphertexts that are no ASCII in `decode_hex`, whose slicing by bytes may stop the restore program instead of reporting an error.
- The limiter's mutex and counter overflow, and the choice of the key from request headers.
- Writers in other processes, reuse of temporary numbers after 2^64 writes, and file names that are no valid Unicode.
- The recursion limit and the range of floating-point numbers of the JSON parser; PostgreSQL beyond a table with transactions, its text restrictions included.
- `services/worker`, `services/migrator`, role and bootstrap plans, the error catalogue, the desktop shell and the user interface, whose logic is short case analyses.
