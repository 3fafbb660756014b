# Audit log: store, tree, retention and delivery

A model of the audit pipeline whose records must come back unchanged after
sealing, rotation, crash and restart, with proofs that they do.

- **Bytes, Order, Crypto, Canonical, Ocsf, Signer, Checkpoint, Wal, Segments** are
  the formats: log frames, segment names, the canonical spelling of a JSON value,
  the hash input of a record, and the two signed encodings. SHA-256, CRC-32,
  Ed25519, the JSON decoder and the JSON spelling of a record are fixed but
  unknown functions. Nothing is assumed of SHA-256: where a result rests on
  collision resistance, it gives the two colliding inputs.
- **Rfc6962, MerkleNodes, MerkleTree** are the tree. Rfc6962 is the recursive
  definition of sections 2.1, 2.1.1 and 2.1.2 of RFC 6962 with soundness and
  completeness of both proofs. MerkleNodes describes the compact range as a
  binary counter of perfect subtrees, and the nodes each proof needs. MerkleTree
  is the accumulator with its sparse node map and its restart from a frontier.
- **Chain, Replay, Disk, Store, Verify** are the committed log: linking,
  reading it back from two tiers of files, admission, both recoveries, and the
  offline verifier.
- **Rotation, RetentionPolicy, Retention, Inventory, Ledger, Residence, Manager**
  are retention: copy-verify-rename under faults, the layout of the two tiers,
  what the checkpoint says of it and the calls that keep it so, how long a record
  stays hot, and the manager's rounds.
- **Boot, Lifetime, Schedule** are the restart, after any crash, the daemon over
  its whole life, and the hot ceiling over a run whose rounds come in time.
- **Fairness, Fanout, EdgeTail** are the token buckets, the delivery pump, and
  the log tailer composed with the server's answers and the store.

Filesystem faults and crashes are one thing here: a script says what each call
does, and dying at a call is a script that fails from that call on, since what
is on disk afterwards is the same. A write that fails leaves any part of its
bytes; a write to a rotation temporary may also be garbled and report success.
Theorems over "any script" therefore hold at every crash point: at any byte of an
admission's frame, and at any call of a seal, a copy or a checkpoint write.

There are three states a run of the daemon is not followed out of:

- Limbo: a segment already removed from hot and not yet recorded as rotated. Boot
  then refuses the log or reads less of it. `Boot.LimboExactly` says when an attempt
  can reach it, `Retention.BootsExactlyOutsideLimbo` that nothing else keeps boot
  from reading the whole log.
- A log and a store that disagree: a torn frame at the end of a log that is open
  for appending, or a record in the file that the store refused. A restart reads
  the first and repairs the second; an admission spoils both
  (`Wal.AppendPastTorn`, `Boot.RefusedThenCommitted`).
- Books out of order: a seal the checkpoint lacks, or anchors rolled back in part.
  A round then seals over a segment (`Retention.SealKeepsLogExactly`) or saves
  anchors boot refuses (`Boot.RolledBackBoots`).

`Lifetime.LiveThrough` takes any admissions, rounds and restarts over any faults and
stops in no other state, unless it can show a garbled write and a log file with one
SHA-256 digest.

Where the code does not do what is written beside it, the model follows the code:

- `internal/wal/wal.go:130-132` promises that a sync fault leaves no refused record
  visible; a record whose flush succeeded is read back whole. The retry that
  `internal/store/store.go:153-154` allows for, or any other record of its source,
  then makes boot refuse the log (`Boot.RefusedThenCommitted`,
  `Boot.AdmitThenRestart`).
- `internal/wal/wal.go:177-181` drops a torn frame when reading, but `Open`
  (lines 56-64) appends after it; what is appended is read back only if it repeats
  the torn bytes, and otherwise lost or the end of the log
  (`Wal.AppendPastTorn`, `Wal.AppendReadsBack`, `Wal.AppendPastTornLost`).
- `internal/retention/checkpoint.go:85-88` promises that distinct checkpoints
  never share a signed form; durations are truncated to milliseconds, so they
  can (`Checkpoint.SignedFormShared`, `Checkpoint.SameBytesExactly`).
- `internal/retention/manager.go:255-256` speaks of rolling the promotion back;
  only the rotation time is, not the anchors (`Inventory.RolledBackIsNot`,
  `Boot.RolledBackBoots`).
- `internal/retention/manager.go:180-182` says that a seal missing from the
  checkpoint loses nothing and is retried on the next tick; it is not retried.
  After a restart the inventory is short (`Boot.SealThenRestart`), a seal is due with
  or without a new record (`Boot.LagIsDue`), it takes a used name
  (`Boot.NextNameFree`), and the records under that name are lost
  (`Boot.SealsOver`, `Retention.SealKeepsLogExactly`).
- `internal/retention/manager.go:265-266` says that a later tick finishes a removal
  that failed. None does: a hot copy goes in the round that rotates its segment, if
  its removal call works, and in no other (`Manager.Manager.Tick`), restarts
  included (`Lifetime.LiveThrough`); and it never counts as a breach
  (`Residence.LeftoverSilent`).
- `internal/retention/rotate.go:185-200` removes an identical hot copy before the
  manager rewrites the checkpoint, so the ordering promised at
  `internal/retention/manager.go:247-249` holds for attempts that begin without a
  cold copy, and for no others.
- `internal/edgetail/tail.go:103-107` retries a line until it is delivered. A replay of
  a record that has left the hot tier is refused for ever, so a tailer whose cursor is
  behind one never gets past it; every other run without faults catches up
  (`EdgeTail.Tailer.RunOnce`).
- `internal/edgetail/tail.go:24-27` keeps the sequence across a rotation of the edge
  log so that no record is refused; with a publish in flight at the rotation the
  next line takes a sequence already committed, is acknowledged while that record
  is hot, and is never committed (`EdgeTail.ReusedSequence`,
  `EdgeTail.Tailer.Publish`, `EdgeTail.Tailer.FileRotates`).

## Model

| member | source | states |
|---|---|---|
| Rfc6962.WholeRootIsMTH | internal/merkletree/merkletree.go:229-237 | the range-by-range root used in every proof is the recursive tree hash of section 2.1 of RFC 6962 |
| Rfc6962.RootBinds | internal/merkletree/merkletree.go:141-155 | two equally long leaf lists with the same root are equal, or the two inputs computed from them are a SHA-256 collision |
| Rfc6962.InclusionComplete | internal/merkletree/merkletree.go:215-217 | for every tree and index the section 2.1.1 path verifies against the root |
| Rfc6962.InclusionSound | internal/merkletree/merkletree.go:215-217 | any path accepted for an index proves the leaf that is there, or exhibits a collision |
| Rfc6962.ConsistencyComplete | internal/merkletree/merkletree.go:221-223 | for every m <= n the section 2.1.2 proof, empty for m = 0, verifies between the two roots |
| Rfc6962.ConsistencySound | internal/merkletree/merkletree.go:221-223 | any accepted consistency proof, however it was made, forces the older leaves to be a prefix of the newer ones, or exhibits a collision; from size 0 only the empty proof is accepted |
| MerkleNodes.CompactIsTops | internal/merkletree/merkletree.go:57-64 | the compact range holds one hash per set bit of the size, each the root of its perfect subtree |
| MerkleNodes.TopsTile | internal/merkletree/merkletree.go:91-99 | those subtrees tile the leaves from the left without gaps or overlaps |
| MerkleNodes.CompactLocal | internal/merkletree/merkletree.go:53-64 | the frontier depends on the leaves it covers and on no later ones |
| MerkleNodes.PathNodesRehash | internal/merkletree/merkletree.go:161-178 | fetching and rehashing the nodes named for an inclusion proof gives exactly the section 2.1.1 path, also where a path element is not one stored node |
| MerkleNodes.SubproofNodesRehash | internal/merkletree/merkletree.go:183-197 | the same for consistency proofs and section 2.1.2 |
| MerkleNodes.PathNodesHeld | internal/merkletree/merkletree.go:87-99 | every node an inclusion proof of an index at or past the frontier needs is a frontier root or was completed after it |
| MerkleNodes.SubproofNodesHeld | internal/merkletree/merkletree.go:183-197 | and every node a consistency proof from a size at or past the frontier needs |
| MerkleTree.LargestAlignedSubtree | internal/merkletree/merkletree.go:105-113 | the level found is the largest aligned perfect subtree that fits: the next frontier node |
| MerkleTree.SeedNodes | internal/merkletree/merkletree.go:91-99 | restart re-indexes the frontier hashes to exactly the nodes they are the roots of |
| MerkleTree.Accumulator.AppendLeaf | internal/merkletree/merkletree.go:119-133 | appending keeps the compact range and the sparse node map equal to those of the longer leaf list, recording every subtree it completes |
| MerkleTree.Accumulator.Frontier | internal/merkletree/merkletree.go:57-64 | size and frontier hashes of the leaves appended |
| MerkleTree.Accumulator.Head | internal/merkletree/merkletree.go:141-155 | the folded root is the recursive tree hash of all leaves, and the right-border nodes it writes spoil no stored perfect node |
| MerkleTree.NewFromFrontier | internal/merkletree/merkletree.go:73-101 | accepted exactly when the hash count fits the size; from the frontier of a prefix it continues the same tree |
| MerkleTree.Accumulator.InclusionProof | internal/merkletree/merkletree.go:161-178 | served for every index from the frontier on, after any appends, and equal to the section 2.1.1 path; refused past the end |
| MerkleTree.Accumulator.ConsistencyProof | internal/merkletree/merkletree.go:183-197 | equal to the section 2.1.2 proof for every older size at or past the frontier, and empty from size 0 |
| MerkleTree.Resolve | internal/merkletree/merkletree.go:199-210 | refused exactly when a needed node is absent; otherwise the stored hashes, siblings folded in order |
| MerkleTree.GetRootHash | internal/merkletree/merkletree.go:141-155 | folding the compact range from the right gives the tree hash, for every size |
| MerkleTree.RestartedRoot | internal/merkletree/merkletree.go:66-101 | frontier continuity: for every leaf list and every split, a restart from the frontier of the first part given the rest reaches the root and size of the whole |
| MerkleTree.RootFromLeaves | internal/merkletree/merkletree.go:229-237 | the from-scratch root is the recursive tree hash |
| Ocsf.EventRoundTrip | internal/ocsf/envelope.go:150-165 | a decoder recovers every hashed field from the canonical event bytes, the payload in its canonical spelling |
| Ocsf.TakeEventInverts | internal/ocsf/canonical.go:15-30 | and whatever follows them is left untouched |
| Canonical.CanonicalBinds | internal/ocsf/canonical.go:41-51 | two payloads have one canonical form exactly when they decode to one JSON value; one that does not decode stands for itself |
| Canonical.SpellingBinds | internal/ocsf/canonical.go:56-96 | the sorted-key spellings of JSON values are prefix-free, and each belongs to one value only |
| Canonical.StringBinds | internal/ocsf/canonical.go:70-74 | so are quoted strings, through every escape the encoder makes |
| Canonical.Spelled | internal/ocsf/canonical.go:70-74 | a byte that needs no escape stands for itself, and the five controls with a letter, the quote and the backslash take two bytes |
| Canonical.SpelledInSix | internal/ocsf/canonical.go:70-74 | the other controls, the three bytes HTML gives a meaning and the two line separators take six |
| Order.SortedKeys | internal/ocsf/canonical.go:58-64 | the keys of an object, each once, in byte order |
| Chain.VerifyChainFrom | internal/chain/verifier.go:39-57 | accepts exactly the record lists that carry the source, link hash to hash from the anchor and strictly increase in sequence |
| Chain.VerifyChain | internal/chain/verifier.go:27-29 | the same from genesis |
| Chain.VerifyChainAnchored | internal/chain/verifier.go:35-37 | the same from an anchored tip |
| Chain.LinkedBySource | internal/store/verify.go:26-42 | walking each source separately decides the same as checking every link in global commit order |
| Chain.LinkedSplits | internal/store/recover_anchored.go:98-119 | a log verifies from genesis if and only if a prefix does and the rest verifies from the tips that prefix ends on |
| Chain.OneAfterOther | internal/chain/verifier.go:39-57 | of two records authored after one log, the second links behind the first exactly if their sources differ or the first is its predecessor |
| Chain.VerifyChainsFromRaw | internal/store/verify.go:26-42 | accepts exactly the logs every link of which verifies from genesis, and lists the sources |
| Chain.SourcesInOrder | internal/store/verify.go:26-42 | each source once, in the order of their first records |
| Chain.VerifyChainsAnchored | internal/store/recover_anchored.go:98-119 | accepts exactly the logs that continue the anchored tips |
| Chain.SequencesIncrease | internal/chain/verifier.go:39-57 | in a verified log the sequences of each source strictly increase |
| Chain.ChainInputInjective | internal/chain/chain.go:45-54 | the hash input of a record determines predecessor, sequence and event bytes |
| Chain.LinkBinds | internal/chain/chain.go:73-79 | two verified records with one chain hash agree on every hashed field and on the JSON value of their payload, or their hash inputs collide |
| Wal.ReadAll | internal/wal/wal.go:182-222 | the reading loop computes the frame grammar: whole frames, a torn tail dropped, a bad length or checksum refused |
| Wal.RoundTrip | internal/wal/wal.go:133-158 | framed payloads read back exactly |
| Wal.TornTail | internal/wal/wal.go:198-213 | a log cut at any byte reads as exactly the frames that lie wholly before the cut, never as an error |
| Wal.WholeFramesIsMost | internal/wal/wal.go:198-213 | and those are as many frames as fit |
| Wal.BadCrcRefused | internal/wal/wal.go:214-222 | a whole frame whose checksum is wrong makes the log unreadable, wherever it stands |
| Wal.OversizeRefused | internal/wal/wal.go:206-208 | a length beyond the limit makes the log unreadable, wherever it stands and whatever follows |
| Wal.ReaderSound | internal/wal/wal.go:182-222 | the reader accepts exactly the framings of payloads followed by less than a frame, and returns those payloads: nothing is invented and nothing hidden |
| Wal.AppendPastTorn | internal/wal/wal.go:54-64 | what a frame appended to a log cut inside a frame reads as: nothing, or the whole log is refused, or bytes nobody wrote under a matching checksum |
| Wal.AppendPastTornLost | internal/wal/wal.go:54-64 | one such log, which loses the frame that was appended |
| Wal.AppendReadsBack | internal/wal/wal.go:182-222 | a frame appended after other bytes is read back if and only if it repeats them |
| Disk.WAL.Append | internal/wal/wal.go:133-158 | succeeds exactly if flush and sync do, and then adds one frame at the end of the active file; a failed flush leaves any proper part of the frame there and the log dead, a failed sync leaves all of it |
| Disk.WAL.SealTo | internal/wal/wal.go:78-113 | six calls: up to the rename a failure moves nothing; after it the file has moved, no active file is open and the log is dead; with none, a fresh active file takes its place |
| Disk.SealSplitsFrames | internal/wal/wal.go:78-113 | sealed at any point, sealed contents followed by active contents are the original frames |
| Segments.NameRoundTrip | internal/wal/segment.go:24-30 | a segment name matches the pattern and parses back to its index, also beyond six digits |
| Segments.NamesExactly | internal/wal/segment.go:18-24 | a segment name is the prefix, any run of digits, and the suffix |
| Segments.NameWidth | internal/wal/segment.go:26-30 | below a million every name has six digits |
| Segments.ListSegments | internal/wal/segment.go:36-71 | lists every segment name in strictly increasing index order, and refuses exactly when an index overflows or two names share one |
| Segments.OrderedUnique | internal/wal/segment.go:36-71 | that order leaves one possible listing |
| Replay.ReadRawRecords | internal/store/replay.go:22-36 | decodes a file record by record; one undecodable frame refuses it |
| Replay.FileRoundTrip | internal/store/replay.go:22-36 | a written log file reads back as its records |
| Replay.TornFileReads | internal/store/replay.go:22-36 | a file cut at any byte reads as the records whose frames lie wholly before the cut |
| Replay.LogFileReads | internal/store/replay.go:22-36 | a log file followed by any part of one more frame reads as its records |
| Replay.ReadHotExcluding | internal/store/replay.go:52-76 | sealed segments in index order less the excluded, then the active file |
| Replay.ReadUnion | internal/store/replay.go:83-115 | cold segments, then hot without those cold holds; refused if a leftover differs |
| Replay.HotUnionIs | internal/store/replay.go:52-76 | with the first k segments excluded, reads the committed records from segment k on, in commit order, with or without an active file and whatever torn frame ends it; no log at all is told apart |
| Replay.UnionIs | internal/store/replay.go:83-115 | with k segments cold and leftovers identical, reads every committed record once in commit order |
| Store.Store.Admit | internal/store/store.go:110-170 | the answer, the log, the file and the ingest floor are the ones the committed log and the fate of the append determine; maps, dedupe set, records, leaves and node map stay those of the log |
| Store.AdmittedExactly | internal/store/store.go:114-121 | a record is admitted if and only if its sequence is past every one of its source in the log, whatever it skips, and committed if the append is durable; a duplicate is exactly the key of a hot record |
| Store.CommittedCarries | internal/store/store.go:123-150 | what is committed: every field of the envelope, the name the channel gave, the stamp, and the hash of the last record of its source |
| Store.AdmitLinks | internal/store/store.go:123-137 | every admission extends a log verified from genesis to one that verifies from genesis |
| Store.SecondLinks | internal/store/store.go:123-137 | two records authored after one log chain behind each other exactly if they are of different sources, unless a hash is its own input |
| Store.AdmitStamps | internal/store/store.go:309-316 | ingest stamps never decrease in commit order, also when the clock goes back |
| Store.KnownKeyRefused | internal/store/store.go:114-121 | a (source, sequence) in the log is never committed again: duplicate while hot, regressed once cold |
| Store.Store.SealActive | internal/store/store.go:190-207 | the snapshot is the tips, size and frontier of exactly the log sealed so far; without one the file may still have moved, and then the log is dead |
| Store.Store.Close | internal/store/recover.go:66-70 | nothing is admitted afterwards and nothing committed changes |
| Store.Store.RecordsFrom | internal/store/store.go:213-226 | the committed records from a global index on, never a cold one |
| Store.Store.GlobalCount | internal/store/store.go:239-243 | the number of committed records, cold ones included |
| Store.Store.LastSequence | internal/store/store.go:249-253 | a source's last committed sequence, across the rotated prefix |
| Store.Store.Head | internal/store/store.go:256-262 | the tree hash and size of the whole committed log |
| Store.Store.InclusionProof | internal/store/store.go:270-285 | served exactly for hot global indexes, and it verifies against the current head |
| Store.Recover | internal/store/recover.go:29-64 | succeeds exactly on a readable hot log that verifies from genesis; the store is that of that log, with its highest stamp as floor |
| Store.RecoverAnchored | internal/store/recover_anchored.go:49-93 | from a genuine anchor and the hot files alone: the store that committed the cold prefix and the hot records and never restarted; refused exactly when the files are unreadable, do not continue the tips, or the frontier does not fit |
| Store.AnswersAgree | internal/store/store.go:110-121 | two stores of one log with different rotated prefixes answer alike, except that a replay hot in one and cold in the other is a duplicate here and a regression there |
| Store.RunsAgree | internal/store/store.go:110-170 | over any later run of admissions both commit the same records and answer alike up to that |
| Store.RunKeepsLog | internal/store/store.go:110-170 | over any run nothing committed is lost or changed and every link still verifies from genesis |
| Signer.HeadRoundTrip | internal/signer/signer.go:40-55 | a decoder recovers date, size and head from the signed bytes |
| Signer.SignedHeadVerifies | internal/signer/signer.go:109-132 | a head the daemon signed verifies under its pinned key |
| Signer.HeadIsPinned | internal/signer/signer.go:117-132 | a head accepted under a signature the daemon gave an envelope carries that envelope, or the one signature verifies over two byte strings |
| Checkpoint.SignBytes | internal/retention/checkpoint.go:89-154 | the growing buffer, with its nested loops over segments, tips and hashes, ends as the canonical encoding |
| Checkpoint.CheckpointRoundTrip | internal/retention/checkpoint.go:89-154 | a decoder recovers the whole inventory, every anchor, and the policy to the millisecond |
| Checkpoint.SameBytesExactly | internal/retention/checkpoint.go:85-88 | two checkpoints share signed bytes if and only if they agree on everything but fractions of a millisecond |
| Checkpoint.SignedFormShared | internal/retention/checkpoint.go:85-88 | two distinct checkpoints do share a signed form: ceilings one nanosecond apart |
| Checkpoint.DomainsSeparate | internal/retention/checkpoint.go:22 | no checkpoint shares signed bytes with any head envelope |
| Checkpoint.WrittenLoads | internal/retention/checkpoint.go:203-224 | what was written loads back, under its own policy or any longer floor |
| Checkpoint.LoadsExactly | internal/retention/checkpoint.go:196-224 | a file is loaded exactly if its signature verifies over it under the pinned key and its floor is neither below seven years nor above the configured one; each refusal has its own answer |
| Checkpoint.LoadedIsPinned | internal/retention/checkpoint.go:203-224 | a file accepted under another checkpoint's signature says the same, or the signature verifies over two byte strings |
| Checkpoint.BootAnchorOf | internal/retention/checkpoint.go:243-266 | tips, size, frontier, the rotated names, and the highest stamp among rotated segments |
| Verify.VerifyStore | internal/store/verify.go:60-103 | accepts exactly the logs whose links verify from genesis and whose size and tree hash are those of a head that the pinned key signed, with the sample in range |
| Verify.VerifySample | internal/store/verify.go:82-100 | the inclusion proof built for a sampled record always verifies |
| Verify.TamperEvident | internal/store/verify.go:60-103 | two lists accepted under one head and size agree record by record on every hashed field and on the JSON value of the payload, or a concrete collision is given |
| Verify.SignatureBinds | internal/store/verify.go:60-103 | what is accepted under a signature the daemon gave its log is that log, record by record, whoever presents head and records; or a hash collision or a second message under that signature is in hand |
| Verify.OwnHeadAccepted | cmd/ocu-audit/main.go:268-280 | and the log it signed is accepted |
| Verify.TruncationEvident | internal/chain/verifier.go:27-29 | chain checking alone accepts every prefix; no proper prefix is accepted under the same head |
| Verify.VerifyGrowth | cmd/ocu-audit-verify/main.go:131-156 | for every earlier size, 0 included, the self-built consistency proof verifies, and for no other |
| Rotation.ResumeSegment | internal/retention/rotate.go:164-204 | a crashed attempt is reconciled: the temporaries go, one call each; then nothing, or the removal of a hot copy identical to the cold one; what is removed and what is answered are decided by the files and the script |
| Rotation.WriteTemp | internal/retention/rotate.go:52-67 | a new temporary with the data, garbled bytes if the medium garbled them, or a torn file and an error |
| Rotation.RotateCopy | internal/retention/rotate.go:93-139 | whatever calls fail, at most one of: nothing, one cold copy appearing complete, one identical hot copy removed; the answer and the tiers are decided by the files, the number of temporaries and the script |
| Rotation.CopiedExactly | internal/retention/rotate.go:109-139 | a hot segment alone: a cold copy appears exactly if the frames hold, what the medium stored has their digest and no call up to the rename fails; done exactly if the sync works too |
| Rotation.ResumedExactly | internal/retention/rotate.go:185-201 | two copies: divergence is reported exactly if they differ and can be read; the hot one goes exactly if they are identical and the removal works |
| Rotation.AttemptUnhindered | internal/retention/rotate.go:93-139 | when nothing fails an attempt is refused only for a divergence or for bad frames |
| Rotation.FinishRotation | internal/retention/rotate.go:145-157 | the hot copy goes exactly if its removal call works; reported done exactly if it was gone or the directory sync works too |
| Rotation.Rotate | internal/retention/rotate.go:82-87 | one copy attempt, then one removal attempt, whatever fails; when done, the segment is no longer hot |
| Rotation.NeverNeither | internal/retention/rotate.go:93-204 | over any run of copies and removals, each ending or crashing anywhere, a segment stays whole in some tier, or its two copies were at some point a collision |
| Rotation.DivergentUntouched | internal/retention/rotate.go:185-193 | over any run of attempts two differing copies are never altered |
| RetentionPolicy.NewPolicy | internal/retention/policy.go:40-51 | refuses exactly the policies out of bounds, never clamps |
| RetentionPolicy.DueInOrder | internal/retention/policy.go:67-71 | an older record is due whenever a younger one is |
| RetentionPolicy.DueBeforeBreach | internal/retention/policy.go:67-79 | a segment past the ceiling was due a whole seal interval earlier |
| RetentionPolicy.AgeExact | internal/retention/policy.go:67-79 | the computed age is the elapsed time if and only if that is within 292 years either way |
| RetentionPolicy.DueExactly | internal/retention/policy.go:67-79 | in elapsed time: due exactly when the ceiling less a seal interval has passed, breached exactly when the ceiling has |
| RetentionPolicy.DueByTheOldest | internal/retention/policy.go:63-71 | a segment whose youngest record is not of that age and which is due by its oldest |
| RetentionPolicy.MillisTruncates | internal/retention/policy.go:67-79 | durations become milliseconds by rounding toward zero |
| RetentionPolicy.AgeWraps | internal/retention/policy.go:67-71 | an input beyond that range: an overdue segment that reads as not due |
| Retention.UnionReadsAll | internal/store/replay.go:83-115 | wherever rotation stands, and between a seal's rename and its reopen, the offline reader gets every sealed and active record once in commit order |
| Retention.BootsExactlyOutsideLimbo | internal/store/recover_anchored.go:49-60 | what boot reads is the whole hot log if and only if the next segment to rotate is still hot |
| Retention.AttemptKeeps | internal/retention/rotate.go:93-139 | a copy attempt, crashing anywhere, keeps the layout of the two tiers; one that began without a cold copy never leaves the segment cold only |
| Retention.SealKeeps | internal/wal/wal.go:78-113 | a seal that got as far as its rename turns the active log into the next segment, whether or not a new active file was opened |
| Retention.SealKeepsLogExactly | internal/retention/manager.go:159-162 | a seal, of whatever the active log holds or of nothing, keeps the committed records readable if and only if its name is the next one; under the name of a segment that exists, the records of that segment are lost |
| Retention.AdmitKeeps | internal/wal/wal.go:133-158 | an admission makes the active log one record longer and disturbs no segment |
| Retention.TornKeeps | internal/wal/wal.go:133-158 | an admission cut short anywhere in its frame leaves the log the files hold as it was |
| Retention.OpenKeeps | internal/wal/wal.go:54-64 | opening the log, creating the active file if a seal left none, changes nothing that is read |
| Retention.PromoteKeeps | internal/retention/manager.go:247-253 | once a segment is cold it may be counted as rotated |
| Retention.FinishKeeps | internal/retention/manager.go:264-268 | removing the hot copy of a rotated segment disturbs nothing |
| Inventory.InventoryTiles | internal/retention/manager.go:212-224 | the inventory tiles the log: each segment starts where the last ended, counts match indexes, and the top anchors are the last rotated seal anchors |
| Inventory.EntryAdded | internal/retention/manager.go:178 | a seal adds its entry and changes no other |
| Inventory.PromotedConsistent | internal/retention/manager.go:250-253 | promotion extends the rotated prefix by one and moves the anchors to it |
| Inventory.RolledBackIsNot | internal/retention/manager.go:254-263 | after a failed checkpoint write the anchors in memory are not those of the rotated prefix |
| Inventory.RotatedIs | internal/retention/checkpoint.go:243-266 | the excluded names are those of the rotated prefix and the floor is the highest stamp in it |
| Inventory.AnchorGenuine | internal/retention/checkpoint.go:243-266 | the boot anchor is the exact state of a store that committed the rotated records and nothing else |
| Inventory.HasAnchorsIs | internal/retention/checkpoint.go:270-280 | a checkpoint has anchors exactly when a segment is rotated |
| Ledger.LastSealAndBoundary | internal/retention/manager.go:142-151 | the latest seal time and the first unsealed global index |
| Ledger.BoundaryIs | internal/retention/manager.go:142-151 | that boundary is the number of sealed records |
| Ledger.InventorySealed | internal/retention/manager.go:190-225 | count, digest and the exact lowest and highest stamps of the sealed bytes; refused exactly if a read fails or the segment is empty |
| Ledger.WriteCheckpoint | internal/retention/checkpoint.go:159-196 | seven calls: up to the rename the file is the old checkpoint, from it on the new one; success means that the directory sync worked too |
| Ledger.MoveHolds | internal/retention/manager.go:162-177 | after a seal that got as far as its rename, inventoried or not, the files are one segment longer and inventory and checkpoint file still describe the others |
| Ledger.AppendStays | internal/wal/wal.go:133-158 | an append, whatever becomes of it, makes the log in the files one record longer if its whole frame got in, and otherwise leaves it |
| Manager.Manager.MaybeSeal | internal/retention/manager.go:141-186 | seals exactly when the interval has passed and something is new, and ends as the fates of its calls say: refused, moved only, moved and not inventoried, or sealed; the log is kept in each; a seal that fails is reported once an episode |
| Manager.Manager.SealDueExactly | internal/retention/manager.go:152-158 | by the clock: a live log is sealed exactly when there is something to seal and a whole interval has passed |
| Manager.Manager.MoveActive | internal/store/store.go:190-207 | the active log becomes a segment exactly if the seal gets as far as its rename; a snapshot is then that of the log |
| Manager.Manager.SealNow | internal/retention/manager.go:162-185 | the four outcomes of a seal on a live log, and what memory, checkpoint file and tiers are after each |
| Manager.Manager.RotateNext | internal/retention/manager.go:231-271 | one segment: not due by the clock, or due by the clock and then copied and recorded or stopped; the checkpoint in memory is consistent if and only if no checkpoint write failed; rotated, its hot copy is left exactly if it was copied now and its removal call fails; no other file is touched; what is reported of it |
| Manager.Manager.RotateDue | internal/retention/manager.go:230-272 | in index order up to the first segment not due or not rotated; none is rotated before the ceiling less a seal interval has passed since its oldest record; begun without a cold copy, no crash leaves a segment where boot does not look; the hot copies of segments rotated here go exactly if their removal calls work, and those left by earlier rounds stay; each failure is reported, one to rotate once an episode |
| Manager.FailureOnce | internal/retention/manager.go:240-246 | however many rounds a segment fails to rotate in, it is reported once, and again only after it has rotated |
| Manager.SealFailureOnce | internal/retention/manager.go:162-177 | nor is a failed seal reported twice, until one succeeds |
| Manager.Manager.EmitBreaches | internal/retention/manager.go:276-291 | one record per unrotated segment past the ceiling and not yet reported |
| Residence.BreachOnce | internal/retention/manager.go:276-291 | exactly the segments past the ceiling and not reported since they last rotated are reported, so that one reported stays silent whatever else is new |
| Residence.BreachesDistinct | internal/retention/manager.go:276-291 | and each of them once |
| Residence.LeftoverSilent | internal/retention/manager.go:264-291 | a rotated segment whose hot copy was not removed is never reported as a breach |
| Residence.BreachByTheClock | internal/retention/manager.go:276-291 | a segment not rotated whose oldest record has outlived the ceiling is reported, unless it was |
| Manager.Manager.Tick | internal/retention/manager.go:133-137 | over any faults the log is kept and the checkpoint file matches the tiers; the books are in order afterwards exactly if no live seal went uninventoried and no rotation failed at its checkpoint; the hot copy of a segment rotated in the round is gone exactly if its removal call works, and one left by an earlier round stays; none is rotated early; the evidence of the round, under any faults, is that of its seal, its rotations and its new breaches; with no fault the log is live, the inventory complete, nothing due is left hot, everything rotated in the round is out of the hot directory, and no evidence is emitted |
| Manager.Manager.Admit | internal/store/store.go:110-170 | admissions between rounds keep tiers, inventory, anchors and monotone stamps; the store and its files part exactly when a sync fails after its flush |
| Residence.NoneDueLater | internal/retention/manager.go:236-238 | when the first hot segment is not due no later one is, so stopping there delays nothing |
| Residence.NotBreached | internal/retention/manager.go:276-291 | nor is any segment then past the ceiling |
| Residence.ResidenceBound | internal/retention/policy.go:67-79 | the step between two rounds: within d of a quiet one, with d within the seal interval and interval plus d within the ceiling, no record not counted as rotated is past the ceiling |
| Schedule.KeepCeiling | internal/retention/policy.go:63-79 | over any run of rounds at most d apart that do not fail, admissions and restarts: whenever it is looked at, no record in any file of the hot directory is past the ceiling, a sealed segment is in the hot directory if and only if at the last round its oldest record was younger than the ceiling less a seal interval, a record that is not left with such a segment, and no evidence has been emitted |
| Schedule.KeepFromFirstBoot | cmd/ocu-audit/main.go:110-140 | the same from empty directories on, with nothing assumed of the state |
| Schedule.HotFilesAreHot | internal/retention/manager.go:247-270 | with no leftovers, a record lies in a file of the hot directory only if it is not rotated |
| Schedule.LeavesByAge | internal/retention/policy.go:63-71 | after a round in such a run whether a segment lies hot is a matter of its age alone |
| Schedule.GoneWasRipe | internal/retention/policy.go:63-71 | a record in no file of the hot directory left with a segment that was old enough |
| Boot.Load | internal/retention/manager.go:74-91 | boot starts from the file exactly if its signature verifies and its floor is lawful and not above the configured one; an absent file is an empty checkpoint |
| Boot.OwnLoads | internal/retention/manager.go:74-91 | whatever the manager wrote is started from |
| Boot.Recovered | cmd/ocu-audit/main.go:132-140 | anchored or not, with or without an active file, boot rebuilds the whole log exactly outside limbo, with the floor the whole log has |
| Boot.Restart | cmd/ocu-audit/main.go:110-140 | the restarted daemon has the log it had, exactly outside limbo, and the saved checkpoint; it can add to the log exactly if the active file has no torn frame, and its books are in order exactly if that checkpoint lists every segment |
| Boot.FirstBoot | cmd/ocu-audit/main.go:110-140 | from empty directories and no checkpoint: an empty log, books in order |
| Boot.Reboot | cmd/ocu-audit/main.go:110-140 | the same restart, from whatever a daemon left on disk; active records are no older than the last seal the new checkpoint knows if they were before |
| Boot.AdmitThenRestart | internal/store/store.go:152-170 | an admission cut off at any byte of its frame, then a restart: the log is the one before, and the record in flight if its frame got in whole; a record the source was told is committed always did |
| Boot.TickThenRestart | internal/retention/manager.go:230-272 | a retention round begun without a cold copy, cut off at any filesystem call, inside its seal too, then a restart: the log is the one before, whatever failed, and the books are in order exactly if the checkpoint file lists every segment |
| Boot.SealThenRestart | internal/retention/manager.go:178-184 | death at the checkpoint write of a seal, then a restart: every record is there, the log is live, its active file is empty, the inventory is short of the seal, and the next seal is due once the interval has passed |
| Boot.LagIsDue | internal/retention/manager.go:152-158 | a short inventory makes a seal due with no new record |
| Boot.SealsOver | internal/retention/manager.go:159-162 | and that seal, if its calls work, takes a segment out of what boot reads |
| Boot.RefusedThenCommitted | internal/wal/wal.go:126-132 | a record refused by a failed sync and another committed after it: boot reads both, and refuses the log if and only if they are of one source |
| Boot.LimboExactly | internal/retention/rotate.go:185-200 | an attempt can end with the segment cold, not hot and not recorded if and only if it began with a cold copy |
| Boot.NextNameFree | internal/retention/manager.go:159-161 | the name of the next seal is unused if and only if no seal is missing from the inventory |
| Boot.RolledBackBoots | internal/retention/manager.go:254-263 | a checkpoint rolled back after a failed write and saved by a later one is refused at boot exactly while its segment is still hot |
| Lifetime.LiveThrough | cmd/ocu-audit/main.go:110-140 | over any sequence of admissions, retention rounds and restarts and any faults, the files hold what a store that never restarted would have committed, answer for answer, up to refusals in doubt, no record stamped before it came; what earlier rotations left in the hot directory is never removed; the run stops only in the three states named above, or with a SHA-256 collision in hand |
| Lifetime.FindCollision | internal/retention/rotate.go:122-133 | unless a garbled write and a log file on disk collide, which it returns, no copy verified by digest differs from its segment |
| Lifetime.RestartOne | cmd/ocu-audit/main.go:110-140 | whether a restart can go on is read off the files: limbo, a torn frame, a missing seal |
| Lifetime.AdmitOne | internal/store/store.go:110-170 | one admission of such a run, with the answer the run alone determines |
| Fairness.Clamped | internal/ingest/fairness.go:61-73 | a fair share is kept; a mis-set one is raised to one, never refused |
| Fairness.Limiter.TryAdmit | internal/ingest/fairness.go:111-130 | refill, then spend or shape, for the calling source alone |
| Fairness.Limiter.Refilled | internal/ingest/fairness.go:89-104 | whole elapsed intervals are credited up to the burst |
| Fairness.Limiter.SaturationOnset | internal/ingest/fairness.go:137-146 | true once per episode |
| Fairness.Limiter.OverShare | internal/ingest/fairness.go:150-158 | of all the attempts of the source since the start, those that were not admitted |
| Fairness.RefillAccounts | internal/ingest/fairness.go:89-104 | after a refill less than one interval is unaccounted for, and a whole idle interval always yields a token |
| Fairness.TakeSpends | internal/ingest/fairness.go:111-130 | each admission spends one interval of what the bucket holds in tokens and time |
| Fairness.RateBound | internal/ingest/fairness.go:28-35 | from a call on, for any span of time, a source is admitted at most burst plus span over refill, rounded up, whatever all sources do |
| Fairness.FullRateBound | internal/ingest/fairness.go:89-104 | from a call that finds the bucket full, the bound is rounded down: a full bucket earns nothing |
| Fairness.SpacedNeverShaped | internal/ingest/fairness.go:28-35 | a source that keeps to its refill rate is never shaped |
| Fairness.IdleEarns | internal/ingest/fairness.go:28-35 | after n idle intervals as many more attempts are admitted, up to the burst, however close together and whatever others do |
| Fairness.Isolation | internal/ingest/fairness.go:11-18 | a source's answers and bucket are those of the run in which it is alone |
| Fairness.OnsetOnce | internal/ingest/fairness.go:132-146 | until the source is admitted again saturation is reported exactly once if anybody asks after a shaped event, and not at all if it was before |
| Fairness.EpisodeEnds | internal/ingest/fairness.go:111-130 | an admission ends the episode |
| Fairness.ShapedAreCounted | internal/ingest/fairness.go:150-158 | the over-share count is the number of shaped events |
| Fairness.RunKeepsSound | internal/ingest/fairness.go:38-44 | in every run tokens stay within the burst and refill times within the clock |
| Fanout.Pump.RunOnce | internal/fanout/fanout.go:93-125 | under any script of sink calls and cursor saves: where it stops, what has been sent by then, which is the hot records from the cursor on, in order, and how the gap was counted; every index below the cursor was delivered or counted in a gap; if cursor writes succeed only the last delivery can be repeated after a crash |
| Fanout.Pump.SkipGap | internal/fanout/fanout.go:97-113 | a rotated gap is counted whole, once, and reported once |
| Fanout.Pump.Deliver | internal/fanout/fanout.go:115-124 | a record is sent exactly if its own sink call works and every call before did; the cursor is that of the last save that worked |
| Fanout.Pump.DeliverNext | internal/fanout/fanout.go:115-124 | one record: taken by the sink exactly if its call works, and then the cursor moves exactly if its save does |
| Fanout.EndsWhere | internal/fanout/fanout.go:115-124 | drained exactly if every call works; stopped by the sink or the cursor exactly where the first call to fail is theirs |
| Fanout.AllDelivered | internal/fanout/fanout.go:93-125 | when every call works everything from there on is delivered, once and in order |
| Fanout.Pump.Lag | internal/fanout/fanout.go:71-79 | committed less delivered, never negative |
| Fanout.EmitCounts | internal/fanout/fanout.go:116-121 | one delivery accounts for one more index |
| Fanout.Restart | internal/fanout/fanout.go:58-68 | a new pump on a rebooted store, perhaps with more of the log rotated, keeps the account |
| EdgeTail.LinesSplit | internal/edgetail/tail.go:84-92 | cut at a line boundary, the lines of a log divide |
| EdgeTail.LineStep | internal/edgetail/tail.go:91-112 | past one line the cursor is on a boundary again and its sequence is that of the lines taken before it |
| EdgeTail.WantedGrows | internal/edgetail/tail.go:86-90 | a growing log only adds lines; a torn tail counts for nothing |
| EdgeTail.PublishOnce | internal/ingest/server.go:177-192 | publishing the line of rank n, however often: committed with sequence n + 1 if next, otherwise without effect; a replay is acknowledged exactly while its record is hot |
| EdgeTail.ReusedSequence | internal/ingest/server.go:177-192 | whatever line it is for, a sequence already committed commits nothing and is acknowledged all the same while hot; the next one is committed exactly if durable |
| EdgeTail.Tailer.Publish | internal/ingest/server.go:177-192 | whether or not the answer comes back, the committed edge records stay the first expected lines, each once; an answer lost after the record was committed leaves the cursor behind the log |
| EdgeTail.Tailer.RunOnce | internal/edgetail/tail.go:64-114 | after any run, over a log that was rotated or not, the committed edge records are the first expected lines in order, each once, sequence equal to rank; all of them if the run caught up; skipped grows by the lines passed that do not convert; when nothing fails the run catches up if and only if the cursor is not behind a record that has left the hot tier, and otherwise commits nothing |
| EdgeTail.Tailer.NextLine | internal/edgetail/tail.go:84-112 | one line: skipped and counted if it does not convert, otherwise published, and the cursor moves past it in either case unless the publish fails |
| EdgeTail.HotOnward | internal/store/store.go:114-121 | past a hot record the tailer is not behind a cold one |
| EdgeTail.Tailer.Rewind | internal/edgetail/tail.go:74-78 | a cursor past the end of a shorter file goes back to its start and keeps its sequence |
| EdgeTail.Tailer.FileRotates | internal/edgetail/tail.go:74-78 | a rotation while nothing is in flight keeps all of that: the lines taken stay taken, the new file continues them |
| EdgeTail.Tailer.OthersAdmit | internal/store/store.go:110-170 | other sources being admitted meanwhile change nothing of that |
| EdgeTail.Tailer.FileGrows | internal/edgetail/tail.go:84-90 | nor does the log growing, even in the middle of a line, unless it grows past a cursor that waits to go back |
| EdgeTail.Restart | internal/edgetail/tail.go:45-52 | nor does a restart of tailer and daemon from what is durable, however far the saved cursor lags, and whatever the log has gained: records of other sources, and expected lines committed or in doubt |
| EdgeTail.InDoubtCounts | internal/store/store.go:152-160 | a line refused with its record in the log all the same is the next one committed |
| EdgeTail.GainedOnce | internal/store/store.go:110-170 | over any number of such gains the committed edge records stay the first expected lines, each once |

## Left out

- The tree library is not part of this model; its compact range, root fold and proof node selection are taken from sections 2.1, 2.1.1 and 2.1.2 of RFC 6962 and its documented behaviour, with the empty proof from size 0.
- Tree sizes, sequences and log lengths at or above 2^63, where the subtree width and the counters wrap; `Manager` assumes logs shorter than 2^63 - 64 records.
- The JSON decoder: two payloads whose numbers round to one float64, or that repeat a key, decode to one value and share a canonical form. A decoded string is valid UTF-8.
- The JSON form of a record is any codec that loses nothing; the encoder's re-spelling of a payload (`<` as an escape, no spaces), which keeps its canonical form, is not modelled.
- HTTP routing, client certificates, flags, goroutines and locks: every operation is one atomic step, which the mutexes give.
- Envelope decoding and bounds (`internal/ocsf/envelope.go:62-120`), the field mapping of `Convert`, and channel authorization; conversion is a deterministic partial function of the line.
- Power loss that reorders or drops writes and directory entries: a crash is process death at a filesystem call.
- Garbled writes to the log and the checkpoint file: only a rotation temporary is garbled. What a bad checksum does to a log is `Wal.BadCrcRefused`.
- Evidence records: what retention and fan-out emit is kept in a list and not admitted to the log as further records.
- BootPolicySync, which repins the policy, and the offline audit of a checkpoint against the directory contents.
- A replaced edge log that is not shorter than the cursor, or has outgrown it before the tailer looks: it is read from the old offset.
- Liveness while calls go on failing: what is said of progress is said of runs in which none fails.
- Store.Store.Admit: an append that fails leaves at most its own frame behind; what a log reads as when more is appended is said of the files (`Wal.AppendPastTorn`, `Boot.RefusedThenCommitted`), not carried through the store.
- Manager.Manager.Tick: times are positive, because a rotation recorded at time 0 reads as not rotated; garbled writes that collide with a segment of this log under SHA-256 are excluded by hypothesis, which `Lifetime.FindCollision` decides.
- Lifetime.LiveThrough: the run ends in the states named above instead of following the daemon into the loss they cause.
- Residence.ResidenceBound: ages within 292 years of the clock, because beyond them the age wraps (`RetentionPolicy.AgeExact`); `Schedule.KeepCeiling` runs from 1970 to 2262 for the same reason, and over rounds that do not fail.
- Fairness.RateBound: token and clock arithmetic does not wrap, because that takes bursts or clock readings past 2^62.
- EdgeTail.Tailer.RunOnce: the file does not change during a run; it may between runs.
- EdgeTail.Tailer.FileGrows: fewer than 2^63 lines in all.
