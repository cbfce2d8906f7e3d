# A verified model of bran

This project models the parts of bran that carry state, loops and arithmetic, and proves what
they promise. `dafny verify dfyconfig.toml` checks all of it.

## What is modelled

**The result store** (`BatchNames`, `ResultFiles`, `ResultStates`, `ResultStore`, `ResultLoss`,
`SharedStore`, `StoreLock`). A directory is a map from names to folders of files. Every file-system call is one
method of the class `FilesystemResultStore`; each records, in the ghost field `crashes`, the
directories that a crash during or after it would leave, including half-deleted folders. Which
calls fail is a parameter (`Faults`): a schedule that says so for every call by its number, so that
each operation is obliged to succeed when its calls do, and a failure is traced to the call that
failed. A call whose failure has the same effect as that of the next one is counted with it.
`PutBatch`, `Get` and the scan `BatchesUnlocked`, which is also the recovery, are written over
these calls; `ResultStates` says what the states they leave mean, and `SharedStore` lets any number
of processes take turns on one directory and crash between any two calls. The names of transaction
directories and the clock are parameters. SHA-256 is a parameter too; where exact bytes are
claimed, no other payload shares the digest.

**Cancelling a delegated task** (`Cancellation`). The worker and any number of `cancel` calls
share two flags and a mutex; a run is any interleaving of their single steps. Whether a put of the
worker is accepted, and whether it leaves its batch in the store, are two outcomes of its step.

**The query-evidence file** (`EvidenceCodec`, `EvidenceRoundTrip`, `EvidenceGrammar`,
`EvidenceStore`, `EvidenceRecord`). The encoder and the parser are loops over text, each proved
against a function; `EvidenceGrammar` says which texts the parser accepts. The file is then a bounded map from (request, roots) to records, under a schedule of faults like
the result store's; `EvidenceRecord` says which records a query builds.

**The query engine** (`Tokenizer`, `Scoring`, `Ranking`). Tokenizing, scoring, suppressing,
ordering and merging, proved against what they mean: maximal runs, occurrences in documents, and
the sorted arrangement of a multiset.

**Delegation loops** (`Backoff`, `Utf8Cut`, `Excerpting`). The retry loop that halves the source
limit, the chunks a prompt is cut into, and the excerpts that share a byte budget.

**Documents** (`Discovery`, `Matches`, `Locators`, `LayoutSink`). The directory walk over an
explicit stack, the order of matches, column names and locators, and the adapter that turns layout
blocks into anchors together with the validator clauses its output has to meet.

**Tools** (`Ustar`, `Cycles`, `Worklist`, `Boundary`). The archive writer, the cycle check, the
dependency closure and two scans for private text.

`Common`, `Faults`, `Ordering`, `Decimal` and `Text` hold what these share.

A lemma whose name ends in `Exactly` says in characters, numbers and fields what a function means
that other statements use: an order, an alphabet, a limit, a name.

## What the proofs found

- `docs/deployment-profile.md:454` promises that a failed publication keeps the earlier results.
  `ResultLoss.FailedPutLosesResult` is a run in which it does not: two calls fail, the put reports
  an error, and a result that was served before is not found any more. The promise holds if and
  only if every renaming that moves an evicted batch back, and every call that removes the new
  batch, succeeds (`ResultStore.FilesystemResultStore.PutBatch`, with the numbers of those calls in
  `ResultStates.RestoresExactly`); the rollback ignores errors.
- Apart from such a put, no sequence of gets, puts, crashes and recoveries loses a result before
  it expires, except to the evictions of a put whose batch is then complete
  (`ResultStates.Durable`); nor does any interleaving of processes (`SharedStore.SharedDurable`).
- A put that reports an error leaves its batch among those that are served if and only if it had
  published the batch and a call of its removal failed (`ResultStates.LeavesBatchExactly`).
- The limits of 16 items and 4 MiB hold after every completed publication. While its evictions are
  under way they hold exactly when all of them have left, so that a crash in between leaves more
  than the limits until the next completed publication (`ResultStates.LimitsWhileEvicting`).
- A batch with two equal payloads is never published, since the second file already exists: the put
  is refused, unless a directory with that very name and these files is there already.
- A task that says `Cancelled` may have left a result that is served: such a put does not count as
  a publication, so that a later `cancel` still takes effect. `ResultLoss.CancelledTaskIsServed` is
  the run. A cancelled task has no accepted put at any time, and has left nothing if and only if
  none of its puts reported an error and left its batch (`Cancellation.CancelledLeavesNothing`).
- A cancellation that arrives after the worker's last check is not reported, although nothing was
  published (`Cancellation.LateCancelIsNotReported`). A receipt says `Cancelled` exactly when the
  flag was set at that check or the runtime said so (`Cancellation.ReceiptExactly`).
- The writer of the evidence file does not check the length of fields and the parser does: the file
  stays readable exactly when all its records are `Storable` (`EvidenceRoundTrip.StoreRoundTrip`).
  Of what a query records, only a root path of more than 4096 bytes can break the file, on a
  platform that opens one; terms, locators, reasons and labels always fit
  (`EvidenceRecord.RecordIsStorable`, `EvidenceRecord.LongRootBreaksFile`). Clearing removes such a
  file too (`EvidenceStore.ClearAfterPersist`), so that after any run the file can be read if and
  only if the record last written since the last removal is storable (`EvidenceStore.RunExactly`).
- Besides the name the store writes for a tick, one other name is read as a batch of that tick:
  integer parsing accepts a plus sign (`BatchNames.BatchTickExact`).
- An archive's name comes back exactly when it holds no NUL; the writer does not check.
- Layout pages are not bounded. The validator accepts the anchors of a response exactly when it has
  text and no kept anchor is on a page beyond 1,000,000; one block of text on page 1,000,001 is
  refused (`LayoutSink.OneBlockAccepted`).
- When the sink of layout anchors is full, the text of a block is added, and so counted as omitted,
  after its nested blocks were; the anchors that are kept are not affected
  (`LayoutSink.AnchorsAreUncapped`).

## Model

| member | source | states |
|---|---|---|
| `BatchNames.TickRoundTrip` | crates/bran-cli/src/main.rs:6278-6291 | the name written for a tick is read back as that tick, for every 64-bit tick |
| `BatchNames.BatchTickExact` | crates/bran-cli/src/main.rs:6278-6291 | exactly two kinds of names carry a given tick: the padded one, and one with a plus sign and 19 digits |
| `BatchNames.NameOrder` | crates/bran-cli/src/main.rs:6070-6072 | the 20-digit padding makes name order equal (tick, digest) order |
| `ResultFiles.LiveExactly` | crates/bran-cli/src/main.rs:6023-6026 | a batch is served from its tick on for 86,400 ticks and no longer |
| `ResultStore.FilesystemResultStore.BatchSize` | crates/bran-cli/src/main.rs:6293-6328 | the number of files and the sum of their lengths; `Unavailable` exactly when a call failed, `Corrupt` only for a directory or a name that is no digest, and a capacity error only over 16 files or 4 MiB |
| `ResultStore.FilesystemResultStore.BatchesUnlocked` | crates/bran-cli/src/main.rs:5974-6032 | a scan that succeeds leaves exactly the batches of which 86,400 ticks have not passed, lists them all with their sizes, oldest first, and found fewer than 128 directories and nothing it cannot list; a failed or crashed scan has removed nothing else; `Unavailable` is reported exactly when a call failed, and every other error only for what it stands for |
| `ResultStates.PlanEvictions` | crates/bran-cli/src/main.rs:6093-6124 | evicts the shortest sufficient prefix of the oldest batches; the empty-list and underflow branches cannot be reached |
| `ResultStates.EvictionsAreOldest` | crates/bran-cli/src/main.rs:6093-6124 | every batch that is evicted has a lesser tick than every batch that stays, or the same tick and a lesser name |
| `ResultStore.FilesystemResultStore.Admit` | crates/bran-cli/src/main.rs:6040-6063 | which payloads are refused and with which error; the others are named by their digests, in order |
| `ResultStates.AdmissibleExactly` | crates/bran-cli/src/main.rs:6046-6063 | the limits in numbers: one to 16 payloads of one byte to 1 MiB, whose concatenation takes at most 4 MiB; and which error each other request gets |
| `ResultStore.FilesystemResultStore.WritePrivateFile` | crates/bran-cli/src/main.rs:6330-6344 | succeeds exactly when the file is new and neither creating nor writing it fails; it then holds the bytes, and otherwise at most that file has changed |
| `ResultStore.FilesystemResultStore.Publish` | crates/bran-cli/src/main.rs:6125-6138 | staging and renaming succeeds exactly when the digests differ and no call fails; the complete batch is then there and nothing else has changed, and otherwise only the staging directory differs; a crash sees one or the other |
| `ResultStore.FilesystemResultStore.EvictAfterPublish` | crates/bran-cli/src/main.rs:6158-6190 | succeeds exactly when no call fails, and then exactly the evictions are gone; otherwise undoing begins right behind the first failed call, and what is back afterwards is determined by the later ones; up to that call every crash state has lost just a prefix of the evictions |
| `ResultStore.FilesystemResultStore.RollbackEviction` | crates/bran-cli/src/main.rs:6192-6199 | exactly the batches whose restoring rename failed are lost, and the new batch is gone exactly when no call of its removal failed, and has otherwise lost the entries removed before that call |
| `ResultStates.RestoresExactly` | crates/bran-cli/src/main.rs:6192-6199 | which calls have to succeed for everything to be undone: the renames, and the removal of the new batch; removing the quarantine does not matter |
| `ResultStates.LeavesBatchExactly` | crates/bran-cli/src/main.rs:6158-6199 | a put leaves its batch among those that are served if and only if it succeeds, or had published it and a call of its removal failed; what a failed removal leaves are the entries it had still to remove |
| `ResultStore.FilesystemResultStore.Replace` | crates/bran-cli/src/main.rs:6125-6141 | publication and eviction together succeed exactly when the digests differ and no call fails; all or nothing on every crash of the forward path; after a failure the old batches are served as before if and only if every undoing call succeeded |
| `ResultStore.FilesystemResultStore.PutBatch` | crates/bran-cli/src/main.rs:6040-6141 | a put is refused with the source's error, finds its batch present, or attempts a publication, which has to succeed exactly when the digests differ and no call fails; what each leaves on disk after which failed calls, what a crash at any call leaves, the limits after completion, and that every such state is well formed |
| `ResultStates.TargetExactly` | crates/bran-cli/src/main.rs:6064-6073 | the name of a batch is made of the tick and the digest of the bytes that spell the digests of its payloads one after the other |
| `ResultStates.CompletedTotals` | crates/bran-cli/src/main.rs:6093-6141 | a completed publication leaves at most 16 items and 4 MiB |
| `ResultStates.LimitsWhileEvicting` | crates/bran-cli/src/main.rs:6093-6190 | with a prefix of the evictions gone, the limits hold if and only if it is all of them |
| `ResultStates.NothingLostByCrash` | crates/bran-cli/src/main.rs:6073-6190 | from any crash of the forward path, recovery at any later time finds every unexpired old batch, or it was an eviction and the complete new batch is there |
| `ResultStates.Durable` | crates/bran-cli/src/main.rs:5974-6199 | over every sequence of puts, gets, crashes and recoveries in which failed puts are undone, a batch is there with its contents until it expires, or a put evicted it, as one of the least sufficient oldest batches, for a batch that was then complete |
| `SharedStore.SharedDurable` | crates/bran-cli/src/main.rs:5950-6199 | the same at every moment of every interleaving of any number of processes that share the directory under the lock and crash between any two calls |
| `SharedStore.OnlyHolderChanges` | crates/bran-cli/src/main.rs:5950-6199 | while one process works, no action of another changes the directory |
| `ResultStates.PutKeepsWellFormed` | crates/bran-cli/src/main.rs:6040-6141 | names, addresses and bounds of a well-formed store survive a put, its failures and its crashes |
| `ResultStore.FilesystemResultStore.Get` | crates/bran-cli/src/main.rs:6143-6156 | the bytes of the newest unexpired batch that holds the id, `NotFound` only when none does, and `Unavailable` exactly when a call failed; over a good store there is no other error; an id that only batches of 86,400 ticks or more hold is not found, and after an answer no such batch is left |
| `ResultStore.PutThenGet` | crates/bran-cli/src/main.rs:6040-6156 | a result that was put is found, byte for byte, until it expires; over a good store both calls succeed when the system fails none of theirs |
| `ResultStore.PutTwice` | crates/bran-cli/src/main.rs:6040-6141 | two puts at one tick, of payloads whose spelled digests have different digests, are both published over a good store when no call fails, and what the second stored is there |
| `ResultLoss.FailedPutLosesResult` | crates/bran-cli/src/main.rs:6158-6199 | a run with a concrete store and schedule: a result is found, a put reports an error, and the result is not found any more |
| `StoreLock.LiveTransactionSurvives` | crates/bran-cli/src/main.rs:5950-6032 | in every run of any number of processes, with crashes, no sweep removes the transaction of a process that still works on it |
| `StoreLock.CanBecomeReady` | crates/bran-cli/src/main.rs:5950-6032 | no process waits for ever: from every state of every run, an idle process can get the lock and a directory without transactions, without a crash |
| `Cancellation.CancelPublishExclusion` | crates/bran-cli/src/main.rs:983-996 | over every interleaving: cancelled and published are never both set, a cancelled task has no put accepted at any time, a task with an accepted put is never cancelled, and a finished `cancel` took effect or came after an accepted put |
| `Cancellation.RunMonotone` | crates/bran-cli/src/main.rs:5905-5933 | flags are never taken back, accepted puts and batches left never forgotten, and once the flag is set no further put leaves a batch |
| `Cancellation.CancelledLeavesNothing` | crates/bran-cli/src/main.rs:5905-5933 | over every interleaving: a task whose flag is set has left nothing in the store if and only if none of its puts so far reported an error and left its batch |
| `Cancellation.CancelledTaskLeavesBatch` | crates/bran-cli/src/main.rs:5905-5933 | a run with such a put that ends in the receipt `Cancelled` |
| `ResultLoss.CancelledTaskIsServed` | crates/bran-cli/src/main.rs:5905-6199 | the same over a concrete store and schedule: the put reports an error, its first payload is served afterwards, and the run with this put ends in the receipt `Cancelled` |
| `Cancellation.ReceiptOutcome` | crates/bran-cli/src/main.rs:6537-6588 | when a receipt is `Cancelled`, and that a flag seen by the last check means that no put has been accepted |
| `Cancellation.FinalSawFlag` | crates/bran-cli/src/main.rs:6568-6581 | the worker carries with it the flag as it was at its last check |
| `Cancellation.ReceiptExactly` | crates/bran-cli/src/main.rs:6568-6588 | a receipt is `Cancelled` if and only if the flag was set at the last check or the runtime reported a cancellation |
| `Cancellation.LateCancelIsNotReported` | crates/bran-cli/src/main.rs:6568-6588 | a run in which a cancelled task ends with another receipt |
| `Cancellation.TaskCanEnd` | crates/bran-cli/src/main.rs:5905-5933 | no deadlock: every run can go on until the mutex is free and the task has its receipt |
| `Cancellation.RetriesExactly` | crates/bran-cli/src/main.rs:6568-6588 | after a check the runtime is invoked again if and only if the check saw no flag and the last invocation failed otherwise |
| `EvidenceCodec.EvidenceEscape` | crates/bran-cli/src/main.rs:3930-3942 | the loop computes the escaped field |
| `EvidenceCodec.EvidenceUnescape` | crates/bran-cli/src/main.rs:3944-3964 | decodes exactly the well-formed fields of at most 4096 bytes |
| `EvidenceCodec.EscapeIsFlat` | crates/bran-cli/src/main.rs:3930-3942 | an escaped field holds no tab, carriage return or line feed |
| `EvidenceCodec.UnescapeEscape` | crates/bran-cli/src/main.rs:3930-3964 | unescaping undoes escaping, unless the field is too long, which is then an error |
| `EvidenceCodec.EncodeEvidenceStore` | crates/bran-cli/src/main.rs:4142-4209 | the loop writes the specified lines, or refuses exactly the records and totals over the bounds |
| `EvidenceCodec.ParseEvidenceStore` | crates/bran-cli/src/main.rs:4037-4120 | the loop over lines reads what the specification reads, with the same errors |
| `EvidenceGrammar.ParseExactly` | crates/bran-cli/src/main.rs:4037-4140 | which texts the parser accepts, as which records, told by their characters: a version line, and for every record three dashes and lines of a key, a tab and a value in any order, with one request, one outcome out of four words, one to eight roots, at most 32 rankings of eleven columns, and fields of at most 4096 bytes |
| `EvidenceGrammar.ParsedIsStorable` | crates/bran-cli/src/main.rs:4037-4209 | whatever text was read, its records meet the bounds of the writer; unless they take more than 64 KiB they can be written, and are then read as they were |
| `EvidenceRoundTrip.RankRoundTrip` | crates/bran-cli/src/main.rs:4122-4140 | every printed ranking has eleven columns and is read back, unless a text column is too long |
| `EvidenceRoundTrip.StoreRoundTrip` | crates/bran-cli/src/main.rs:4037-4209 | what the encoder writes is read back as it was if and only if every record is storable; otherwise it cannot be read at all |
| `EvidenceRoundTrip.OverlongRootIsWritten` | crates/bran-cli/src/main.rs:4142-4209 | a record the encoder accepts and the parser refuses: its root is a path of short components that takes 4097 bytes |
| `EvidenceRecord.RecordIsStorable` | crates/bran-cli/src/main.rs:3880-3915 | a record that a query builds and the writer's bounds admit is read back if and only if it has roots and each takes at most 4096 bytes |
| `EvidenceRecord.QueryRecordExactly` | crates/bran-cli/src/main.rs:3896-3915 | the outcome a record states: `miss` exactly without evidence, `grounded` exactly when there is some and every unit is matched, `partial_unanchored` exactly when some unit is not |
| `EvidenceRecord.CoveredPartition` | crates/bran-cli/src/main.rs:1833-1847 | the matched and the unmatched units together are the units of the query, none lost and none added |
| `EvidenceRecord.LongRootBreaksFile` | crates/bran-cli/src/main.rs:4247-4272 | a query over such a root writes a file that cannot be read back |
| `EvidenceStore.EvidenceFile.Load` | crates/bran-cli/src/main.rs:4022-4035 | what is in the file, nothing when it is absent, or the reader's error; `Unavailable` exactly when a call failed |
| `EvidenceStore.ContentsExactly` | crates/bran-cli/src/main.rs:4022-4035 | what is in a file: nothing when there is none, and otherwise the records its text holds, if it takes at most 64 KiB |
| `EvidenceStore.EvidenceFile.Persist` | crates/bran-cli/src/main.rs:4247-4272 | unless a call fails, the outcome and the text written are determined; success is a map update; a rejection leaves the file as it was; the file stays readable if and only if the record is storable |
| `EvidenceStore.VerdictExactly` | crates/bran-cli/src/main.rs:4247-4272 | when no call fails, a record is refused exactly when it names no roots or more than eight, has a request over 4096 bytes or more than 32 rankings, brings a new (request, roots) to a map of 32, or makes the text larger than 64 KiB; replacing a key succeeds in a full store |
| `EvidenceStore.EvidenceFile.Clear` | crates/bran-cli/src/main.rs:4886-4903 | removes the file, readable or not, and empties the map; refuses exactly a file over 64 KiB when no call fails, and leaves the file as it was on any error |
| `EvidenceStore.ClearAfterPersist` | crates/bran-cli/src/main.rs:4886-4903 | when no call fails, clearing recovers from every record that was written |
| `EvidenceStore.RunExactly` | crates/bran-cli/src/main.rs:4247-4272 | over every run of persists and clears from a readable file: it can be read if and only if the record last written since the last removal is storable, and then holds the recorded updates since that removal |
| `EvidenceStore.UpdatedIsUpdate` | crates/bran-cli/src/main.rs:4258-4270 | retaining the others, pushing and sorting is an update of the map |
| `EvidenceStore.WrittenInOrder` | crates/bran-cli/src/main.rs:4264-4270 | the records are written in the order of their requests, and of equal requests in that of their roots |
| `EvidenceStore.FullExactly` | crates/bran-cli/src/main.rs:4258-4263 | the store is full for a record exactly when its key is new and the map has 32 entries |
| `EvidenceStore.UpdatedIsCanonical` | crates/bran-cli/src/main.rs:4211-4272 | the written list is read back strictly sorted, without duplicate keys and within 32 records, if and only if the new record is storable |
| `Tokenizer.QueryTermsAndEntities` | crates/bran-cli/src/main.rs:1778-1795 | for every maximal run of the lower-cased query, what is left without the `-`, `_` and `.` at its ends is an entity exactly when it holds one of these and takes at least 6 bytes, and a term exactly when it holds none, takes at least 3 bytes and is not one of the eight stop words; there are no other terms and entities |
| `Tokenizer.UnitsExactly` | crates/bran-cli/src/main.rs:1778-1813 | the same of the units that all other statements speak of |
| `Tokenizer.TermsAreNotEntities` | crates/bran-cli/src/main.rs:1797-1813 | terms and entities are disjoint |
| `Tokenizer.TokenizeFixpoint` | crates/bran-cli/src/main.rs:1778-1813 | tokenizing a unit gives that unit alone, and no unit is longer than its query |
| `Scoring.ScoreDocument` | crates/bran-cli/src/main.rs:1935-2085 | the four scores and the matched units of a document are the specified counts |
| `Scoring.CountsExactly` | crates/bran-cli/src/main.rs:1935-2060 | the counts said of the document: the entities that occur in it and the places where a term is a whole path or ranked fact; and the pairs of a place and a term contained there otherwise |
| `Scoring.UnitsMatched` | crates/bran-cli/src/main.rs:1935-2085 | a document matches exactly the units of the query that occur in it |
| `Scoring.ScorePositive` | crates/bran-cli/src/main.rs:2060-2085 | a document is a candidate if and only if it matches some unit |
| `Scoring.ScoreSourceCandidates` | crates/bran-cli/src/main.rs:1915-2085 | the candidates of a root and the union of what its documents match |
| `Ranking.SuppressedExactly` | crates/bran-cli/src/main.rs:2107-2120 | a root is suppressed exactly when the query names entities and nothing matches exactly |
| `Ranking.SuppressionAgrees` | crates/bran-cli/src/main.rs:2107-2120 | a merged query is suppressed if and only if each of its roots alone is |
| `Ranking.FinalizeSourceRankings` | crates/bran-cli/src/main.rs:2134-2154 | sorted by the fields, greater scores and freshness first and then lesser bundle and id, truncated, and numbered from one |
| `Ranking.FinalizedExactly` | crates/bran-cli/src/main.rs:2134-2154 | what is kept and what is dropped are together the candidates, the kept ones are in the order of their fields, and every dropped one comes after every kept one |
| `Ranking.OrderExactly` | crates/bran-cli/src/main.rs:2122-2148 | the two orders field by field |
| `Ranking.SourceRankings` | crates/bran-cli/src/main.rs:1900-1913 | the ranking of one root is the specified one: at most `max` documents, the best first, by the fields |
| `Ranking.QueryMulti` | crates/bran-cli/src/main.rs:2814-2840 | the merged ranking is the specified one, of at most 32 documents, the best first by the fields, and duplicate roots, and only they, are refused |
| `Ranking.MultiOrderIndependent` | crates/bran-cli/src/main.rs:2814-2840 | a merged query does not depend on the order of its roots |
| `Ranking.RestrictedOrder` | crates/bran-cli/src/main.rs:2122-2154 | the merged order restricted to a root is that root's own order |
| `Ranking.RestrictedIsPrefix` | crates/bran-cli/src/main.rs:2814-2840 | restricted to a root, a merged ranking is a prefix of that root's own |
| `Ranking.OutcomeMeaning` | crates/bran-cli/src/main.rs:1864-1886 | grounded if and only if the query has units and each occurs in a document; a miss if and only if none occurs anywhere, or an entity is unmatched and nothing matches exactly |
| `Ranking.EvidenceExactly` | crates/bran-cli/src/main.rs:1900-1913 | a root returns rankings exactly when some unit is matched and the query is not suppressed |
| `Ranking.Query` | crates/bran-cli/src/main.rs:4673-4698 | from the text of a query to its ranking, coverage and outcome: a unit is covered exactly when a document or the document evidence has it; grounded exactly when nothing is unmatched and something is found |
| `Backoff.FirstChangeExactly` | crates/bran-cli/src/main.rs:6591-6609 | the first smaller limit whose prompt differs: all before it leave the prompt as it is |
| `Backoff.HalvingsExactly` | crates/bran-cli/src/main.rs:6636 | the limits that are tried: half of the limit first, each half of the one before, and one last |
| `Backoff.AsksForFewerExactly` | crates/bran-cli/src/main.rs:6617-6635 | which receipts ask for fewer sources: those of a failed grounding that list lost anchors, all of which begin with `source-` |
| `Backoff.NextChanged` | crates/bran-cli/src/main.rs:6591-6637 | the loop finds that limit, which is at most half the current one, and only for a receipt that lost nothing but source anchors |
| `Backoff.Run` | crates/bran-cli/src/main.rs:6536-6588 | for every sequence of receipts, at most 1 + floor(log2(max_sources)) invocations, each on at most half the sources of the one before; and which receipt is returned |
| `Backoff.Log2Exactly` | crates/bran-cli/src/main.rs:6636 | that logarithm is the floor of the binary logarithm |
| `Utf8Cut.CutIsLastBoundary` | crates/bran-cli/src/main.rs:5820-5822 | the last character boundary within a byte limit is where the longest fitting prefix ends |
| `Utf8Cut.CutIsLongest` | tools/ci/document_ai_smoke_adapter.py:77-81 | cutting yields a prefix within the limit that no further character would fit |
| `Utf8Cut.DecodeEncode` | crates/bran-cli/src/main.rs:5814-5822 | the encoding is that of section 3 of RFC 3629: a decoder that reads the bits behind the marks gets every code point back |
| `Utf8Cut.BoundaryExactly` | crates/bran-cli/src/main.rs:5820-5822 | a position is a character boundary exactly when the bytes before it encode a prefix of the text |
| `Utf8Cut.FloorBoundary` | crates/bran-cli/src/document_evidence.rs:463-469 | the loop that backs off to a boundary cuts off the longest fitting prefix |
| `Utf8Cut.PreservePrompt` | crates/bran-cli/src/main.rs:5814-5833 | the anchors are the chunks of the prompt in order, named `task` or `task-NNN` |
| `Utf8Cut.ChunksFit` | crates/bran-cli/src/main.rs:5816-5833 | the chunks concatenate to the prompt, none is empty or over 512 bytes, and none could have taken in the next character |
| `Utf8Cut.ChunkIdsDiffer` | crates/bran-cli/src/main.rs:5823-5827 | the names of the chunks differ |
| `Utf8Cut.ChunkIdExactly` | crates/bran-cli/src/main.rs:5823-5827 | a single chunk is named `task`, and others `task-` and at least three digits that denote their number |
| `Excerpting.ExcerptBudget.Take` | crates/bran-cli/src/document_evidence.rs:461-473 | the excerpts, what they take from the budget, and that spent and remaining bytes are constant together; truncated means some text was cut |
| `Excerpting.CutsShare` | crates/bran-cli/src/document_evidence.rs:461-473 | every excerpt is cut at its own limit or at what the earlier ones left, whichever is less |
| `Excerpting.ExcerptsExactly` | crates/bran-cli/src/document_evidence.rs:461-473 | every excerpt is a prefix of its text that fits its limit and, with those before it, the budget; where text was cut off, the next character fitted one of them no more |
| `Excerpting.CutShort` | crates/bran-cli/src/document_evidence.rs:472 | an excerpt has fewer bytes than its text exactly when it differs from it |
| `Excerpting.LimitsKept` | crates/bran-cli/src/main.rs:3152-3175 | with all excerpts, the token estimate is within the ceiling if and only if the packet alone fits it, and likewise for the byte limit |
| `Excerpting.RemainingExactly` | crates/bran-cli/src/main.rs:3152-3159 | the budget is the greatest that keeps the byte limit, in encoded and raw form, and the token ceiling |
| `Discovery.FormatExactly` | crates/bran-cli/src/document_evidence.rs:28-37 | a path has a format if and only if it ends in a dot and `docx`, `xlsx`, `pptx` or `pdf`, in any case |
| `Discovery.DocumentsExactly` | crates/bran-cli/src/document_evidence.rs:80-131 | the recursive listing holds exactly the documents that a trail of named entries leads to, through readable directories at most 64 deep: the path is the names of the trail joined with slashes, no path on the way is ignored, and the ending gives the format |
| `Discovery.Walk` | crates/bran-cli/src/document_evidence.rs:86-131 | the walk over the explicit stack ends and finds what the recursive listing finds, in whatever order directories are read |
| `Discovery.Discover` | crates/bran-cli/src/document_evidence.rs:80-137 | returns the least 64 documents in order; returned and omitted add up to the total |
| `Discovery.WantedAreLeast` | crates/bran-cli/src/document_evidence.rs:132-136 | what is returned is at most 64 documents of the tree, in the order of their paths, and precedes everything that is left out |
| `Matches.RankMatches` | crates/bran-cli/src/document_evidence.rs:274-321 | the first 32 matches of that order, and how many are left out |
| `Matches.MatchesExactly` | crates/bran-cli/src/document_evidence.rs:274-321 | exactly the anchors with a score match, and exactly the embedded ones among them are ranked |
| `Matches.MatchesInOrder` | crates/bran-cli/src/document_evidence.rs:274-321 | embedded anchors come first, the greater score first and then by bundle, path and identifier, ranked from one; then the recognised ones by the same keys, without a rank; each as often as it came in |
| `Matches.MatchesOrderIndependent` | crates/bran-cli/src/document_evidence.rs:271-321 | the order is deterministic: it does not depend on how the candidates come in |
| `Locators.ColumnLetters` | crates/bran-cli/src/document_evidence.rs:208-219 | the loop computes the bijective base-26 name of a column |
| `Locators.ColumnRoundTrip` | crates/bran-cli/src/document_evidence.rs:208-219 | decoding a column name gives the column back |
| `Locators.LettersRoundTrip` | crates/bran-cli/src/document_evidence.rs:208-219 | every non-empty string of letters is the name of a column |
| `Locators.LocatorInjective` | crates/bran-cli/src/document_evidence.rs:221-262 | two anchors with the same rendered locator are at the same place, across all families, even when a sheet is named with separators |
| `Locators.CitesExactly` | crates/bran-cli/src/document_evidence.rs:221-262 | what each family is rendered as, in letters and digits, and that a place below one or an empty name falls back to the id |
| `LayoutSink.ReadBox` | tools/ci/document_ai_smoke_adapter.py:93-112 | the box of the least and greatest clamped coordinates |
| `LayoutSink.BoxEncloses` | tools/ci/document_ai_smoke_adapter.py:93-112 | every vertex, moved into the range from 0 to 1,000,000, lies in the box, and on each of its sides lies some vertex |
| `LayoutSink.StripBlank` | tools/ci/document_ai_smoke_adapter.py:251-253 | stripping leaves nothing exactly when a text is blank |
| `LayoutSink.StripExactly` | tools/ci/document_ai_smoke_adapter.py:251-253 | a text is what stripping leaves, with blank text before and after it, and that neither begins nor ends with a space |
| `LayoutSink.LayoutSink.Add` | tools/ci/document_ai_smoke_adapter.py:250-279 | adds one call, or none when the text is blank; all fields are those of the calls made so far |
| `LayoutSink.LayoutSink.Walk` | tools/ci/document_ai_smoke_adapter.py:281-304 | makes exactly the specified calls, in order, whatever the sink holds already |
| `LayoutSink.CallsFollowTrails` | tools/ci/document_ai_smoke_adapter.py:281-304 | every call of the walk is for the last block of a trail of nested blocks: its text, role and box are that block's own, and its page is that of the last block on the trail that starts a page, or the one the walk was given |
| `LayoutSink.TrailsAreFollowed` | tools/ci/document_ai_smoke_adapter.py:281-304 | conversely, a call is made for every block with text at the end of a trail that is a table or has no text nested in it |
| `LayoutSink.RoleExactly` | tools/ci/document_ai_smoke_adapter.py:160-168 | which kinds of text blocks get which role |
| `LayoutSink.AfterSizes` | tools/ci/document_ai_smoke_adapter.py:250-279 | of the calls of `add` that are not blank the first 4096 become anchors, and the others are counted as omitted |
| `LayoutSink.AfterAnchors` | tools/ci/document_ai_smoke_adapter.py:259-275 | the anchors are those of the first 4096 calls, numbered from one |
| `LayoutSink.AnchorExactly` | tools/ci/document_ai_smoke_adapter.py:250-275 | an anchor field by field: page, number, role and box of its call, an identifier that spells page and number, and the text without the space around it, cut to the longest prefix of at most 8192 bytes |
| `LayoutSink.BytesExactly` | tools/ci/document_ai_smoke_adapter.py:250-256 | each call whose text was cut adds the bytes of its text beyond 8192 to those omitted |
| `LayoutSink.AfterFlags` | tools/ci/document_ai_smoke_adapter.py:276-279 | the flags say whether a table or a bounding box was kept |
| `LayoutSink.AnchorsAreUncapped` | tools/ci/document_ai_smoke_adapter.py:281-304 | the kept anchors are those of the walk without a cap, where a block's own text is used only when its nested blocks yield none |
| `LayoutSink.EnvelopeAccepted` | tools/ci/enterprise_contract_check.py:435-456 | for every block tree the sorted anchors pass the validator if and only if there are any and no kept page is beyond 1,000,000 |
| `LayoutSink.BoundedTreeAccepted` | tools/ci/enterprise_contract_check.py:263-281 | a tree with some text and pages up to 1,000,000 yields accepted anchors |
| `LayoutSink.OneBlockAccepted` | tools/ci/enterprise_contract_check.py:263-281 | one block of text is accepted exactly on pages up to 1,000,000 |
| `LayoutSink.ClassifyAnchors` | tools/ci/enterprise_contract_check.py:435-456 | the validator's loop accepts exactly the lists of acceptable anchors with unique identifiers in order |
| `Cycles.BuildOutgoing` | tools/ci/enterprise_contract_check.py:317-321 | the adjacency lists say what the edges say |
| `Cycles.Search.Walk` | tools/ci/enterprise_contract_check.py:325-336 | finds a cycle, or leaves everything it reached finished and on no cycle |
| `Cycles.HasCycle` | tools/ci/enterprise_contract_check.py:317-338 | true if and only if some node reaches itself by a non-empty path |
| `Ustar.WriteOctal` | xtask/src/archive.rs:71-90 | writes the digits and the NUL into its field alone, and fails exactly when the value needs more digits |
| `Ustar.OctalRoundTrip` | xtask/src/archive.rs:71-90 | octal digits denote the value they were written for |
| `Ustar.WriteUstar` | xtask/src/archive.rs:37-69 | writes the specified archive, or fails exactly on a name over 100 bytes or data of 2^33 bytes or more |
| `Ustar.ChecksumFits` | xtask/src/archive.rs:55-58 | the checksum always fits its six digits |
| `Ustar.SumExactly` | xtask/src/archive.rs:55-57 | the checksum adds up all bytes |
| `Ustar.ArchiveRoundTrip` | xtask/src/archive.rs:37-69 | a reader that checks magic, version, checksum and sizes finds a regular file of mode 0755 without owner, group and time, gets the data back, and the name if and only if it holds no NUL; the length is a multiple of 512 |
| `Ustar.HeaderExactly` | xtask/src/archive.rs:44-58 | the header byte for byte, apart from the digits of the size and the checksum |
| `Ustar.ArchiveEnds` | xtask/src/archive.rs:61-67 | what follows the data is zeros, less than a block and two blocks more |
| `Worklist.Dependencies` | deploy/oci/build_image.py:139-149 | ends for every graph with exactly the packages reachable along normal dependencies, and fails only on a reachable package without a node |
| `Boundary.ContainsHomePath` | crates/bran-core/src/boundary.rs:99-115 | the scan that skips behind every hit finds a home path if and only if somewhere in the line `/home/`, `/Users/` or `C:\Users\` is followed by a user, a separator and more text, overlapping occurrences included |
| `Boundary.OverlapCounts` | crates/bran-core/src/boundary.rs:102-112 | when an occurrence that is skipped counts, the one it overlaps does too |
| `Boundary.RunsExactly` | crates/bran-core/src/boundary.rs:145-147 | the parts of a line are exactly its maximal stretches of digits and dots |
| `Boundary.PrivateExactly` | crates/bran-core/src/boundary.rs:147-158 | a stretch counts if and only if it is a dotted quad whose address lies in a block of section 3 of RFC 1918 |
| `Boundary.PrivateNetworkExactly` | crates/bran-core/src/boundary.rs:145-159 | a line is flagged if and only if it has such a stretch |

## Left out

- Symbolic links, inodes, permissions and fsync order in the store: only regular files and directories are modelled, and a crash is the end of a process, not a loss of power.
- Taking the operation lock may fail before anything is done; the text of the result store's lock file and of error envelopes; errors are the values callers distinguish.
- Memory orders weaker than sequential consistency: the cancellation flags are modelled as interleaved single steps.
- AgentRuntime: the worker calls `put_batch` any number of times and reports any outcome.
- The knowledge graph, view compiler, packet assembler, repository scanner and document adapters: their outputs are inputs here, with unique node ids per root.
- Decoding of the evidence file from bytes: the model reads and writes characters and counts their UTF-8 bytes.
- Unicode classes: which characters are alphanumeric is a parameter of the tokenizer that agrees with ASCII on ASCII.
- Scoring.ScoreDocument: which fields `match_reason` names, and the derivation of status, canonical and freshness labels, are not modelled.
- Ignore rules are an arbitrary predicate on relative paths in the directory walk, and whether a directory can be read and lies inside the root is a flag of the directory.
- LayoutSink.ReadBox: takes scaled and rounded integers; rounding of floating-point coordinates is left out.
- The text a table's caption and cells join to is an input of the layout walk, and the digest of an anchor's text is left out; roles are a datatype of the accepted ones.
- The parts of the envelope validator other than the anchor clauses, and the locators of the other families, which the adapter never emits.
- The order of equally named packages in the licence inventory, and the lookup of their licences.
- Excerpting.ExcerptBudget.Take: cuts by a function; that the backing-off loop computes this function is `Utf8Cut.FloorBoundary`.
- Terminal UI, argument dispatch, JSON output, subprocesses, ZIP and gzip writing, credential heuristics and the release validators.
