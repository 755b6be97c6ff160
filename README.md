# HoodieFileSliceReader: merge-on-read reconciliation of one file slice

Apache Hudi stores a merge-on-read table as file slices. A slice has an optional
columnar base file and a set of log files. `HoodieFileSliceReader` gives the merged
view of one slice as an iterator:

- It walks the base file's records in order. For each one it looks up the record key
  in the log scanner's map of pending log records, and the lookup removes the entry.
- A base record whose key has no pending log record is handed out as it is (wrapped
  into a payload).
- Otherwise the merger combines the base record (older) with the log record (newer),
  using payload properties that carry the ordering field when a pre-combine field is
  configured. A merged record is handed out wrapped. An absent result means the key was
  deleted, and nothing is handed out for it.
- Once the base file is exhausted, or when there is none, the log records still
  pending are handed out by the parent log iterator.
- A failed wrap raises `HoodieIOException` with a fixed message prefix.
- `close` closes the scanner side, then the base-file iterator and the base-file reader
  when they exist.

The model has these modules:

- `Wrappers`: `Option` and `Result`.
- `Collaborators`: keys, properties, the payload properties built by the constructor,
  and the wrap step. The key extractor, merger and wrap step are functions fixed at
  construction (`Context`).
- `SliceMerge`: the reconciliation stated on values. `Pending` is the pending map after
  `n` base records have been looked up. `StepAt` and `CallAt` are what base record `p`
  emits and which merger call it makes. `BaseEmissions` and `BaseMergeCalls` hold the
  whole base phase. This module also holds the lemmas about that output and the
  reader's state invariant.
- `FileSliceReader`: the reader as a class. It has the base cursor (`pos` into the base
  file's records), the live pending map `records`, the
  single-slot buffer `nextRecord`, and a log of closes. Ghost fields trace everything
  emitted, every merger call and the tail's emissions. An emission is either a record
  put into the buffer or the error raised in its place when wrapping fails, which
  hands nothing out. `DoHasNext` is the source's
  `while` loop. One turn of the loop is the method `ReadBaseRecord`, and the tail
  phase is `TailHasNext`. The constructor establishes `Valid()`, which ties the fields
  to the `SliceMerge` functions, and `DoHasNext`, `ReadBaseRecord` and `TailHasNext`
  keep it, so the lemmas proved there apply to every state those members reach.
  `RemoveLogRecord` is the lookup used inside one loop turn; on its own it does not
  keep `Valid()`. `Close` touches only the log of closes.
- `Scenario`: a worked instance with three base rows. The log holds an update, an
  insert and a delete.

The source cells cite
`hudi-common/src/main/java/org/apache/hudi/common/table/log/HoodieFileSliceReader.java`.

## Model

| member | source | states |
|---|---|---|
| Collaborators.PayloadProps | hudi-common/src/main/java/org/apache/hudi/common/table/log/HoodieFileSliceReader.java:63-65 | the merge properties hold the ordering-field key exactly when a pre-combine field is given, with that field as its value, and nothing else |
| Collaborators.Wrap | hudi-common/src/main/java/org/apache/hudi/common/table/log/HoodieFileSliceReader.java:79-91 | wrapping succeeds with the wrapped record exactly when the wrap step does; a failed wrap becomes a `HoodieIOException` whose message is the fixed prefix followed by the IOException's message |
| SliceMerge.Pending | hudi-common/src/main/java/org/apache/hudi/common/table/log/HoodieFileSliceReader.java:77 | the pending map after any number of lookups is a sub-map of the scanner's map (same values) |
| SliceMerge.PendingIsDifference | hudi-common/src/main/java/org/apache/hudi/common/table/log/HoodieFileSliceReader.java:73-77 | after `n` base records the pending map is the scanner's map minus the keys of those `n` records |
| SliceMerge.PendingShrinks | hudi-common/src/main/java/org/apache/hudi/common/table/log/HoodieFileSliceReader.java:73-77 | destructive lookup: the pending map only shrinks as the cursor advances, keeps its values, and has lost every key already read, merged, passed through or deleted alike |
| SliceMerge.PendingAtOwnKey | hudi-common/src/main/java/org/apache/hudi/common/table/log/HoodieFileSliceReader.java:76-78 | with distinct base keys, a base record finds a pending log record exactly when the scanner's map has its key |
| SliceMerge.BaseEmissionsAreSteps | hudi-common/src/main/java/org/apache/hudi/common/table/log/HoodieFileSliceReader.java:73-89 | every base-phase emission is the step result of one base record already read |
| SliceMerge.BaseEmissionsInOrder | hudi-common/src/main/java/org/apache/hudi/common/table/log/HoodieFileSliceReader.java:73-75 | base-phase emissions come in strictly increasing base-cursor positions |
| SliceMerge.BaseEmissionPositions | hudi-common/src/main/java/org/apache/hudi/common/table/log/HoodieFileSliceReader.java:73-89 | the base positions emitted are exactly those whose step emits |
| SliceMerge.BaseEmissionKeys | hudi-common/src/main/java/org/apache/hudi/common/table/log/HoodieFileSliceReader.java:76-89 | with distinct base keys, the keys emitted by the base phase are the keys read minus the deleted ones |
| SliceMerge.BaseEmissionsDistinct | hudi-common/src/main/java/org/apache/hudi/common/table/log/HoodieFileSliceReader.java:76-89 | with distinct base keys, the base phase emits no key twice |
| SliceMerge.BaseDerivedEmissions | hudi-common/src/main/java/org/apache/hudi/common/table/log/HoodieFileSliceReader.java:78-89 | for any base file, every base-phase emission carries its base record's key; it is merged exactly when the key is still in the live map when that record is read, and then the scanner's map has it; unmerged it is the base record wrapped, merged it is the wrapped merge of base record (older) and log record (newer), and that merge was present |
| SliceMerge.MergedExactlyWhenLogged | hudi-common/src/main/java/org/apache/hudi/common/table/log/HoodieFileSliceReader.java:77-83 | with distinct base keys, a base-phase emission is merged exactly when the scanner's map had its key |
| SliceMerge.BaseCoverage | hudi-common/src/main/java/org/apache/hudi/common/table/log/HoodieFileSliceReader.java:84-89 | the base positions emitted are exactly the positions that are not deleted |
| SliceMerge.EmptyLogIsPassThrough | hudi-common/src/main/java/org/apache/hudi/common/table/log/HoodieFileSliceReader.java:77-81 | with no pending log records, the base phase emits every base record's wrap outcome, unmerged and in order, and calls the merger zero times |
| SliceMerge.BaseMergeCallsAreSteps | hudi-common/src/main/java/org/apache/hudi/common/table/log/HoodieFileSliceReader.java:83 | every merger call is the call of one base record already read |
| SliceMerge.BaseMergeCallsInOrder | hudi-common/src/main/java/org/apache/hudi/common/table/log/HoodieFileSliceReader.java:73-83 | merger calls come in strictly increasing base positions |
| SliceMerge.BaseMergeCallPositions | hudi-common/src/main/java/org/apache/hudi/common/table/log/HoodieFileSliceReader.java:77-83 | the merger is called for exactly the base positions whose key is pending when read |
| SliceMerge.MergeDirection | hudi-common/src/main/java/org/apache/hudi/common/table/log/HoodieFileSliceReader.java:83 | every merger call passes the base record as older and the scanner's log record of the same key as newer, with the payload properties; calls follow base order; a pass-through record has no call |
| SliceMerge.DrainStep | hudi-common/src/main/java/org/apache/hudi/common/table/log/HoodieFileSliceReader.java:94 | handing out one more pending entry keeps the tail a duplicate-free drain of the pending map and removes exactly that key from what is left |
| SliceMerge.InvariantInit | hudi-common/src/main/java/org/apache/hudi/common/table/log/HoodieFileSliceReader.java:69 | a fresh reader, with the scanner's map and nothing read, satisfies the reader invariant |
| SliceMerge.InvariantBaseStep | hudi-common/src/main/java/org/apache/hudi/common/table/log/HoodieFileSliceReader.java:74-89 | reading the base record under the cursor: the live map decides pass-through (no call), merge or delete, and the invariant holds one position further with the key removed and the step's emission and call appended |
| SliceMerge.InvariantTailStep | hudi-common/src/main/java/org/apache/hudi/common/table/log/HoodieFileSliceReader.java:94 | handing out a live entry in the tail phase keeps the invariant with that key removed |
| SliceMerge.ExactlyOnce | hudi-common/src/main/java/org/apache/hudi/common/table/log/HoodieFileSliceReader.java:72-95 | with distinct base keys, the full output emits (as a record or as the error raised for it) exactly the keys of the base file and of the scanner's map, minus the deleted ones, each exactly once |
| SliceMerge.DeleteSuppression | hudi-common/src/main/java/org/apache/hudi/common/table/log/HoodieFileSliceReader.java:84-89 | with distinct base keys, a deleted key is emitted by neither the base phase nor the tail |
| SliceMerge.Ordering | hudi-common/src/main/java/org/apache/hudi/common/table/log/HoodieFileSliceReader.java:72-94 | base-derived emissions come first and in base order; tail emissions come after all of them |
| FileSliceReader.CloseOrder | hudi-common/src/main/java/org/apache/hudi/common/table/log/HoodieFileSliceReader.java:102-111 | the scanner side is closed first; the base-file iterator and reader are closed exactly when a base file is present, the iterator before the reader, none twice |
| FileSliceReader.HoodieFileSliceReader.constructor | hudi-common/src/main/java/org/apache/hudi/common/table/log/HoodieFileSliceReader.java:51-70 | the reader starts at the head of the base cursor (present exactly when the base file is), with the scanner's map as its live map, the payload properties of the pre-combine field, an empty buffer and nothing closed |
| FileSliceReader.HoodieFileSliceReader.RemoveLogRecord | hudi-common/src/main/java/org/apache/hudi/common/table/log/HoodieFileSliceReader.java:77 | the lookup answers the live entry of the key, if any, and removes that key from the live map |
| FileSliceReader.HoodieFileSliceReader.DoHasNext | hudi-common/src/main/java/org/apache/hudi/common/table/log/HoodieFileSliceReader.java:72-100 | keeps the invariant; the live map only loses keys; `Ok(false)` exactly when base cursor and live map are both exhausted and nothing was emitted; otherwise exactly one emission was added and the call made progress (cursor advanced or a key removed); `Ok(true)` leaves that emission's record in the buffer, an error is that emission's error and leaves the buffer alone |
| FileSliceReader.HoodieFileSliceReader.ReadBaseRecord | hudi-common/src/main/java/org/apache/hudi/common/table/log/HoodieFileSliceReader.java:74-92 | one loop turn: the cursor advances by one, the record's key leaves the live map, the emission and merger call appended are that position's `StepAt` and `CallAt`, and the call ends exactly when the step emits |
| FileSliceReader.HoodieFileSliceReader.TailHasNext | hudi-common/src/main/java/org/apache/hudi/common/table/log/HoodieFileSliceReader.java:94 | answers `true` exactly when a live entry is left; then it hands out one such entry unchanged, buffers it and removes it; otherwise nothing changes |
| FileSliceReader.HoodieFileSliceReader.Close | hudi-common/src/main/java/org/apache/hudi/common/table/log/HoodieFileSliceReader.java:102-111 | appends exactly the closes of `CloseOrder` for this reader |
| FileSliceReader.HoodieFileSliceReader.Exhausted | hudi-common/src/main/java/org/apache/hudi/common/table/log/HoodieFileSliceReader.java:72-95 | once the reader has answered `false` (distinct base keys), it has emitted (as a record or as the error raised for it) every key of the base file and of the scanner's map except the deleted ones, each exactly once, base-derived first in base order, and its merger calls are those of the base phase |
| FileSliceReader.HoodieFileSliceReader.LiveRecordsAreScannerRecords | hudi-common/src/main/java/org/apache/hudi/common/table/log/HoodieFileSliceReader.java:69-77 | in every reachable state the live map is a sub-map of the scanner's map, holding no key of a base record already read nor of a record the tail handed out |
| FileSliceReader.HoodieFileSliceReader.NoBaseFileIsTailOnly | hudi-common/src/main/java/org/apache/hudi/common/table/log/HoodieFileSliceReader.java:56-60 | a reader without a base file never calls the merger, and all it has emitted is an unchanged, duplicate-free part of the scanner's map, which the live map no longer holds |
| Scenario.ScenarioOutcome | hudi-common/src/main/java/org/apache/hudi/common/table/log/HoodieFileSliceReader.java:72-94 | base k1 k2 k3, log update k2, insert k4, delete k3: k1 passes through, k2 is emitted merged, k3 is suppressed after one merger call, and only k4 is left for the tail |
| Scenario.ScenarioTail | hudi-common/src/main/java/org/apache/hudi/common/table/log/HoodieFileSliceReader.java:94 | in the same instance, whatever order the tail takes, it hands out exactly the k4 log row, unchanged, and nothing else |

## Left out

- Avro schemas, key generators, the record merger's strategies and the wrap step's
  parameters are not modelled. The key extractor, merger and wrap step are arbitrary
  functions supplied at construction.
- All file I/O is left out, including the IOException that opening the base-file
  iterator can raise in the constructor. The base file is its sequence of records.
- The parent class `LogFileIterator` is not part of this model. Its lookup
  (`removeLogRecord`) is modelled as removal from the live map. Its `doHasNext`, the
  tail phase, is modelled as handing out any one live entry, unchanged and not
  wrapped, and removing it. The order is unknown and the model leaves it free. Its
  `hasNext`/`next` buffering and its `close` are also left out: `close` is recorded
  only as the close of the scanner side.
- An IOException thrown by the merger is caught by the same block as a failed wrap.
  It is not modelled, because the merger's contract is not part of the source here.
- After a wrap failure the model records the error emission and leaves the reader
  usable. The source has no poisoning logic either.
- Closing: the closes are not guarded in the code, so a close that throws skips the
  later ones, and a second `close` repeats every close. Exceptions from the closes are
  not modelled; the model records every close on each call and claims no idempotence.
- FileSliceReader.HoodieFileSliceReader.DoHasNext: progress is stated as "cursor advanced or live key set strictly smaller"
  rather than as a count of remaining records.
- SliceMerge.ExactlyOnce, SliceMerge.DeleteSuppression,
  SliceMerge.MergedExactlyWhenLogged and FileSliceReader.HoodieFileSliceReader.Exhausted
  assume that the base file's record keys are distinct. The reader does not check this and nothing in it relies on it.
  With a repeated base key, the second occurrence no longer finds the log record and
  passes through, so a key the log deletes comes back.
- The live map: the class's own `records` field is set at construction and not read
  again. The lookup and the tail are inherited and work on the parent iterator's map,
  which is the same map, taken from the scanner. The model's single `records` field
  stands for that shared map and holds it as a value, so the scanner's own view of the
  consumed map is not modelled.
- The configuration test `TestHoodieTimeGeneratorConfig.java` is unrelated to the
  reader and is not modelled.
