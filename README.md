# Delta Lake transaction log synchronizers, modelled in Dafny

Trino's Delta Lake connector commits a table version by creating the next
transaction log entry file. Two strategies for that write are modelled here.

- **NoIsolationSynchronizer** does one exclusive create of the entry and
  nothing else.
- **S3TransactionLogSynchronizer** puts a lock-file protocol around that
  create, for object stores that cannot create a file exclusively. The
  protocol runs in seven steps:
  1. Check that the entry is absent.
  2. List the `_sb_lock` directory beside the entry and scan the locks in
     listing order. Delete every lock that has expired. Remember a live
     lock that claims the same entry; a second one is an invariant
     violation and stops the scan. After the scan, a remembered live lock
     is a conflict.
  3. Create this writer's own lock file,
     `<entry>.sb-lock_<queryId>`, holding the cluster id, the query id
     and an expiry five minutes ahead.
  4. List the directory again. Any other lock for the entry is a conflict.
  5. Check again that the entry is absent.
  6. Create the entry.
  7. In a `finally` block, delete this writer's own lock and swallow any
     failure of that delete.

## How the model is built

- **The store** (`object_store.dfy`). An in-memory object store, the class
  `ObjectStore.Store`, holds a map from paths to blobs and a log of every
  request with whether it succeeded. Its behaviour is defined once, as pure
  functions `DoExists`, `DoCreate`, `DoOpen`, `DoDelete` and
  `DoList` over a `State`. Each method of the class is proved to compute
  its function. The environment `Env` fixes three things:
  - which requests fail with an IO error, by their position in the log,
    so any request of any call can fail;
  - the files other writers create or delete just before a given request,
    which is how concurrency enters;
  - the order in which a directory is listed.
  A blob is either raw bytes or a serialised lock record. The JSON codec
  is abstracted: reading a raw-bytes blob as a lock is a decoding failure.
- **The clock** (`time.dfy`). `Time.Clock` is the wall clock, a fixed
  sequence of nanosecond readings taken one after another.
- **Lock filenames** (`lock_records.dfy`). The lock filename, its pattern
  `(.*)\.sb-lock_.*` under `Matcher.matches()`, and the expiry
  arithmetic. The pattern's `.` matches no line terminator, and group 1
  is greedy: it ends at the last `.sb-lock_`.
- **The protocol** (`s3_lock_protocol.dfy`). The lock protocol as pure
  functions, one per step of `write`.
- **The imperative code** (`s3_transaction_log_synchronizer.dfy` and
  `no_isolation_synchronizer.dfy`). The synchronizers as methods over the
  store and the clock, with the source's loops. Each method is proved to
  compute the protocol function for its step.
- **The properties** (`s3_lock_properties.dfy`). What the protocol
  guarantees, stated and proved over the protocol functions.

## Behaviour of the source worth noting

The model keeps each of these behaviours of the source.

- The second listing ignores expiry. Any other lock for the entry is a
  conflict, however old it is.
- An entry that appears during locking is an `IllegalStateException`
  thrown by `checkState`. It is not a conflict.
- Both strategies' `isUnsafe` return `true`.
- `write` ends in one of five ways: success, a conflict, an illegal
  state, an IO error, or an illegal argument. The illegal argument is the
  `LockInfo` constructor rejecting this writer's own lock filename. The
  model includes that last case; see `AcquireLock` below.

## Model

| member | source | states |
|---|---|---|
| LockRecords.ParseEntryFilename | plugin/trino-delta-lake/src/main/java/io/trino/plugin/deltalake/transactionlog/writer/S3TransactionLogSynchronizer.java:233-240 | a name parses exactly when it is a single line containing `.sb-lock_`; the result is the prefix before the last such marker |
| LockRecords.LockFilename | plugin/trino-delta-lake/src/main/java/io/trino/plugin/deltalake/transactionlog/writer/S3TransactionLogSynchronizer.java:173 | no contract of its own: `<entry>.sb-lock_<queryId>`; `LockFilenameMatches` and `LockFilenameRoundTrip` state its properties |
| LockRecords.NewLockInfo | plugin/trino-delta-lake/src/main/java/io/trino/plugin/deltalake/transactionlog/writer/S3TransactionLogSynchronizer.java:248-253 | the `LockInfo` constructor keeps the name and the contents; the entry is the prefix of the name up to its last marker |
| LockRecords.ExpiredAt | plugin/trino-delta-lake/src/main/java/io/trino/plugin/deltalake/transactionlog/writer/S3TransactionLogSynchronizer.java:93 | no contract of its own: the expiry instant lies strictly before the reading; `FreshLockLifetime` states when a fresh lock is live |
| LockRecords.ExpirationMillis | plugin/trino-delta-lake/src/main/java/io/trino/plugin/deltalake/transactionlog/writer/S3TransactionLogSynchronizer.java:174-175 | the expiry in milliseconds is the reading plus five minutes, rounded down to a whole millisecond |
| LockRecords.LockFilenameMatches | plugin/trino-delta-lake/src/main/java/io/trino/plugin/deltalake/transactionlog/writer/S3TransactionLogSynchronizer.java:173-181 | the marker of a built lock filename sits right after the entry name; with single-line parts the name matches the pattern, so the `LockInfo` constructor accepts it |
| LockRecords.LockFilenameRoundTrip | plugin/trino-delta-lake/src/main/java/io/trino/plugin/deltalake/transactionlog/writer/S3TransactionLogSynchronizer.java:248-251 | parsing the lock filename built from an entry and a query id gives back the entry, when both are single lines and the query id holds no marker |
| LockRecords.FreshLockLifetime | plugin/trino-delta-lake/src/main/java/io/trino/plugin/deltalake/transactionlog/writer/S3TransactionLogSynchronizer.java:174-175 | a lock written at reading `now` is live at every reading up to five minutes later, less the millisecond lost to rounding down, and expired after five minutes |
| ObjectStore.Store.Exists | plugin/trino-delta-lake/src/main/java/io/trino/plugin/deltalake/transactionlog/writer/S3TransactionLogSynchronizer.java:85 | `exists` reports whether the path holds a file, or fails with an IO error |
| ObjectStore.Store.Create | plugin/trino-delta-lake/src/main/java/io/trino/plugin/deltalake/transactionlog/writer/S3TransactionLogSynchronizer.java:140-142 | `create(path, false)` fails on an existing file and never overwrites it; otherwise it adds the file |
| ObjectStore.Store.Open | plugin/trino-delta-lake/src/main/java/io/trino/plugin/deltalake/transactionlog/writer/S3TransactionLogSynchronizer.java:212-213 | `open` returns the file, a not-found error for a missing key, or an IO error |
| ObjectStore.Store.Delete | plugin/trino-delta-lake/src/main/java/io/trino/plugin/deltalake/transactionlog/writer/S3TransactionLogSynchronizer.java:187-188 | `delete(path, false)` removes the file; a missing file is not an error |
| ObjectStore.Store.List | plugin/trino-delta-lake/src/main/java/io/trino/plugin/deltalake/transactionlog/writer/S3TransactionLogSynchronizer.java:194 | `listFiles` yields the names directly inside the directory, in the store's order |
| Time.Clock.Now | plugin/trino-delta-lake/src/main/java/io/trino/plugin/deltalake/transactionlog/writer/S3TransactionLogSynchronizer.java:174 | each `Instant.now()` returns the next reading of the clock |
| S3LockProtocol.ReadLockFile | plugin/trino-delta-lake/src/main/java/io/trino/plugin/deltalake/transactionlog/writer/S3TransactionLogSynchronizer.java:208-231 | the result is no lock if and only if the file is missing or will not decode; an error if and only if the open fails, and that error is propagated; otherwise it is the decoded record, named after the file |
| S3LockProtocol.ReadLocks | plugin/trino-delta-lake/src/main/java/io/trino/plugin/deltalake/transactionlog/writer/S3TransactionLogSynchronizer.java:197-203 | no contract of its own: the read loop over the listed names; `ReadLocksReadsOnly`, `ReadLocksClosed`, `RecordsSound` and `RecordsComplete` state its properties |
| S3LockProtocol.ListLockInfos | plugin/trino-delta-lake/src/main/java/io/trino/plugin/deltalake/transactionlog/writer/S3TransactionLogSynchronizer.java:191-206 | no contract of its own: one listing, then the read loop; `ListLockInfosReadsOnly` and `ListLockInfosClosed` state its properties |
| S3LockProtocol.LockDirectory | plugin/trino-delta-lake/src/main/java/io/trino/plugin/deltalake/transactionlog/writer/S3TransactionLogSynchronizer.java:80 | no contract of its own: the `_sb_lock` directory beside the entry |
| S3LockProtocol.FirstScan | plugin/trino-delta-lake/src/main/java/io/trino/plugin/deltalake/transactionlog/writer/S3TransactionLogSynchronizer.java:91-108 | no contract of its own: the first scan; `FirstScanShape`, `FirstScanDeletesOnlyExpired`, `FirstScanDeletesEveryExpired`, `FirstScanVerdict` and `FirstScanClosed` state its properties |
| S3LockProtocol.AcquireLock | plugin/trino-delta-lake/src/main/java/io/trino/plugin/deltalake/transactionlog/writer/S3TransactionLogSynchronizer.java:170-182 | exactly one create of `<entry>.sb-lock_<queryId>` with the cluster id, the query id and the expiry from the one reading taken; the returned lock carries that name and those contents; it ends with an IO error or an illegal argument otherwise, and never with an illegal argument for single-line names |
| S3LockProtocol.FirstOtherLock | plugin/trino-delta-lake/src/main/java/io/trino/plugin/deltalake/transactionlog/writer/S3TransactionLogSynchronizer.java:123-126 | returns the first listed lock for the entry with a name other than this writer's; returns none exactly when no such lock exists |
| S3LockProtocol.VerifyAndCommit | plugin/trino-delta-lake/src/main/java/io/trino/plugin/deltalake/transactionlog/writer/S3TransactionLogSynchronizer.java:121-134 | a conflict if and only if the second listing succeeds and holds another lock for the entry, whatever its expiry; the conflict reports the first such lock, and nothing is requested after that listing |
| S3LockProtocol.Commit | plugin/trino-delta-lake/src/main/java/io/trino/plugin/deltalake/transactionlog/writer/S3TransactionLogSynchronizer.java:137-142 | success only with the entry holding exactly the given bytes after an existence check and one exclusive create; an entry present at the re-check is an illegal state, with no create requested; never a conflict |
| S3LockProtocol.Attempt | plugin/trino-delta-lake/src/main/java/io/trino/plugin/deltalake/transactionlog/writer/S3TransactionLogSynchronizer.java:84-146 | no contract of its own: the `try` block; `AttemptMeetsContract` states its properties, and `LockedPhaseMeetsContract` and `ListedPhaseMeetsContract` those of its phases |
| S3LockProtocol.AttemptFromListing | plugin/trino-delta-lake/src/main/java/io/trino/plugin/deltalake/transactionlog/writer/S3TransactionLogSynchronizer.java:89-118 | no contract of its own: the `try` block from the first listing on; `ListedPhaseMeetsContract` states its properties |
| S3LockProtocol.AttemptFromLock | plugin/trino-delta-lake/src/main/java/io/trino/plugin/deltalake/transactionlog/writer/S3TransactionLogSynchronizer.java:119-142 | no contract of its own: the `try` block from `writeNewLockInfo` on; `LockedPhaseMeetsContract` states its properties |
| S3LockProtocol.Write | plugin/trino-delta-lake/src/main/java/io/trino/plugin/deltalake/transactionlog/writer/S3TransactionLogSynchronizer.java:77-158 | no contract of its own: the `try` block, then `finally`; `OwnLockReleased`, `WriteHonoursContract`, `TargetPresentConflicts`, `FirstScanDecidesWrite` and `SoleWriterCommits` state its properties |
| S3LockProperties.ReadLocksReadsOnly | plugin/trino-delta-lake/src/main/java/io/trino/plugin/deltalake/transactionlog/writer/S3TransactionLogSynchronizer.java:197-203 | the read loop appends only read requests: existence checks, opens or listings |
| S3LockProperties.ListLockInfosReadsOnly | plugin/trino-delta-lake/src/main/java/io/trino/plugin/deltalake/transactionlog/writer/S3TransactionLogSynchronizer.java:191-206 | `listLockInfos` only lists and reads |
| S3LockProperties.FirstScanShape | plugin/trino-delta-lake/src/main/java/io/trino/plugin/deltalake/transactionlog/writer/S3TransactionLogSynchronizer.java:91-108 | the first scan only appends requests, takes at most one clock reading per lock, and ends early only with an IO error or an illegal state |
| S3LockProperties.FirstScanDeletesOnlyExpired | plugin/trino-delta-lake/src/main/java/io/trino/plugin/deltalake/transactionlog/writer/S3TransactionLogSynchronizer.java:91-108 | the first scan requests only deletions, each of a listed lock expired at the reading taken for it; it takes at most one reading per lock; it ends early only with an IO error or an illegal state |
| S3LockProperties.FirstScanDeletesEveryExpired | plugin/trino-delta-lake/src/main/java/io/trino/plugin/deltalake/transactionlog/writer/S3TransactionLogSynchronizer.java:91-96 | in any environment, a first scan that lets the writer go on has deleted, with success, every listed lock expired at the reading taken for it |
| S3LockProperties.FirstScanVerdict | plugin/trino-delta-lake/src/main/java/io/trino/plugin/deltalake/transactionlog/writer/S3TransactionLogSynchronizer.java:91-108 | with no failing deletion: no live lock for the entry lets the writer go on, one live lock is returned, and two or more are an invariant violation naming the first two |
| S3LockProperties.FirstScanDecidesWrite | plugin/trino-delta-lake/src/main/java/io/trino/plugin/deltalake/transactionlog/writer/S3TransactionLogSynchronizer.java:89-118 | `write` ends with that invariant violation, or with a conflict reporting the single live lock's contents, without ever creating its own lock; with no live lock it requests its lock |
| S3LockProperties.TargetPresentConflicts | plugin/trino-delta-lake/src/main/java/io/trino/plugin/deltalake/transactionlog/writer/S3TransactionLogSynchronizer.java:85-87 | an entry already present is a conflict after the single existence check; no lock is read, created or deleted |
| S3LockProperties.CommitMeetsContract | plugin/trino-delta-lake/src/main/java/io/trino/plugin/deltalake/transactionlog/writer/S3TransactionLogSynchronizer.java:136-142 | the re-check and the commit request only the entry, and meet the shared write contract on their own |
| S3LockProperties.VerifyAndCommitMeetsContract | plugin/trino-delta-lake/src/main/java/io/trino/plugin/deltalake/transactionlog/writer/S3TransactionLogSynchronizer.java:120-142 | the second listing and the commit meet the shared contract and create no file other than the entry |
| S3LockProperties.LockedPhaseMeetsContract | plugin/trino-delta-lake/src/main/java/io/trino/plugin/deltalake/transactionlog/writer/S3TransactionLogSynchronizer.java:117-142 | from `writeNewLockInfo` on, the `try` block meets the shared contract; a lock it hands to `finally` is this writer's own; with single-line names, it hands one over whenever it created one |
| S3LockProperties.ListedPhaseMeetsContract | plugin/trino-delta-lake/src/main/java/io/trino/plugin/deltalake/transactionlog/writer/S3TransactionLogSynchronizer.java:89-142 | the same from the first listing on, for every way the listing and the first scan can end |
| S3LockProperties.AttemptMeetsContract | plugin/trino-delta-lake/src/main/java/io/trino/plugin/deltalake/transactionlog/writer/S3TransactionLogSynchronizer.java:84-146 | the `try` block meets the shared contract; with single-line names, if it created this writer's lock it hands that lock to `finally` |
| S3LockProperties.OwnLockReleased | plugin/trino-delta-lake/src/main/java/io/trino/plugin/deltalake/transactionlog/writer/S3TransactionLogSynchronizer.java:147-157 | `write` reports exactly what the `try` block ended with, whether or not the lock deletion fails; a lock this call created is deleted by its last request |
| S3LockProperties.SecondListingFailureReleases | plugin/trino-delta-lake/src/main/java/io/trino/plugin/deltalake/transactionlog/writer/S3TransactionLogSynchronizer.java:121-157 | reachability, in an empty store whose fourth request fails: the second listing fails after the own lock exists, `write` ends with that IO error, and the lock is deleted |
| S3LockProperties.RecheckFailureReleases | plugin/trino-delta-lake/src/main/java/io/trino/plugin/deltalake/transactionlog/writer/S3TransactionLogSynchronizer.java:137-157 | reachability, in an empty store whose sixth request fails: the re-check fails after the own lock exists, `write` ends with that IO error, and the lock is deleted |
| S3LockProperties.WriteHonoursContract | plugin/trino-delta-lake/src/main/java/io/trino/plugin/deltalake/transactionlog/writer/S3TransactionLogSynchronizer.java:77-158 | `write` succeeds exactly when an exclusive create of the entry with exactly its contents goes through; every create of the entry carries those contents; the entry is never deleted |
| S3LockProperties.ReadLocksClosed | plugin/trino-delta-lake/src/main/java/io/trino/plugin/deltalake/transactionlog/writer/S3TransactionLogSynchronizer.java:197-203 | with nobody else writing and nothing failing, the read loop yields the lock records among the listed names and changes no file |
| S3LockProperties.RecordsSound | plugin/trino-delta-lake/src/main/java/io/trino/plugin/deltalake/transactionlog/writer/S3TransactionLogSynchronizer.java:199-201 | every lock read back is a lock file of the directory, with its recorded contents and its parsed entry |
| S3LockProperties.RecordsComplete | plugin/trino-delta-lake/src/main/java/io/trino/plugin/deltalake/transactionlog/writer/S3TransactionLogSynchronizer.java:197-203 | every lock record whose name is listed is read back |
| S3LockProperties.FirstScanClosed | plugin/trino-delta-lake/src/main/java/io/trino/plugin/deltalake/transactionlog/writer/S3TransactionLogSynchronizer.java:91-108 | with nobody else writing and nothing failing, a first scan that lets the writer go on deletes exactly the locks expired at their readings |
| S3LockProperties.AloneScanProceeds | plugin/trino-delta-lake/src/main/java/io/trino/plugin/deltalake/transactionlog/writer/S3TransactionLogSynchronizer.java:91-117 | for a writer alone whose entry holds only expired locks, the first scan lets the writer go on |
| S3LockProperties.AloneScanClears | plugin/trino-delta-lake/src/main/java/io/trino/plugin/deltalake/transactionlog/writer/S3TransactionLogSynchronizer.java:92-96 | that scan deletes every lock for the entry and every lock already expired, and nothing but lock records of the directory |
| S3LockProperties.AloneSecondScan | plugin/trino-delta-lake/src/main/java/io/trino/plugin/deltalake/transactionlog/writer/S3TransactionLogSynchronizer.java:121-134 | after that scan and the writer's own lock, the second listing finds no competitor |
| S3LockProperties.AcquireAlone | plugin/trino-delta-lake/src/main/java/io/trino/plugin/deltalake/transactionlog/writer/S3TransactionLogSynchronizer.java:170-182 | with nobody else writing and no failure, `writeNewLockInfo` creates exactly this writer's lock file, with the expiry from its one reading, and returns a lock of that name |
| S3LockProperties.AloneCommit | plugin/trino-delta-lake/src/main/java/io/trino/plugin/deltalake/transactionlog/writer/S3TransactionLogSynchronizer.java:120-142 | with nobody else writing, no failure, no competitor and no entry yet, the second listing leads to the commit, and the entry then holds exactly its bytes |
| S3LockProperties.AttemptAlone | plugin/trino-delta-lake/src/main/java/io/trino/plugin/deltalake/transactionlog/writer/S3TransactionLogSynchronizer.java:84-142 | a writer alone that the first scan lets go on and the second listing finds unrivalled succeeds; the files are the first scan's plus its lock and the entry |
| S3LockProperties.WriteReleases | plugin/trino-delta-lake/src/main/java/io/trino/plugin/deltalake/transactionlog/writer/S3TransactionLogSynchronizer.java:147-157 | with nobody else writing and no failure, `finally` removes exactly the lock the `try` block created and reports the `try` block's outcome |
| S3LockProperties.AloneWriteFromScans | plugin/trino-delta-lake/src/main/java/io/trino/plugin/deltalake/transactionlog/writer/S3TransactionLogSynchronizer.java:77-158 | such a writer succeeds and ends with the first scan's files plus the entry and without its own lock |
| S3LockProperties.AloneScansReady | plugin/trino-delta-lake/src/main/java/io/trino/plugin/deltalake/transactionlog/writer/S3TransactionLogSynchronizer.java:89-134 | a writer alone whose entry holds only expired locks gets through both scans, so the lemmas above apply to it |
| S3LockProperties.AloneWrite | plugin/trino-delta-lake/src/main/java/io/trino/plugin/deltalake/transactionlog/writer/S3TransactionLogSynchronizer.java:77-158 | a writer alone succeeds, and its files are the old ones minus the expired locks, plus the entry |
| S3LockProperties.SoleWriterCommits | plugin/trino-delta-lake/src/main/java/io/trino/plugin/deltalake/transactionlog/writer/S3TransactionLogSynchronizer.java:77-158 | a writer alone succeeds: the entry holds exactly its bytes; no lock of its own remains; every expired lock is collected; nothing else is created or changed; only lock records are deleted |
| S3TransactionLogSynchronizer.IsUnsafe | plugin/trino-delta-lake/src/main/java/io/trino/plugin/deltalake/transactionlog/writer/S3TransactionLogSynchronizer.java:70-74 | the lock-file strategy reports itself unsafe |
| S3TransactionLogSynchronizer.ParseLockFile | plugin/trino-delta-lake/src/main/java/io/trino/plugin/deltalake/transactionlog/writer/S3TransactionLogSynchronizer.java:208-231 | the method computes `ReadLockFile`, request by request |
| S3TransactionLogSynchronizer.ListLockInfos | plugin/trino-delta-lake/src/main/java/io/trino/plugin/deltalake/transactionlog/writer/S3TransactionLogSynchronizer.java:191-206 | the loop computes `ListLockInfos`: the listed lock records in listing order, or the first IO error |
| S3TransactionLogSynchronizer.DeleteLock | plugin/trino-delta-lake/src/main/java/io/trino/plugin/deltalake/transactionlog/writer/S3TransactionLogSynchronizer.java:184-189 | removes exactly the lock's file in the lock directory |
| S3TransactionLogSynchronizer.WriteNewLockInfo | plugin/trino-delta-lake/src/main/java/io/trino/plugin/deltalake/transactionlog/writer/S3TransactionLogSynchronizer.java:170-182 | the method computes `AcquireLock`, taking one clock reading |
| S3TransactionLogSynchronizer.ScanLocks | plugin/trino-delta-lake/src/main/java/io/trino/plugin/deltalake/transactionlog/writer/S3TransactionLogSynchronizer.java:91-108 | the loop computes `FirstScan`, taking one clock reading per lock it visits |
| S3TransactionLogSynchronizer.CommitEntry | plugin/trino-delta-lake/src/main/java/io/trino/plugin/deltalake/transactionlog/writer/S3TransactionLogSynchronizer.java:136-142 | the method computes `Commit` |
| S3TransactionLogSynchronizer.VerifyAndCommit | plugin/trino-delta-lake/src/main/java/io/trino/plugin/deltalake/transactionlog/writer/S3TransactionLogSynchronizer.java:120-142 | the method computes the protocol's `VerifyAndCommit` |
| S3TransactionLogSynchronizer.Attempt | plugin/trino-delta-lake/src/main/java/io/trino/plugin/deltalake/transactionlog/writer/S3TransactionLogSynchronizer.java:84-146 | the `try` block computes `Attempt`, including the lock it leaves for `finally` |
| S3TransactionLogSynchronizer.Write | plugin/trino-delta-lake/src/main/java/io/trino/plugin/deltalake/transactionlog/writer/S3TransactionLogSynchronizer.java:77-158 | `write` computes the protocol's `Write`, so every lemma above holds of it |
| NoIsolationSynchronizer.IsUnsafe | plugin/trino-delta-lake/src/main/java/io/trino/plugin/deltalake/transactionlog/writer/NoIsolationSynchronizer.java:56-60 | the strategy reports itself unsafe |
| NoIsolationSynchronizer.Written | plugin/trino-delta-lake/src/main/java/io/trino/plugin/deltalake/transactionlog/writer/NoIsolationSynchronizer.java:41-54 | exactly one exclusive create of the entry with its bytes; success if and only if the create neither fails nor meets an existing entry; any failure is an IO error and leaves the files as they were |
| NoIsolationSynchronizer.Write | plugin/trino-delta-lake/src/main/java/io/trino/plugin/deltalake/transactionlog/writer/NoIsolationSynchronizer.java:41-54 | the method computes `Written` |
| NoIsolationSynchronizer.WriteHonoursContract | plugin/trino-delta-lake/src/main/java/io/trino/plugin/deltalake/transactionlog/writer/NoIsolationSynchronizer.java:41-54 | the single create meets the same shared write contract as the lock-file strategy |

## Left out

- The Hadoop `FileSystem` is replaced by the in-memory store. `HdfsEnvironment`, `getFileSystem` and the `RuntimeException` it wraps are not modelled, and neither is the session.
- The JSON codec is abstracted. A stored lock record decodes to its contents; raw bytes never decode. Base64 logging of undecodable contents is left out.
- `parseLockFile` checks the message "The specified key does not exist." The model reads this as the store's not-found error for a missing path. Some other IO error could carry that text; the model does not treat that case apart.
- `listFiles` returns a lazy iterator. The model lists the directory as one request, so it does not capture a listing that fails halfway.
- Concurrency is modelled only as other writers' edits scheduled between requests. Nothing proves that two interleaved writers cannot both succeed. The source makes no such promise either: it marks itself unsafe.
- `Instant` arithmetic is done on unbounded integers. Overflow of `long` and the `ArithmeticException` from `toEpochMilli` are not modelled.
- Exception messages and the warning logs are left out. The outcome datatype carries the data the messages report.
- The lock's time to live is never refreshed, as in the source.
- `Store.Create` treats `create` followed by writing and closing the stream as one request that succeeds or fails as a whole. In the source, `create` can succeed and the write or the close then fail (lines 140-142 and 178-180). That leaves a partial entry, or an empty lock file that never decodes and so is never collected. The model does not capture either.
- `Store.Create` checks that the path is absent and adds the file in one step, and other writers' edits land only between requests. So the model's no-overwrite create is exclusive, which the stores this protocol is written for are not. On such a store, another writer can create the entry between the re-check (line 137) and `create(target, false)` (line 140); the source's create can then replace that entry and `write` reports success. The model ends that race in `IOError(FileExists(target))` instead. `NoIsolationSynchronizer.Written` never replaces an existing entry only by this same assumption.
- `parseLockFile` calls `getMessage().contains(...)` on an IO error. An IO error with no message throws a `NullPointerException` there, and that exception leaves `write` unwrapped. The model treats every failed open as an IO error that propagates.
- S3TransactionLogSynchronizer.Write: requires a target path with a parent, because Hadoop gives a root path no parent and `write` would fail on it.
- LockRecords.LockFilenameRoundTrip: requires a query id without `.sb-lock_`. Group 1 of the pattern is greedy, so a query id containing the marker parses back to a longer entry name.
- S3LockProperties.OwnLockReleased: the release is guaranteed only for single-line entry names and query ids. In the source, any other name makes the `LockInfo` constructor throw after the lock file is created, and that lock is never deleted: its name does not match the pattern, so `listLockInfos` skips it and no writer ever collects it.
- S3LockProperties.SoleWriterCommits: stated only for a writer alone, with nobody else writing and no request failing.
- The other files of the repository are not part of this model: MergeProcessorOperator, HdfsFileIterator, HdfsOutputFile, HdfsKerberosConfig and the tests.
