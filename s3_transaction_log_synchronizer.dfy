/**
 * S3TransactionLogSynchronizer: appends a transaction log entry to a store
 * with no atomic create-if-absent, guarding the create with lock files in the
 * `_sb_lock` directory beside the entry. Each method does what the protocol
 * function of the same step computes, request by request.
 */
module S3TransactionLogSynchronizer {
  import opened Basics
  import opened LockRecords
  import opened ObjectStore
  import opened TransactionLog
  import opened Time
  import P = S3LockProtocol

  /** The protocol is best effort against an eventually consistent store. */
  function IsUnsafe(): (r: bool)
    ensures r
  {
    true
  }

  method ParseLockFile(store: Store, path: Path) returns (r: Result<Option<LockInfo>>)
    requires path != [] && MatchesLockPattern(Name(path))
    modifies store
    ensures Step(r, store.Snapshot()) == P.ReadLockFile(store.env, old(store.Snapshot()), path)
  {
    var read := store.Open(path);
    match read
    case Ok(LockRecord(contents)) =>
      r := Ok(Some(NewLockInfo(Name(path), contents)));
    case Ok(Bytes(_)) =>
      // the contents do not decode: logged, and read as no lock
      r := Ok(None);
    case Err(KeyNotFound(_)) =>
      r := Ok(None);
    case Err(e) =>
      r := Err(e);
  }

  method ListLockInfos(store: Store, dir: Path) returns (r: Result<seq<LockInfo>>)
    modifies store
    ensures Step(r, store.Snapshot()) == P.ListLockInfos(store.env, old(store.Snapshot()), dir)
  {
    var listed := store.List(dir);
    if listed.Err? {
      return Err(listed.error);
    }
    var names := listed.value;
    ghost var s0 := store.Snapshot();
    var lockInfos: seq<LockInfo> := [];
    var i := 0;
    P.PrependNothing(P.ReadLocks(store.env, s0, dir, names));
    while i < |names|
      invariant 0 <= i <= |names|
      invariant P.Prepend(lockInfos, P.ReadLocks(store.env, store.Snapshot(), dir, names[i..]))
             == P.ReadLocks(store.env, s0, dir, names)
    {
      var name := names[i];
      assert names[i..][1..] == names[i + 1..];
      if MatchesLockPattern(name) {
        var lockInfo := ParseLockFile(store, dir + [name]);
        if lockInfo.Err? {
          return Err(lockInfo.error);
        }
        P.PrependTwice(lockInfos, OptionToSeq(lockInfo.value), P.ReadLocks(store.env, store.Snapshot(), dir, names[i + 1..]));
        lockInfos := lockInfos + OptionToSeq(lockInfo.value);
      }
      i := i + 1;
    }
    assert lockInfos + [] == lockInfos;
    return Ok(lockInfos);
  }

  method DeleteLock(store: Store, dir: Path, lock: LockInfo) returns (r: Result<()>)
    modifies store
    ensures Step(r, store.Snapshot()) == DoDelete(store.env, old(store.Snapshot()), dir + [lock.lockFilename])
  {
    r := store.Delete(dir + [lock.lockFilename]);
  }

  method WriteNewLockInfo(store: Store, clock: Clock, dir: Path, entry: string, clusterId: string, queryId: string)
    returns (r: P.Verdict<LockInfo>)
    modifies store, clock
    ensures P.Phase(r, P.World(store.Snapshot(), clock.taken))
         == P.AcquireLock(store.env, clock.readings, old(P.World(store.Snapshot(), clock.taken)), dir, entry, clusterId, queryId)
  {
    var lockFilename := LockFilename(entry, queryId);
    var now := clock.Now();
    var contents := LockFileContents(clusterId, queryId, ExpirationMillis(now));
    var created := store.Create(dir + [lockFilename], LockRecord(contents));
    if created.Err? {
      return P.Finish(IOError(created.error));
    }
    if !MatchesLockPattern(lockFilename) {
      // the LockInfo constructor rejects the name after the file was written
      return P.Finish(IllegalArgument(lockFilename));
    }
    return P.Continue(NewLockInfo(lockFilename, contents));
  }

  /** The first scan of `write`: garbage-collect expired locks, find a live one for the entry. */
  method ScanLocks(store: Store, clock: Clock, dir: Path, entry: string, lockInfos: seq<LockInfo>)
    returns (r: P.Verdict<Option<LockInfo>>)
    modifies store, clock
    ensures P.Phase(r, P.World(store.Snapshot(), clock.taken))
         == P.FirstScan(store.env, clock.readings, old(P.World(store.Snapshot(), clock.taken)), dir, entry, lockInfos, None)
  {
    var currentLock: Option<LockInfo> := None;
    for i := 0 to |lockInfos|
      invariant P.FirstScan(store.env, clock.readings, P.World(store.Snapshot(), clock.taken), dir, entry, lockInfos[i..], currentLock)
             == P.FirstScan(store.env, clock.readings, old(P.World(store.Snapshot(), clock.taken)), dir, entry, lockInfos, None)
    {
      var lockInfo := lockInfos[i];
      assert lockInfos[i..][1..] == lockInfos[i + 1..];
      var now := clock.Now();
      if ExpiredAt(lockInfo.contents, now) {
        var deleted := DeleteLock(store, dir, lockInfo);
        if deleted.Err? {
          return P.Finish(IOError(deleted.error));
        }
      } else if lockInfo.entryFilename == entry {
        if currentLock.Some? {
          return P.Finish(IllegalState(MultipleLiveLocks(currentLock.value.lockFilename, lockInfo.lockFilename)));
        }
        currentLock := Some(lockInfo);
      }
    }
    return P.Continue(currentLock);
  }

  /** The re-check that the target is still absent, and the create of the entry. */
  method CommitEntry(store: Store, clock: Clock, target: Path, entryContents: seq<byte>) returns (outcome: Outcome)
    modifies store
    ensures P.Ending(outcome, P.World(store.Snapshot(), clock.taken))
         == P.Commit(store.env, old(P.World(store.Snapshot(), clock.taken)), target, entryContents)
  {
    var present := store.Exists(target);
    if present.Err? {
      return IOError(present.error);
    }
    if present.value {
      // checkState fails: the target appeared while this writer was locking
      return IllegalState(TargetCreatedDuringLocking(target));
    }
    var created := store.Create(target, Bytes(entryContents));
    if created.Err? {
      return IOError(created.error);
    }
    return Success;
  }

  /** The second listing: any other lock for the entry, live or not, is a conflict. */
  method VerifyAndCommit(store: Store, clock: Clock, dir: Path, entry: string, mine: LockInfo,
                         target: Path, entryContents: seq<byte>) returns (outcome: Outcome)
    modifies store
    ensures P.Ending(outcome, P.World(store.Snapshot(), clock.taken))
         == P.VerifyAndCommit(store.env, old(P.World(store.Snapshot(), clock.taken)), dir, entry, mine, target, entryContents)
  {
    var lockInfos := ListLockInfos(store, dir);
    if lockInfos.Err? {
      return IOError(lockInfos.error);
    }
    var currentLock := P.FirstOtherLock(lockInfos.value, entry, mine.lockFilename);
    if currentLock.Some? {
      return Conflict(LockedAfterAcquire(currentLock.value.contents));
    }
    outcome := CommitEntry(store, clock, target, entryContents);
  }

  /** The `try` block of write; `myLockInfo` is what the `finally` block releases. */
  method Attempt(store: Store, clock: Clock, clusterId: string, queryId: string, target: Path, entryContents: seq<byte>)
    returns (outcome: Outcome, myLockInfo: Option<LockInfo>)
    requires target != []
    modifies store, clock
    ensures P.Attempted(outcome, P.World(store.Snapshot(), clock.taken), myLockInfo)
         == P.Attempt(store.env, clock.readings, old(P.World(store.Snapshot(), clock.taken)), clusterId, queryId, target, entryContents)
  {
    var locksDirectory := P.LockDirectory(target);
    var newEntryFilename := Name(target);
    myLockInfo := None;
    var present := store.Exists(target);
    if present.Err? {
      return IOError(present.error), None;
    }
    if present.value {
      return Conflict(AlreadyExists(target)), None;
    }
    var lockInfos := ListLockInfos(store, locksDirectory);
    if lockInfos.Err? {
      return IOError(lockInfos.error), None;
    }
    var scan := ScanLocks(store, clock, locksDirectory, newEntryFilename, lockInfos.value);
    if scan.Finish? {
      return scan.outcome, None;
    }
    if scan.value.Some? {
      return Conflict(LockedBeforeAcquire(scan.value.value.contents)), None;
    }
    var acquired := WriteNewLockInfo(store, clock, locksDirectory, newEntryFilename, clusterId, queryId);
    if acquired.Finish? {
      return acquired.outcome, None;
    }
    myLockInfo := Some(acquired.value);
    outcome := VerifyAndCommit(store, clock, locksDirectory, newEntryFilename, acquired.value, target, entryContents);
  }

  /**
   * write: the attempt, then, once this writer's lock exists, its deletion on
   * every exit path; a failed deletion is logged and never changes the outcome.
   */
  method Write(store: Store, clock: Clock, clusterId: string, queryId: string, target: Path, entryContents: seq<byte>)
    returns (outcome: Outcome)
    requires target != []
    modifies store, clock
    ensures P.Ending(outcome, P.World(store.Snapshot(), clock.taken))
         == P.Write(store.env, clock.readings, old(P.World(store.Snapshot(), clock.taken)), clusterId, queryId, target, entryContents)
  {
    var myLockInfo;
    outcome, myLockInfo := Attempt(store, clock, clusterId, queryId, target, entryContents);
    if myLockInfo.Some? {
      var released := DeleteLock(store, P.LockDirectory(target), myLockInfo.value);
      // a failed delete is only logged: the lock expires and a later writer collects it
    }
  }
}
