/**
 * The lock-file synchronization protocol of S3TransactionLogSynchronizer, as
 * pure functions of the store's environment, the clock's readings and the
 * state before the call. The imperative synchronizer is proved to compute
 * exactly these; the lemmas below state what the protocol guarantees.
 */
module S3LockProtocol {
  import opened Basics
  import opened LockRecords
  import opened ObjectStore
  import opened TransactionLog
  import opened Time

  const LOCK_DIRECTORY := "_sb_lock"

  /** The lock directory sits beside the entry, in the entry's parent directory. */
  function LockDirectory(target: Path): Path
    requires target != []
  {
    Parent(target) + [LOCK_DIRECTORY]
  }

  /** The store together with how many clock readings have been taken. */
  datatype World = World(store: State, taken: nat)

  /** A phase of `write` either hands a value to the next phase or ends the call. */
  datatype Verdict<T> = Continue(value: T) | Finish(outcome: Outcome)

  datatype Phase<T> = Phase(verdict: Verdict<T>, world: World)

  /** The body of the `try`, and the lock it leaves for the `finally` to delete. */
  datatype Attempted = Attempted(outcome: Outcome, world: World, mine: Option<LockInfo>)

  datatype Ending = Ending(outcome: Outcome, world: World)

  // ---------------------------------------------------------------- reading locks

  /**
   * parseLockFile: a missing key or contents that do not decode mean "no lock";
   * every other IO error propagates.
   */
  function ReadLockFile(env: Env, s: State, path: Path): (r: Step<Option<LockInfo>>)
    requires path != [] && MatchesLockPattern(Name(path))
    ensures var t := Settle(env, s);
      && r.state.files == t.files
      && r.state.log == s.log + [Event(Open(path), |s.log| !in env.faults && path in t.files)]
    ensures r.result.Err? <==> |s.log| in env.faults
    ensures r.result.Err? ==> r.result.error == Failed(Open(path))
    ensures var t := Settle(env, s);
      r.result == Ok(None) <==> |s.log| !in env.faults && (path !in t.files || t.files[path].Bytes?)
    ensures var t := Settle(env, s);
      r.result.Ok? && r.result.value.Some? ==>
        && path in t.files && t.files[path] == LockRecord(r.result.value.value.contents)
        && r.result.value.value.lockFilename == Name(path)
        && Some(r.result.value.value.entryFilename) == ParseEntryFilename(Name(path))
  {
    var o := DoOpen(env, s, path);
    match o.result
    case Ok(LockRecord(c)) => Step(Ok(Some(NewLockInfo(Name(path), c))), o.state)
    case Ok(Bytes(_)) => Step(Ok(None), o.state)
    case Err(KeyNotFound(_)) => Step(Ok(None), o.state)
    case Err(e) => Step(Err(e), o.state)
  }

  /** `acc` in front of the locks a later part of the listing yields. */
  function Prepend(acc: seq<LockInfo>, rest: Step<seq<LockInfo>>): Step<seq<LockInfo>>
  {
    if rest.result.Ok? then Step(Ok(acc + rest.result.value), rest.state) else rest
  }

  lemma PrependNothing(rest: Step<seq<LockInfo>>)
    ensures Prepend([], rest) == rest
  {
    if rest.result.Ok? {
      assert [] + rest.result.value == rest.result.value;
    }
  }

  lemma PrependTwice(a: seq<LockInfo>, b: seq<LockInfo>, rest: Step<seq<LockInfo>>)
    ensures Prepend(a, Prepend(b, rest)) == Prepend(a + b, rest)
  {
    if rest.result.Ok? {
      assert a + (b + rest.result.value) == (a + b) + rest.result.value;
    }
  }

  /** The loop of listLockInfos over the listed names, in listing order. */
  function ReadLocks(env: Env, s: State, dir: Path, names: seq<string>): Step<seq<LockInfo>>
    decreases |names|
  {
    if names == [] then Step(Ok([]), s)
    else if !MatchesLockPattern(names[0]) then ReadLocks(env, s, dir, names[1..])
    else
      var read := ReadLockFile(env, s, dir + [names[0]]);
      match read.result
      case Err(e) => Step(Err(e), read.state)
      case Ok(found) => Prepend(OptionToSeq(found), ReadLocks(env, read.state, dir, names[1..]))
  }

  /** listLockInfos: list the lock directory, then read every lock-named file. */
  function ListLockInfos(env: Env, s: State, dir: Path): Step<seq<LockInfo>>
  {
    var listed := DoList(env, s, dir);
    match listed.result
    case Err(e) => Step(Err(e), listed.state)
    case Ok(names) => ReadLocks(env, listed.state, dir, names)
  }

  // ---------------------------------------------------------------- first scan

  /**
   * The first scan, from one lock on: delete each lock that has expired at the
   * reading taken for it; remember a live lock for the same entry, and end with
   * an invariant violation at a second one.
   */
  function FirstScan(env: Env, clock: nat -> int, w: World, dir: Path, entry: string,
                     locks: seq<LockInfo>, current: Option<LockInfo>): Phase<Option<LockInfo>>
    decreases |locks|
  {
    if locks == [] then Phase(Continue(current), w)
    else
      var lock := locks[0];
      var now := clock(w.taken);
      var w1 := w.(taken := w.taken + 1);
      if ExpiredAt(lock.contents, now) then
        var deleted := DoDelete(env, w1.store, dir + [lock.lockFilename]);
        if deleted.result.Err? then Phase(Finish(IOError(deleted.result.error)), w1.(store := deleted.state))
        else FirstScan(env, clock, w1.(store := deleted.state), dir, entry, locks[1..], current)
      else if lock.entryFilename == entry then
        if current.Some? then
          Phase(Finish(IllegalState(MultipleLiveLocks(current.value.lockFilename, lock.lockFilename))), w1)
        else FirstScan(env, clock, w1, dir, entry, locks[1..], Some(lock))
      else FirstScan(env, clock, w1, dir, entry, locks[1..], current)
  }

  // ---------------------------------------------------------------- own lock

  /** writeNewLockInfo: read the clock, create the lock file, then build its LockInfo. */
  function AcquireLock(env: Env, clock: nat -> int, w: World, dir: Path, entry: string,
                       clusterId: string, queryId: string): (r: Phase<LockInfo>)
    ensures r.world.taken == w.taken + 1
    ensures var name := LockFilename(entry, queryId);
      r.world.store.log == w.store.log +
        [Event(Create(dir + [name], LockRecord(LockFileContents(clusterId, queryId, ExpirationMillis(clock(w.taken))))),
               r.verdict.Continue? || r.verdict.outcome.IllegalArgument?)]
    ensures r.verdict.Continue? ==>
      r.verdict.value == LockInfo(LockFilename(entry, queryId), r.verdict.value.entryFilename,
                                  LockFileContents(clusterId, queryId, ExpirationMillis(clock(w.taken))))
    ensures r.verdict.Finish? ==> r.verdict.outcome.IOError? || r.verdict.outcome.IllegalArgument?
    ensures SingleLine(entry) && SingleLine(queryId) ==> !(r.verdict.Finish? && r.verdict.outcome.IllegalArgument?)
  {
    var name := LockFilename(entry, queryId);
    var contents := LockFileContents(clusterId, queryId, ExpirationMillis(clock(w.taken)));
    var w1 := w.(taken := w.taken + 1);
    var created := DoCreate(env, w1.store, dir + [name], LockRecord(contents));
    var w2 := w1.(store := created.state);
    LockFilenameMatches(entry, queryId);
    if created.result.Err? then Phase(Finish(IOError(created.result.error)), w2)
    else if !MatchesLockPattern(name) then Phase(Finish(IllegalArgument(name)), w2)
    else Phase(Continue(NewLockInfo(name, contents)), w2)
  }

  // ---------------------------------------------------------------- second scan and commit

  /** A listed lock that competes with this writer's own lock for the entry. */
  predicate Competes(lock: LockInfo, entry: string, myLockFilename: string)
  {
    lock.entryFilename == entry && lock.lockFilename != myLockFilename
  }

  /** The first listed lock for the entry other than this writer's own; expiry is not consulted. */
  function FirstOtherLock(locks: seq<LockInfo>, entry: string, myLockFilename: string): (r: Option<LockInfo>)
    ensures r.None? <==> forall i :: 0 <= i < |locks| ==> !Competes(locks[i], entry, myLockFilename)
    ensures r.Some? ==> exists i :: 0 <= i < |locks| && locks[i] == r.value && Competes(locks[i], entry, myLockFilename)
                                    && forall j :: 0 <= j < i ==> !Competes(locks[j], entry, myLockFilename)
  {
    if locks == [] then None
    else if Competes(locks[0], entry, myLockFilename) then Some(locks[0])
    else FirstOtherLock(locks[1..], entry, myLockFilename)
  }

  /**
   * The re-check and the commit: the target must still be absent, and is then
   * created, without overwriting, with exactly the entry's contents.
   */
  function Commit(env: Env, w: World, target: Path, contents: seq<byte>): (r: Ending)
    ensures r.world.taken == w.taken
    ensures r.outcome == Success ==>
      && target in r.world.store.files && r.world.store.files[target] == Bytes(contents)
      && r.world.store.log == w.store.log + [Event(Exists(target), true), Event(Create(target, Bytes(contents)), true)]
    ensures |w.store.log| !in env.faults && target in Settle(env, w.store).files ==>
      && r.outcome == IllegalState(TargetCreatedDuringLocking(target))
      && r.world.store.log == w.store.log + [Event(Exists(target), true)]
    ensures r.outcome.Conflict? == false
  {
    var recheck := DoExists(env, w.store, target);
    var w1 := w.(store := recheck.state);
    if recheck.result.Err? then Ending(IOError(recheck.result.error), w1)
    else if recheck.result.value then Ending(IllegalState(TargetCreatedDuringLocking(target)), w1)
    else
      var created := DoCreate(env, w1.store, target, Bytes(contents));
      var w2 := w1.(store := created.state);
      if created.result.Err? then Ending(IOError(created.result.error), w2)
      else Ending(Success, w2)
  }

  /** The second listing, the check that this writer's lock is the only one, and the commit. */
  function VerifyAndCommit(env: Env, w: World, dir: Path, entry: string, mine: LockInfo,
                           target: Path, contents: seq<byte>): (r: Ending)
    ensures var listed := ListLockInfos(env, w.store, dir);
      r.outcome.Conflict? <==>
        listed.result.Ok? && exists i :: 0 <= i < |listed.result.value| && Competes(listed.result.value[i], entry, mine.lockFilename)
    ensures var listed := ListLockInfos(env, w.store, dir);
      r.outcome.Conflict? ==>
        && r.world.store == listed.state
        && exists i :: 0 <= i < |listed.result.value| && Competes(listed.result.value[i], entry, mine.lockFilename)
                       && r.outcome.reason == LockedAfterAcquire(listed.result.value[i].contents)
                       && forall j :: 0 <= j < i ==> !Competes(listed.result.value[j], entry, mine.lockFilename)
    ensures r.world.taken == w.taken
  {
    var listed := ListLockInfos(env, w.store, dir);
    var w1 := w.(store := listed.state);
    match listed.result
    case Err(e) => Ending(IOError(e), w1)
    case Ok(locks) =>
      match FirstOtherLock(locks, entry, mine.lockFilename)
      case Some(other) => Ending(Conflict(LockedAfterAcquire(other.contents)), w1)
      case None => Commit(env, w1, target, contents)
  }

  // ---------------------------------------------------------------- write

  /** The `try` block of write; `mine` is the lock the `finally` block deletes. */
  function Attempt(env: Env, clock: nat -> int, w: World, clusterId: string, queryId: string,
                   target: Path, contents: seq<byte>): Attempted
    requires target != []
  {
    var check := DoExists(env, w.store, target);
    var w1 := w.(store := check.state);
    if check.result.Err? then Attempted(IOError(check.result.error), w1, None)
    else if check.result.value then Attempted(Conflict(AlreadyExists(target)), w1, None)
    else AttemptFromListing(env, clock, w1, LockDirectory(target), Name(target), clusterId, queryId, target, contents)
  }

  /** The `try` block once the target was found absent: the first listing and the first scan. */
  function AttemptFromListing(env: Env, clock: nat -> int, w: World, dir: Path, entry: string,
                              clusterId: string, queryId: string, target: Path, contents: seq<byte>): Attempted
  {
    var listed := ListLockInfos(env, w.store, dir);
    var w1 := w.(store := listed.state);
    match listed.result
    case Err(e) => Attempted(IOError(e), w1, None)
    case Ok(locks) =>
      var scan := FirstScan(env, clock, w1, dir, entry, locks, None);
      match scan.verdict
      case Finish(o) => Attempted(o, scan.world, None)
      case Continue(Some(lock)) => Attempted(Conflict(LockedBeforeAcquire(lock.contents)), scan.world, None)
      case Continue(None) => AttemptFromLock(env, clock, scan.world, dir, entry, clusterId, queryId, target, contents)
  }

  /** The `try` block from writeNewLockInfo on: the own lock, the second listing and the commit. */
  function AttemptFromLock(env: Env, clock: nat -> int, w: World, dir: Path, entry: string,
                           clusterId: string, queryId: string, target: Path, contents: seq<byte>): Attempted
  {
    var acquired := AcquireLock(env, clock, w, dir, entry, clusterId, queryId);
    match acquired.verdict
    case Finish(o) => Attempted(o, acquired.world, None)
    case Continue(mine) =>
      var done := VerifyAndCommit(env, acquired.world, dir, entry, mine, target, contents);
      Attempted(done.outcome, done.world, Some(mine))
  }

  /** write: the attempt, then the deletion of this writer's lock, whose failure is swallowed. */
  function Write(env: Env, clock: nat -> int, w: World, clusterId: string, queryId: string,
                 target: Path, contents: seq<byte>): Ending
    requires target != []
  {
    var attempt := Attempt(env, clock, w, clusterId, queryId, target, contents);
    match attempt.mine
    case None => Ending(attempt.outcome, attempt.world)
    case Some(mine) =>
      var released := DoDelete(env, attempt.world.store, LockDirectory(target) + [mine.lockFilename]);
      Ending(attempt.outcome, attempt.world.(store := released.state))
  }
}
