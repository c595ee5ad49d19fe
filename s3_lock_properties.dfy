/**
 * What the lock-file protocol guarantees: which requests each phase makes,
 * how the first scan decides, that a writer's own lock is always released,
 * that the shared write contract holds, and that a writer alone succeeds and
 * leaves no lock behind.
 */
module S3LockProperties {
  import opened Basics
  import opened LockRecords
  import opened ObjectStore
  import opened TransactionLog
  import opened Time
  import opened S3LockProtocol

  ghost predicate Appended(before: seq<Event>, after: seq<Event>)
  {
    |before| <= |after| && after[..|before|] == before
  }

  predicate IsRead(q: Request)
  {
    q.Exists? || q.Open? || q.List?
  }

  /** Everything requested after `before` only reads. */
  ghost predicate ReadsOnly(before: seq<Event>, after: seq<Event>)
  {
    Appended(before, after) && forall i :: |before| <= i < |after| ==> IsRead(after[i].request)
  }

  lemma ReadsOnlyChain(a: seq<Event>, b: seq<Event>, c: seq<Event>)
    requires ReadsOnly(a, b) && ReadsOnly(b, c)
    ensures ReadsOnly(a, c)
  {
    assert c[..|b|][..|a|] == c[..|a|];
    forall i | |b| <= i < |c| ensures IsRead(c[i].request) { }
    forall i | |a| <= i < |b| ensures IsRead(c[i].request) {
      assert c[i] == c[..|b|][i] == b[i];
    }
  }

  /** Reading the listed lock files issues only read requests. */
  lemma {:induction false} ReadLocksReadsOnly(env: Env, s: State, dir: Path, names: seq<string>)
    ensures ReadsOnly(s.log, ReadLocks(env, s, dir, names).state.log)
    decreases |names|
  {
    if names == [] {
    } else if !MatchesLockPattern(names[0]) {
      ReadLocksReadsOnly(env, s, dir, names[1..]);
    } else {
      var read := ReadLockFile(env, s, dir + [names[0]]);
      assert ReadsOnly(s.log, read.state.log);
      match read.result
      case Err(e) =>
      case Ok(found) =>
        ReadLocksReadsOnly(env, read.state, dir, names[1..]);
        ReadsOnlyChain(s.log, read.state.log, ReadLocks(env, read.state, dir, names[1..]).state.log);
    }
  }

  /** listLockInfos only lists and reads. */
  lemma ListLockInfosReadsOnly(env: Env, s: State, dir: Path)
    ensures ReadsOnly(s.log, ListLockInfos(env, s, dir).state.log)
  {
    var listed := DoList(env, s, dir);
    assert ReadsOnly(s.log, listed.state.log);
    if listed.result.Ok? {
      ReadLocksReadsOnly(env, listed.state, dir, listed.result.value);
      ReadsOnlyChain(s.log, listed.state.log, ListLockInfos(env, s, dir).state.log);
    }
  }

  /** `q` deletes the lock at some position k of a scan starting at reading `taken`, which had expired at its reading. */
  ghost predicate DeletesExpiredLock(clock: nat -> int, taken: nat, dir: Path, locks: seq<LockInfo>, q: Request)
  {
    exists k :: 0 <= k < |locks| && ExpiredAt(locks[k].contents, clock(taken + k)) && q == Delete(dir + [locks[k].lockFilename])
  }

  lemma DeletesExpiredLockShift(clock: nat -> int, taken: nat, dir: Path, locks: seq<LockInfo>, q: Request)
    requires locks != [] && DeletesExpiredLock(clock, taken + 1, dir, locks[1..], q)
    ensures DeletesExpiredLock(clock, taken, dir, locks, q)
  {
    var k :| 0 <= k < |locks[1..]| && ExpiredAt(locks[1..][k].contents, clock(taken + 1 + k)) && q == Delete(dir + [locks[1..][k].lockFilename]);
    assert locks[1..][k] == locks[k + 1];
  }

  /** Every request of `log` from position `from` on is such a deletion. */
  ghost predicate OnlyExpiredDeleted(clock: nat -> int, taken: nat, dir: Path, locks: seq<LockInfo>, log: seq<Event>, from: nat)
  {
    forall i :: from <= i < |log| ==> DeletesExpiredLock(clock, taken, dir, locks, log[i].request)
  }

  /** Deletions of the earlier locks from `from` to `mid`, then of the later ones, are all deletions of expired locks. */
  lemma OnlyExpiredDeletedShift(clock: nat -> int, taken: nat, dir: Path, locks: seq<LockInfo>, log: seq<Event>, from: nat, mid: nat)
    requires locks != [] && from <= mid
    requires forall i :: from <= i < mid && i < |log| ==> DeletesExpiredLock(clock, taken, dir, locks, log[i].request)
    requires OnlyExpiredDeleted(clock, taken + 1, dir, locks[1..], log, mid)
    ensures OnlyExpiredDeleted(clock, taken, dir, locks, log, from)
  {
    forall i | from <= i < |log|
      ensures DeletesExpiredLock(clock, taken, dir, locks, log[i].request)
    {
      if mid <= i {
        DeletesExpiredLockShift(clock, taken, dir, locks, log[i].request);
      }
    }
  }

  /** The first scan only appends requests, takes at most one reading per lock, and ends early only with an IO error or an illegal state. */
  lemma {:induction false} FirstScanShape(env: Env, clock: nat -> int, w: World, dir: Path, entry: string,
                                          locks: seq<LockInfo>, current: Option<LockInfo>)
    ensures Appended(w.store.log, FirstScan(env, clock, w, dir, entry, locks, current).world.store.log)
    ensures w.taken <= FirstScan(env, clock, w, dir, entry, locks, current).world.taken <= w.taken + |locks|
    ensures var v := FirstScan(env, clock, w, dir, entry, locks, current).verdict;
      v.Finish? ==> v.outcome.IOError? || v.outcome.IllegalState?
    decreases |locks|
  {
    if locks != [] {
      var lock := locks[0];
      var w1 := w.(taken := w.taken + 1);
      var r := FirstScan(env, clock, w, dir, entry, locks, current);
      if ExpiredAt(lock.contents, clock(w.taken)) {
        var deleted := DoDelete(env, w1.store, dir + [lock.lockFilename]);
        var w2 := w1.(store := deleted.state);
        if deleted.result.Ok? {
          FirstScanShape(env, clock, w2, dir, entry, locks[1..], current);
          assert r.world.store.log[..|w2.store.log|][..|w.store.log|] == r.world.store.log[..|w.store.log|];
        }
      } else if !(lock.entryFilename == entry && current.Some?) {
        var next := if lock.entryFilename == entry then Some(lock) else current;
        FirstScanShape(env, clock, w1, dir, entry, locks[1..], next);
      }
    }
  }

  /** Every request the first scan appends deletes the file of a listed lock that had expired at its reading. */
  lemma {:induction false} FirstScanOnlyExpiredDeleted(env: Env, clock: nat -> int, w: World, dir: Path, entry: string,
                                                       locks: seq<LockInfo>, current: Option<LockInfo>)
    ensures OnlyExpiredDeleted(clock, w.taken, dir, locks, FirstScan(env, clock, w, dir, entry, locks, current).world.store.log, |w.store.log|)
    decreases |locks|, 1
  {
    if locks != [] {
      if ExpiredAt(locks[0].contents, clock(w.taken)) {
        ExpiredHeadOnlyExpiredDeleted(env, clock, w, dir, entry, locks, current);
      } else {
        LiveHeadOnlyExpiredDeleted(env, clock, w, dir, entry, locks, current);
      }
    }
  }

  /** The scan's step over an expired lock: its deletion, then the rest of the scan. */
  lemma {:induction false} ExpiredHeadOnlyExpiredDeleted(env: Env, clock: nat -> int, w: World, dir: Path, entry: string,
                                                         locks: seq<LockInfo>, current: Option<LockInfo>)
    requires locks != [] && ExpiredAt(locks[0].contents, clock(w.taken))
    ensures OnlyExpiredDeleted(clock, w.taken, dir, locks, FirstScan(env, clock, w, dir, entry, locks, current).world.store.log, |w.store.log|)
    decreases |locks|, 0
  {
    var p := dir + [locks[0].lockFilename];
    var w1 := w.(taken := w.taken + 1);
    var deleted := DoDelete(env, w1.store, p);
    var w2 := w1.(store := deleted.state);
    var r := FirstScan(env, clock, w, dir, entry, locks, current);
    if deleted.result.Ok? {
      assert r == FirstScan(env, clock, w2, dir, entry, locks[1..], current);
      assert w2.store.log == w.store.log + [Event(Delete(p), true)];
      FirstScanOnlyExpiredDeleted(env, clock, w2, dir, entry, locks[1..], current);
      FirstScanShape(env, clock, w2, dir, entry, locks[1..], current);
      DeletionThenOnlyExpired(clock, w.taken, dir, locks, w.store.log, w2.store.log, r.world.store.log);
    } else {
      assert r.world.store.log == w.store.log + [Event(Delete(p), false)];
      DeletionThenOnlyExpired(clock, w.taken, dir, locks, w.store.log, r.world.store.log, r.world.store.log);
    }
  }

  /** A log that deletes the first, expired, lock and then only expired later ones deletes only expired locks. */
  lemma DeletionThenOnlyExpired(clock: nat -> int, taken: nat, dir: Path, locks: seq<LockInfo>,
                                base: seq<Event>, mid: seq<Event>, final: seq<Event>)
    requires locks != [] && ExpiredAt(locks[0].contents, clock(taken))
    requires |mid| == |base| + 1 && mid[|base|].request == Delete(dir + [locks[0].lockFilename])
    requires Appended(mid, final)
    requires OnlyExpiredDeleted(clock, taken + 1, dir, locks[1..], final, |mid|)
    ensures OnlyExpiredDeleted(clock, taken, dir, locks, final, |base|)
  {
    assert DeletesExpiredLock(clock, taken, dir, locks, Delete(dir + [locks[0].lockFilename])) by {
      assert 0 <= 0 < |locks| && ExpiredAt(locks[0].contents, clock(taken + 0));
    }
    assert final[|base|] == final[..|mid|][|base|];
    OnlyExpiredDeletedShift(clock, taken, dir, locks, final, |base|, |mid|);
  }

  /** The scan's step over a live lock: no request, then the rest of the scan, if it goes on. */
  lemma {:induction false} LiveHeadOnlyExpiredDeleted(env: Env, clock: nat -> int, w: World, dir: Path, entry: string,
                                                      locks: seq<LockInfo>, current: Option<LockInfo>)
    requires locks != [] && !ExpiredAt(locks[0].contents, clock(w.taken))
    ensures OnlyExpiredDeleted(clock, w.taken, dir, locks, FirstScan(env, clock, w, dir, entry, locks, current).world.store.log, |w.store.log|)
    decreases |locks|, 0
  {
    var lock := locks[0];
    var w1 := w.(taken := w.taken + 1);
    var r := FirstScan(env, clock, w, dir, entry, locks, current);
    var rest := locks[1..];
    var next := if lock.entryFilename == entry then Some(lock) else current;
    if !(lock.entryFilename == entry && current.Some?) {
      FirstScanOnlyExpiredDeleted(env, clock, w1, dir, entry, rest, next);
      assert r == FirstScan(env, clock, w1, dir, entry, rest, next);
      OnlyExpiredDeletedShift(clock, w.taken, dir, locks, r.world.store.log, |w.store.log|, |w.store.log|);
    } else {
      assert r.world == w1;
    }
  }

  /**
   * The first scan requests nothing but deletions, and each deletes the file of
   * a listed lock that had expired at the reading taken for it: no live lock is
   * deleted and no file outside the lock directory is touched.
   */
  lemma FirstScanDeletesOnlyExpired(env: Env, clock: nat -> int, w: World, dir: Path, entry: string,
                                    locks: seq<LockInfo>, current: Option<LockInfo>)
    ensures Appended(w.store.log, FirstScan(env, clock, w, dir, entry, locks, current).world.store.log)
    ensures w.taken <= FirstScan(env, clock, w, dir, entry, locks, current).world.taken <= w.taken + |locks|
    ensures OnlyExpiredDeleted(clock, w.taken, dir, locks, FirstScan(env, clock, w, dir, entry, locks, current).world.store.log, |w.store.log|)
    ensures var v := FirstScan(env, clock, w, dir, entry, locks, current).verdict;
      v.Finish? ==> v.outcome.IOError? || v.outcome.IllegalState?
  {
    FirstScanShape(env, clock, w, dir, entry, locks, current);
    FirstScanOnlyExpiredDeleted(env, clock, w, dir, entry, locks, current);
  }

  /** `log` records, from position `from` on, a deletion of `p` that succeeded. */
  ghost predicate DeletedSince(log: seq<Event>, from: nat, p: Path)
  {
    exists i :: from <= i < |log| && log[i] == Event(Delete(p), true)
  }

  /**
   * A first scan that lets the writer go on has deleted, with success, every
   * listed lock that had expired at the reading taken for it, whatever the
   * environment: a failed deletion would have ended the scan.
   */
  lemma {:induction false} FirstScanDeletesEveryExpired(env: Env, clock: nat -> int, w: World, dir: Path, entry: string,
                                                        locks: seq<LockInfo>, current: Option<LockInfo>)
    ensures var r := FirstScan(env, clock, w, dir, entry, locks, current);
      r.verdict.Continue? ==>
        forall k :: 0 <= k < |locks| && ExpiredAt(locks[k].contents, clock(w.taken + k)) ==>
          DeletedSince(r.world.store.log, |w.store.log|, dir + [locks[k].lockFilename])
    decreases |locks|
  {
    if locks != [] {
      var lock := locks[0];
      var rest := locks[1..];
      var w1 := w.(taken := w.taken + 1);
      var r := FirstScan(env, clock, w, dir, entry, locks, current);
      var next := if ExpiredAt(lock.contents, clock(w.taken)) then w1.(store := DoDelete(env, w1.store, dir + [lock.lockFilename]).state) else w1;
      var cur := if !ExpiredAt(lock.contents, clock(w.taken)) && lock.entryFilename == entry then Some(lock) else current;
      if r.verdict.Continue? {
        assert r == FirstScan(env, clock, next, dir, entry, rest, cur);
        FirstScanDeletesEveryExpired(env, clock, next, dir, entry, rest, cur);
        FirstScanShape(env, clock, next, dir, entry, rest, cur);
        forall k | 0 <= k < |locks| && ExpiredAt(locks[k].contents, clock(w.taken + k))
          ensures DeletedSince(r.world.store.log, |w.store.log|, dir + [locks[k].lockFilename])
        {
          if k == 0 {
            var i := |w.store.log|;
            assert next.store.log == w.store.log + [Event(Delete(dir + [lock.lockFilename]), true)];
            assert r.world.store.log[i] == r.world.store.log[..|next.store.log|][i] == next.store.log[i];
          } else {
            assert rest[k - 1] == locks[k] && next.taken + (k - 1) == w.taken + k;
            var i :| |next.store.log| <= i < |r.world.store.log| && r.world.store.log[i] == Event(Delete(dir + [rest[k - 1].lockFilename]), true);
          }
        }
      }
    }
  }

  /** The locks of a scan that are live at their reading and claim `entry`. */
  function LiveClaims(clock: nat -> int, taken: nat, locks: seq<LockInfo>, entry: string): seq<LockInfo>
    decreases |locks|
  {
    if locks == [] then []
    else
      var claims := !ExpiredAt(locks[0].contents, clock(taken)) && locks[0].entryFilename == entry;
      (if claims then [locks[0]] else []) + LiveClaims(clock, taken + 1, locks[1..], entry)
  }

  /** How the first scan ends, given every claim it meets: none, one, or an invariant violation at the second. */
  function ScanVerdict(claims: seq<LockInfo>): Verdict<Option<LockInfo>>
  {
    if |claims| == 0 then Continue(None)
    else if |claims| == 1 then Continue(Some(claims[0]))
    else Finish(IllegalState(MultipleLiveLocks(claims[0].lockFilename, claims[1].lockFilename)))
  }

  /** None of the `count` requests from position `from` of the log on fails. */
  ghost predicate NoFailureIn(env: Env, from: nat, count: nat)
  {
    forall n :: from <= n < from + count ==> n !in env.faults
  }

  /**
   * The first scan's verdict, when no deletion fails: no live lock for the
   * entry lets the writer go on; exactly one is a conflict naming that lock;
   * two or more are an invariant violation naming the first two.
   */
  lemma {:induction false} FirstScanVerdict(env: Env, clock: nat -> int, w: World, dir: Path, entry: string,
                                            locks: seq<LockInfo>, current: Option<LockInfo>)
    requires NoFailureIn(env, |w.store.log|, |locks|)
    ensures FirstScan(env, clock, w, dir, entry, locks, current).verdict
         == ScanVerdict(OptionToSeq(current) + LiveClaims(clock, w.taken, locks, entry))
    decreases |locks|
  {
    if locks == [] {
      assert OptionToSeq(current) + [] == OptionToSeq(current);
    } else {
      var lock := locks[0];
      var rest := locks[1..];
      var w1 := w.(taken := w.taken + 1);
      var later := LiveClaims(clock, w1.taken, rest, entry);
      if ExpiredAt(lock.contents, clock(w.taken)) {
        assert |w.store.log| !in env.faults;
        var deleted := DoDelete(env, w1.store, dir + [lock.lockFilename]);
        FirstScanVerdict(env, clock, w1.(store := deleted.state), dir, entry, rest, current);
        assert LiveClaims(clock, w.taken, locks, entry) == [] + later;
      } else if lock.entryFilename == entry {
        assert LiveClaims(clock, w.taken, locks, entry) == [lock] + later;
        if current.None? {
          FirstScanVerdict(env, clock, w1, dir, entry, rest, Some(lock));
          assert OptionToSeq(current) + ([lock] + later) == OptionToSeq(Some(lock)) + later;
        }
      } else {
        FirstScanVerdict(env, clock, w1, dir, entry, rest, current);
        assert LiveClaims(clock, w.taken, locks, entry) == [] + later;
      }
    }
  }

  // ---------------------------------------------------------------- what write touches

  /** A request that cannot change the target: a read, or one on another path. */
  predicate Bystander(target: Path, q: Request)
  {
    IsRead(q) || q.path != target
  }

  ghost predicate Bystanders(target: Path, log: seq<Event>, from: nat)
  {
    forall i :: from <= i < |log| ==> Bystander(target, log[i].request)
  }

  /** No request of `log` from `from` on created `p`. */
  ghost predicate NoneCreated(p: Path, log: seq<Event>, from: nat)
  {
    forall i :: from <= i < |log| ==> !(log[i].ok && log[i].request.Create? && log[i].request.path == p)
  }

  lemma Chain(a: seq<Event>, b: seq<Event>, c: seq<Event>, target: Path, p: Path)
    requires Appended(a, b) && Appended(b, c)
    ensures Appended(a, c)
    ensures Bystanders(target, b, |a|) && Bystanders(target, c, |b|) ==> Bystanders(target, c, |a|)
    ensures NoneCreated(p, b, |a|) && NoneCreated(p, c, |b|) ==> NoneCreated(p, c, |a|)
  {
    assert c[..|b|][..|a|] == c[..|a|];
    assert forall i :: 0 <= i < |b| ==> c[i] == c[..|b|][i] == b[i];
  }

  lemma ReadsTouchNothing(a: seq<Event>, b: seq<Event>, target: Path, p: Path)
    requires ReadsOnly(a, b)
    ensures Bystanders(target, b, |a|) && NoneCreated(p, b, |a|)
  {
  }

  /** The first scan's deletions are all inside the lock directory, one level below the target's depth. */
  lemma ScanTouchesNoTarget(clock: nat -> int, taken: nat, dir: Path, locks: seq<LockInfo>, log: seq<Event>, from: nat,
                            target: Path, p: Path)
    requires |dir| == |target|
    requires OnlyExpiredDeleted(clock, taken, dir, locks, log, from)
    ensures Bystanders(target, log, from) && NoneCreated(p, log, from)
  {
    forall i | from <= i < |log|
      ensures Bystander(target, log[i].request) && !(log[i].ok && log[i].request.Create? && log[i].request.path == p)
    {
      assert DeletesExpiredLock(clock, taken, dir, locks, log[i].request);
      var k :| 0 <= k < |locks| && ExpiredAt(locks[k].contents, clock(taken + k)) && log[i].request == Delete(dir + [locks[k].lockFilename]);
      assert |log[i].request.path| == |target| + 1;
    }
  }

  /** Requests that leave the target alone commit nothing. */
  lemma BystandersCommitNothing(log: seq<Event>, from: nat, target: Path, contents: seq<byte>, outcome: Outcome)
    requires from <= |log| && Bystanders(target, log, from) && outcome != Success
    ensures CommitsExactly(log[from..], target, contents, outcome)
  {
    var events := log[from..];
    forall i | 0 <= i < |events| ensures Bystander(target, events[i].request) {
      assert events[i] == log[from + i];
    }
  }

  /** Requests that leave the target alone, followed by a part that meets the contract on its own. */
  lemma BystandersThenCommit(b: seq<Event>, c: seq<Event>, from: nat, target: Path, contents: seq<byte>, outcome: Outcome)
    requires from <= |b| && Appended(b, c) && Bystanders(target, b, from)
    requires CommitsExactly(c[|b|..], target, contents, outcome)
    ensures CommitsExactly(c[from..], target, contents, outcome)
  {
    var events := c[from..];
    var tail := c[|b|..];
    var m := |b| - from;
    assert forall i :: 0 <= i < m ==> events[i] == b[from + i] by {
      forall i | 0 <= i < m ensures events[i] == b[from + i] {
        assert events[i] == c[from + i] == c[..|b|][from + i];
      }
    }
    assert forall i :: m <= i < |events| ==> events[i] == tail[i - m];
    assert forall i :: 0 <= i < m ==> Bystander(target, events[i].request);
    if outcome == Success {
      var j :| 0 <= j < |tail| && tail[j] == Event(Create(target, Bytes(contents)), true);
      assert events[j + m] == tail[j];
    }
    forall i | 0 <= i < |events| && events[i] == Event(Create(target, Bytes(contents)), true)
      ensures outcome == Success
    {
      assert tail[i - m] == events[i];
    }
  }

  /** A part that meets the contract, followed by requests that leave the target alone. */
  lemma CommitThenBystanders(b: seq<Event>, c: seq<Event>, from: nat, target: Path, contents: seq<byte>, outcome: Outcome)
    requires from <= |b| && Appended(b, c) && Bystanders(target, c, |b|)
    requires CommitsExactly(b[from..], target, contents, outcome)
    ensures CommitsExactly(c[from..], target, contents, outcome)
  {
    var events := c[from..];
    var head := b[from..];
    var m := |b| - from;
    assert forall i :: 0 <= i < m ==> events[i] == head[i] by {
      forall i | 0 <= i < m ensures events[i] == head[i] {
        assert events[i] == c[from + i] == c[..|b|][from + i] == b[from + i];
      }
    }
    assert forall i :: m <= i < |events| ==> events[i] == c[from + i];
    assert forall i :: m <= i < |events| ==> Bystander(target, events[i].request);
    if outcome == Success {
      var j :| 0 <= j < |head| && head[j] == Event(Create(target, Bytes(contents)), true);
      assert events[j] == head[j];
    }
    forall i | 0 <= i < |events| && events[i] == Event(Create(target, Bytes(contents)), true)
      ensures outcome == Success
    {
      assert head[i] == events[i];
    }
  }

  /** The re-check and the commit touch nothing but the target, and meet the contract on their own. */
  lemma CommitMeetsContract(env: Env, w: World, target: Path, contents: seq<byte>)
    ensures var r := Commit(env, w, target, contents);
      && Appended(w.store.log, r.world.store.log)
      && CommitsExactly(r.world.store.log[|w.store.log|..], target, contents, r.outcome)
      && forall i :: |w.store.log| <= i < |r.world.store.log| ==> r.world.store.log[i].request.path == target
  {
    var r := Commit(env, w, target, contents);
    var events := r.world.store.log[|w.store.log|..];
    var recheck := DoExists(env, w.store, target);
    if recheck.result.Ok? && !recheck.result.value {
      var created := DoCreate(env, recheck.state, target, Bytes(contents));
      assert events == [Event(Exists(target), true), Event(Create(target, Bytes(contents)), created.result.Ok?)];
      if r.outcome == Success {
        assert events[1] == Event(Create(target, Bytes(contents)), true);
      }
    } else {
      assert events == [Event(Exists(target), recheck.result.Ok?)];
    }
  }

  /** The second listing, the competitor check and the commit. */
  lemma VerifyAndCommitMeetsContract(env: Env, w: World, dir: Path, entry: string, mine: LockInfo,
                                     target: Path, contents: seq<byte>, p: Path)
    requires p != target
    ensures var r := VerifyAndCommit(env, w, dir, entry, mine, target, contents);
      && Appended(w.store.log, r.world.store.log)
      && CommitsExactly(r.world.store.log[|w.store.log|..], target, contents, r.outcome)
      && NoneCreated(p, r.world.store.log, |w.store.log|)
  {
    var listed := ListLockInfos(env, w.store, dir);
    var w1 := w.(store := listed.state);
    var r := VerifyAndCommit(env, w, dir, entry, mine, target, contents);
    ListLockInfosReadsOnly(env, w.store, dir);
    ReadsTouchNothing(w.store.log, w1.store.log, target, p);
    if listed.result.Ok? && FirstOtherLock(listed.result.value, entry, mine.lockFilename).None? {
      CommitMeetsContract(env, w1, target, contents);
      assert r == Commit(env, w1, target, contents);
      assert NoneCreated(p, r.world.store.log, |w1.store.log|);
      Chain(w.store.log, w1.store.log, r.world.store.log, target, p);
      BystandersThenCommit(w1.store.log, r.world.store.log, |w.store.log|, target, contents, r.outcome);
    } else {
      BystandersCommitNothing(r.world.store.log, |w.store.log|, target, contents, r.outcome);
    }
  }

  /** The path of the lock this writer creates for `target`. */
  function MyLockPath(target: Path, queryId: string): Path
    requires target != []
  {
    LockDirectory(target) + [LockFilename(Name(target), queryId)]
  }

  /**
   * The `try` block from writeNewLockInfo on meets the contract over the
   * requests since `from`, provided those made before touched only other
   * paths or read, and did not create this writer's lock.
   */
  lemma LockedPhaseMeetsContract(env: Env, clock: nat -> int, w: World, clusterId: string, queryId: string,
                                 target: Path, contents: seq<byte>, from: nat)
    requires target != []
    requires from <= |w.store.log| && Bystanders(target, w.store.log, from)
    requires NoneCreated(MyLockPath(target, queryId), w.store.log, from)
    ensures var a := AttemptFromLock(env, clock, w, LockDirectory(target), Name(target), clusterId, queryId, target, contents);
      && Appended(w.store.log, a.world.store.log)
      && CommitsExactly(a.world.store.log[from..], target, contents, a.outcome)
      && (a.mine.Some? ==> a.mine.value.lockFilename == LockFilename(Name(target), queryId))
      && (SingleLine(Name(target)) && SingleLine(queryId) && a.mine.None? ==>
            NoneCreated(MyLockPath(target, queryId), a.world.store.log, from))
  {
    var dir := LockDirectory(target);
    var entry := Name(target);
    var p := MyLockPath(target, queryId);
    assert |dir| == |target| && |p| == |target| + 1;
    var acquired := AcquireLock(env, clock, w, dir, entry, clusterId, queryId);
    var log3 := w.store.log;
    var log4 := acquired.world.store.log;
    assert Appended(log3, log4) && Bystanders(target, log4, |log3|);
    assert forall i :: from <= i < |log3| ==> log4[i] == log3[i];
    assert Bystanders(target, log4, from);
    if acquired.verdict.Finish? {
      assert SingleLine(entry) && SingleLine(queryId) ==> NoneCreated(p, log4, from);
      BystandersCommitNothing(log4, from, target, contents, acquired.verdict.outcome);
    } else {
      var mine := acquired.verdict.value;
      var done := VerifyAndCommit(env, acquired.world, dir, entry, mine, target, contents);
      VerifyAndCommitMeetsContract(env, acquired.world, dir, entry, mine, target, contents, p);
      BystandersThenCommit(log4, done.world.store.log, from, target, contents, done.outcome);
      Chain(log3, log4, done.world.store.log, target, p);
    }
  }

  /** The `try` block from the first listing on meets the contract over the requests since `from`, under the same proviso. */
  lemma ListedPhaseMeetsContract(env: Env, clock: nat -> int, w: World, clusterId: string, queryId: string,
                                 target: Path, contents: seq<byte>, from: nat)
    requires target != []
    requires from <= |w.store.log| && Bystanders(target, w.store.log, from)
    requires NoneCreated(MyLockPath(target, queryId), w.store.log, from)
    ensures var a := AttemptFromListing(env, clock, w, LockDirectory(target), Name(target), clusterId, queryId, target, contents);
      && Appended(w.store.log, a.world.store.log)
      && CommitsExactly(a.world.store.log[from..], target, contents, a.outcome)
      && (a.mine.Some? ==> a.mine.value.lockFilename == LockFilename(Name(target), queryId))
      && (SingleLine(Name(target)) && SingleLine(queryId) && a.mine.None? ==>
            NoneCreated(MyLockPath(target, queryId), a.world.store.log, from))
  {
    var dir := LockDirectory(target);
    var entry := Name(target);
    var p := MyLockPath(target, queryId);
    assert |dir| == |target| && |p| == |target| + 1;
    var log1 := w.store.log;
    var listed := ListLockInfos(env, w.store, dir);
    var w2 := w.(store := listed.state);
    ListLockInfosReadsOnly(env, w.store, dir);
    ReadsTouchNothing(log1, w2.store.log, target, p);
    assert forall i :: from <= i < |log1| ==> w2.store.log[i] == log1[i];
    assert Bystanders(target, w2.store.log, from) && NoneCreated(p, w2.store.log, from);
    if listed.result.Err? {
      BystandersCommitNothing(w2.store.log, from, target, contents, IOError(listed.result.error));
    } else {
      var locks := listed.result.value;
      var scan := FirstScan(env, clock, w2, dir, entry, locks, None);
      FirstScanShape(env, clock, w2, dir, entry, locks, None);
      FirstScanDeletesOnlyExpired(env, clock, w2, dir, entry, locks, None);
      ScanTouchesNoTarget(clock, w2.taken, dir, locks, scan.world.store.log, |w2.store.log|, target, p);
      Chain(log1, w2.store.log, scan.world.store.log, target, p);
      assert forall i :: from <= i < |log1| ==> scan.world.store.log[i] == log1[i];
      assert Bystanders(target, scan.world.store.log, from) && NoneCreated(p, scan.world.store.log, from);
      if scan.verdict.Finish? || scan.verdict.value.Some? {
        var a := AttemptFromListing(env, clock, w, dir, entry, clusterId, queryId, target, contents);
        BystandersCommitNothing(a.world.store.log, from, target, contents, a.outcome);
      } else {
        LockedPhaseMeetsContract(env, clock, scan.world, clusterId, queryId, target, contents, from);
      }
    }
  }

  /**
   * The `try` block meets the shared contract. When the entry and query names
   * are single lines, it hands the `finally` block this writer's lock whenever
   * it created one, so that lock is never left behind.
   */
  lemma AttemptMeetsContract(env: Env, clock: nat -> int, w: World, clusterId: string, queryId: string,
                             target: Path, contents: seq<byte>)
    requires target != []
    ensures var a := Attempt(env, clock, w, clusterId, queryId, target, contents);
      && Appended(w.store.log, a.world.store.log)
      && CommitsExactly(a.world.store.log[|w.store.log|..], target, contents, a.outcome)
      && (a.mine.Some? ==> a.mine.value.lockFilename == LockFilename(Name(target), queryId))
      && (SingleLine(Name(target)) && SingleLine(queryId) && a.mine.None? ==>
            NoneCreated(MyLockPath(target, queryId), a.world.store.log, |w.store.log|))
  {
    var a := Attempt(env, clock, w, clusterId, queryId, target, contents);
    var check := DoExists(env, w.store, target);
    var w1 := w.(store := check.state);
    assert Appended(w.store.log, w1.store.log) && Bystanders(target, w1.store.log, |w.store.log|)
        && NoneCreated(MyLockPath(target, queryId), w1.store.log, |w.store.log|);
    if check.result.Err? || check.result.value {
      BystandersCommitNothing(a.world.store.log, |w.store.log|, target, contents, a.outcome);
    } else {
      ListedPhaseMeetsContract(env, clock, w1, clusterId, queryId, target, contents, |w.store.log|);
      assert a.world.store.log[..|w1.store.log|][..|w.store.log|] == a.world.store.log[..|w.store.log|];
    }
  }

  /**
   * The `finally` block: write reports exactly what the `try` block ended
   * with, whether or not deleting the lock fails; when the `try` block holds
   * this writer's lock, that lock's deletion is the last request made. With
   * single-line names, a lock this call created is always deleted at the end.
   */
  lemma OwnLockReleased(env: Env, clock: nat -> int, w: World, clusterId: string, queryId: string,
                        target: Path, contents: seq<byte>)
    requires target != []
    ensures var a := Attempt(env, clock, w, clusterId, queryId, target, contents);
      var r := Write(env, clock, w, clusterId, queryId, target, contents);
      var p := MyLockPath(target, queryId);
      && r.outcome == a.outcome
      && (a.mine.Some? ==>
            && r.world == a.world.(store := DoDelete(env, a.world.store, p).state)
            && r.world.store.log == a.world.store.log + [Event(Delete(p), |a.world.store.log| !in env.faults)])
      && (a.mine.None? ==> r.world == a.world)
      && (SingleLine(Name(target)) && SingleLine(queryId) && !NoneCreated(p, r.world.store.log, |w.store.log|) ==>
            r.world.store.log[|r.world.store.log| - 1] == Event(Delete(p), |a.world.store.log| !in env.faults))
  {
    AttemptMeetsContract(env, clock, w, clusterId, queryId, target, contents);
  }

  /**
   * In an empty store whose first three requests succeed, `write` on ["t"]
   * checks, lists, scans nothing, creates its lock, and its `try` block goes
   * on with the second listing.
   */
  lemma EmptyStoreLocks(env: Env, clock: nat -> int, clusterId: string, queryId: string, contents: seq<byte>)
    requires 0 !in env.faults && 1 !in env.faults && 2 !in env.faults
    requires env.others == map[] && env.order({}) == [] && SingleLine(queryId)
    ensures FirstListing(env, World(State(map[], []), 0), ["t"]).result == Ok([])
    ensures var w := World(State(map[], []), 0);
      var dir := LockDirectory(["t"]);
      var scan := FirstScanOf(env, clock, w, ["t"]);
      var acquired := AcquireLock(env, clock, scan.world, dir, "t", clusterId, queryId);
      && acquired.verdict.Continue? && acquired.verdict.value.lockFilename == LockFilename("t", queryId)
      && acquired.world.store.files == map[dir + [LockFilename("t", queryId)] := MyLockBlob(clock, 0, clusterId, queryId)]
      && |acquired.world.store.log| == 3
      && var done := VerifyAndCommit(env, acquired.world, dir, "t", acquired.verdict.value, ["t"], contents);
         Attempt(env, clock, w, clusterId, queryId, ["t"], contents) == Attempted(done.outcome, done.world, Some(acquired.verdict.value))
  {
    var w := World(State(map[], []), 0);
    var target: Path := ["t"];
    assert SingleLine(Name(target));
    assert Children(map[], LockDirectory(target)) == {};
    assert FirstListing(env, w, target).result == Ok([]);
    var scan := FirstScanOf(env, clock, w, target);
    assert scan.verdict == Continue(None) && scan.world.store.files == map[] && |scan.world.store.log| == 2 && scan.world.taken == 0;
    LockFilenameMatches("t", queryId);
    AttemptThroughLock(env, clock, w, clusterId, queryId, target, contents);
  }

  /**
   * An IO error of the second listing, once this writer's lock exists, ends
   * `write` with that error, and the `finally` block still deletes the lock:
   * here in an empty store whose fourth request fails.
   */
  lemma SecondListingFailureReleases(env: Env, clock: nat -> int, clusterId: string, queryId: string, contents: seq<byte>)
    requires env.faults == {3} && env.others == map[] && env.order({}) == []
    requires SingleLine(queryId)
    ensures var w := World(State(map[], []), 0);
      var a := Attempt(env, clock, w, clusterId, queryId, ["t"], contents);
      var r := Write(env, clock, w, clusterId, queryId, ["t"], contents);
      && a.mine.Some? && a.outcome == IOError(Failed(List(LockDirectory(["t"]))))
      && r.outcome == a.outcome && r.world.store.files == map[]
  {
    EmptyStoreLocks(env, clock, clusterId, queryId, contents);
  }

  /**
   * An IO error of the existence re-check, once this writer's lock exists,
   * ends `write` with that error, and the lock is still deleted: here in an
   * empty store whose sixth request fails.
   */
  lemma RecheckFailureReleases(env: Env, clock: nat -> int, clusterId: string, queryId: string, contents: seq<byte>)
    requires env.faults == {5} && env.others == map[] && env.order({}) == []
    requires env.order({LockFilename("t", queryId)}) == [LockFilename("t", queryId)]
    requires SingleLine(queryId)
    ensures var w := World(State(map[], []), 0);
      var a := Attempt(env, clock, w, clusterId, queryId, ["t"], contents);
      var r := Write(env, clock, w, clusterId, queryId, ["t"], contents);
      && a.mine.Some? && a.outcome == IOError(Failed(Exists(["t"])))
      && r.outcome == a.outcome && r.world.store.files == map[]
  {
    var w := World(State(map[], []), 0);
    var dir := LockDirectory(["t"]);
    EmptyStoreLocks(env, clock, clusterId, queryId, contents);
    var acquired := AcquireLock(env, clock, FirstScanOf(env, clock, w, ["t"]).world, dir, "t", clusterId, queryId);
    LockFilenameMatches("t", queryId);
    OwnLockRecheckFails(env, acquired.world, dir, "t", acquired.verdict.value, ["t"], contents,
                        MyLockBlob(clock, 0, clusterId, queryId).contents);
  }

  /** With only this writer's lock listed, a failing re-check ends the second phase with that error. */
  lemma OwnLockRecheckFails(env: Env, w: World, dir: Path, entry: string, mine: LockInfo, target: Path,
                            contents: seq<byte>, c: LockFileContents)
    requires MatchesLockPattern(mine.lockFilename)
    requires env.others == map[] && |w.store.log| !in env.faults && |w.store.log| + 1 !in env.faults
    requires |w.store.log| + 2 in env.faults
    requires w.store.files == map[dir + [mine.lockFilename] := LockRecord(c)]
    requires env.order({mine.lockFilename}) == [mine.lockFilename]
    ensures var done := VerifyAndCommit(env, w, dir, entry, mine, target, contents);
      && done.outcome == IOError(Failed(Exists(target)))
      && done.world.store.files == w.store.files && |done.world.store.log| == |w.store.log| + 3
  {
    OnlyOwnLockListed(env, w.store, dir, mine.lockFilename, c);
    var listed := ListLockInfos(env, w.store, dir);
    assert FirstOtherLock(listed.result.value, entry, mine.lockFilename).None?;
  }

  /** Listing a lock directory that holds only the lock `myName` yields that one lock, in two requests. */
  lemma OnlyOwnLockListed(env: Env, s: State, dir: Path, myName: string, c: LockFileContents)
    requires MatchesLockPattern(myName)
    requires env.others == map[] && |s.log| !in env.faults && |s.log| + 1 !in env.faults
    requires s.files == map[dir + [myName] := LockRecord(c)]
    requires env.order({myName}) == [myName]
    ensures var listed := ListLockInfos(env, s, dir);
      && listed.result.Ok? && |listed.result.value| == 1 && listed.result.value[0].lockFilename == myName
      && listed.state.files == s.files && |listed.state.log| == |s.log| + 2
  {
    forall n ensures dir + [n] in s.files <==> n == myName {
      assert (dir + [n])[|dir|] == n && (dir + [myName])[|dir|] == myName;
    }
    assert Children(s.files, dir) == {myName};
    var listing := DoList(env, s, dir);
    assert listing.result == Ok([myName]) && |listing.state.log| == |s.log| + 1;
    var read := ReadLockFile(env, listing.state, dir + [myName]);
    assert read.result.Ok? && |read.state.log| == |s.log| + 2;
    assert [myName][0] == myName && [myName][1..] == [];
    assert ReadLocks(env, read.state, dir, []) == Step(Ok([]), read.state);
    assert ReadLocks(env, listing.state, dir, [myName]) == Prepend(OptionToSeq(read.result.value), Step(Ok([]), read.state));
  }

  /** The first listing of the lock directory, made right after the existence check. */
  function FirstListing(env: Env, w: World, target: Path): Step<seq<LockInfo>>
    requires target != []
  {
    ListLockInfos(env, DoExists(env, w.store, target).state, LockDirectory(target))
  }

  /** The first scan finds a live claim: write stops with its verdict before creating its own lock. */
  lemma FirstScanClaimedWrite(env: Env, clock: nat -> int, w: World, clusterId: string, queryId: string,
                              target: Path, contents: seq<byte>)
    requires target != []
    requires |w.store.log| !in env.faults && target !in Settle(env, w.store).files
    requires FirstListing(env, w, target).result.Ok?
    requires NoFailureIn(env, |FirstListing(env, w, target).state.log|, |FirstListing(env, w, target).result.value|)
    ensures var claims := LiveClaims(clock, w.taken, FirstListing(env, w, target).result.value, Name(target));
      var r := Write(env, clock, w, clusterId, queryId, target, contents);
      |claims| >= 1 ==>
      && (|claims| >= 2 ==> r.outcome == IllegalState(MultipleLiveLocks(claims[0].lockFilename, claims[1].lockFilename)))
      && (|claims| == 1 ==> r.outcome == Conflict(LockedBeforeAcquire(claims[0].contents)))
      && NoneCreated(MyLockPath(target, queryId), r.world.store.log, |w.store.log|)
  {
    var dir := LockDirectory(target);
    var entry := Name(target);
    var p := MyLockPath(target, queryId);
    assert |dir| == |target|;
    var log0 := w.store.log;
    var w1 := w.(store := DoExists(env, w.store, target).state);
    var listed := ListLockInfos(env, w1.store, dir);
    var w2 := w1.(store := listed.state);
    var locks := listed.result.value;
    var scan := FirstScan(env, clock, w2, dir, entry, locks, None);
    FirstScanVerdict(env, clock, w2, dir, entry, locks, None);
    var claims := LiveClaims(clock, w.taken, locks, entry);
    assert OptionToSeq<LockInfo>(None) + claims == claims;
    var r := Write(env, clock, w, clusterId, queryId, target, contents);
    if |claims| >= 1 {
      assert r.world == scan.world;
      ListLockInfosReadsOnly(env, w1.store, dir);
      ReadsTouchNothing(w1.store.log, w2.store.log, target, p);
      Chain(log0, w1.store.log, w2.store.log, target, p);
      FirstScanDeletesOnlyExpired(env, clock, w2, dir, entry, locks, None);
      ScanTouchesNoTarget(clock, w2.taken, dir, locks, scan.world.store.log, |w2.store.log|, target, p);
      Chain(log0, w2.store.log, scan.world.store.log, target, p);
    }
  }

  /** The first scan finds no live claim: write goes on to create its own lock. */
  lemma FirstScanUnclaimedWrite(env: Env, clock: nat -> int, w: World, clusterId: string, queryId: string,
                                target: Path, contents: seq<byte>)
    requires target != []
    requires |w.store.log| !in env.faults && target !in Settle(env, w.store).files
    requires FirstListing(env, w, target).result.Ok?
    requires NoFailureIn(env, |FirstListing(env, w, target).state.log|, |FirstListing(env, w, target).result.value|)
    ensures var claims := LiveClaims(clock, w.taken, FirstListing(env, w, target).result.value, Name(target));
      var r := Write(env, clock, w, clusterId, queryId, target, contents);
      |claims| == 0 ==> exists i :: |w.store.log| <= i < |r.world.store.log| &&
                         r.world.store.log[i].request.Create? && r.world.store.log[i].request.path == MyLockPath(target, queryId)
  {
    var dir := LockDirectory(target);
    var entry := Name(target);
    var p := MyLockPath(target, queryId);
    assert |dir| == |target|;
    var log0 := w.store.log;
    var w1 := w.(store := DoExists(env, w.store, target).state);
    var listed := ListLockInfos(env, w1.store, dir);
    var w2 := w1.(store := listed.state);
    var locks := listed.result.value;
    var scan := FirstScan(env, clock, w2, dir, entry, locks, None);
    FirstScanVerdict(env, clock, w2, dir, entry, locks, None);
    var claims := LiveClaims(clock, w.taken, locks, entry);
    assert OptionToSeq<LockInfo>(None) + claims == claims;
    var r := Write(env, clock, w, clusterId, queryId, target, contents);
    if |claims| == 0 {
      var acquired := AcquireLock(env, clock, scan.world, dir, entry, clusterId, queryId);
      var k := |scan.world.store.log|;
      assert acquired.world.store.log[k].request == Create(p, acquired.world.store.log[k].request.blob);
      AttemptMeetsContract(env, clock, w, clusterId, queryId, target, contents);
      var a := Attempt(env, clock, w, clusterId, queryId, target, contents);
      FirstScanDeletesOnlyExpired(env, clock, w2, dir, entry, locks, None);
      ListLockInfosReadsOnly(env, w1.store, dir);
      assert |log0| <= k;
      if acquired.verdict.Continue? {
        var done := VerifyAndCommit(env, acquired.world, dir, entry, acquired.verdict.value, target, contents);
        VerifyAndCommitMeetsContract(env, acquired.world, dir, entry, acquired.verdict.value, target, contents, p);
        assert done.world.store.log[k] == acquired.world.store.log[k] by {
          assert done.world.store.log[..|acquired.world.store.log|][k] == acquired.world.store.log[k];
        }
        assert a.world == done.world;
      } else {
        assert a.world == acquired.world;
      }
      assert Appended(a.world.store.log, r.world.store.log);
      assert r.world.store.log[k] == a.world.store.log[..|a.world.store.log|][k];
    }
  }

  /**
   * The first scan decides write: two or more live locks for the entry are an
   * invariant violation naming the first two, exactly one is a conflict
   * reporting its contents, and in both cases this writer never creates its
   * lock; with none, the writer goes on to request its lock.
   */
  lemma FirstScanDecidesWrite(env: Env, clock: nat -> int, w: World, clusterId: string, queryId: string,
                              target: Path, contents: seq<byte>)
    requires target != []
    requires |w.store.log| !in env.faults && target !in Settle(env, w.store).files
    requires FirstListing(env, w, target).result.Ok?
    requires NoFailureIn(env, |FirstListing(env, w, target).state.log|, |FirstListing(env, w, target).result.value|)
    ensures var claims := LiveClaims(clock, w.taken, FirstListing(env, w, target).result.value, Name(target));
      var r := Write(env, clock, w, clusterId, queryId, target, contents);
      && (|claims| >= 2 ==> r.outcome == IllegalState(MultipleLiveLocks(claims[0].lockFilename, claims[1].lockFilename)))
      && (|claims| == 1 ==> r.outcome == Conflict(LockedBeforeAcquire(claims[0].contents)))
      && (|claims| >= 1 ==> NoneCreated(MyLockPath(target, queryId), r.world.store.log, |w.store.log|))
      && (|claims| == 0 ==> exists i :: |w.store.log| <= i < |r.world.store.log| &&
                                       r.world.store.log[i].request.Create? && r.world.store.log[i].request.path == MyLockPath(target, queryId))
  {
    FirstScanClaimedWrite(env, clock, w, clusterId, queryId, target, contents);
    FirstScanUnclaimedWrite(env, clock, w, clusterId, queryId, target, contents);
  }

  /** write, `try` and `finally` together, meets the contract shared by both synchronizers. */
  lemma WriteHonoursContract(env: Env, clock: nat -> int, w: World, clusterId: string, queryId: string,
                             target: Path, contents: seq<byte>)
    requires target != []
    ensures var r := Write(env, clock, w, clusterId, queryId, target, contents);
      && Appended(w.store.log, r.world.store.log)
      && CommitsExactly(r.world.store.log[|w.store.log|..], target, contents, r.outcome)
  {
    var a := Attempt(env, clock, w, clusterId, queryId, target, contents);
    var r := Write(env, clock, w, clusterId, queryId, target, contents);
    AttemptMeetsContract(env, clock, w, clusterId, queryId, target, contents);
    if a.mine.Some? {
      var p := MyLockPath(target, queryId);
      assert |p| == |target| + 1;
      assert Appended(a.world.store.log, r.world.store.log);
      assert Bystanders(target, r.world.store.log, |a.world.store.log|);
      CommitThenBystanders(a.world.store.log, r.world.store.log, |w.store.log|, target, contents, r.outcome);
      Chain(w.store.log, a.world.store.log, r.world.store.log, target, p);
    }
  }

  /**
   * An entry that is already present is a conflict found by the very first
   * request; nothing is listed, locked or written.
   */
  lemma TargetPresentConflicts(env: Env, clock: nat -> int, w: World, clusterId: string, queryId: string,
                               target: Path, contents: seq<byte>)
    requires target != []
    requires |w.store.log| !in env.faults && target in Settle(env, w.store).files
    ensures var r := Write(env, clock, w, clusterId, queryId, target, contents);
      && r.outcome == Conflict(AlreadyExists(target))
      && r.world.taken == w.taken
      && r.world.store.files == Settle(env, w.store).files
      && r.world.store.log == w.store.log + [Event(Exists(target), true)]
  {
  }

  // ---------------------------------------------------------------- a writer alone

  /** What listLockInfos yields when nobody else writes and nothing fails: the lock records among `names`. */
  function Records(files: map<Path, Blob>, dir: Path, names: seq<string>): seq<LockInfo>
    decreases |names|
  {
    if names == [] then []
    else
      var path := dir + [names[0]];
      var rest := Records(files, dir, names[1..]);
      if MatchesLockPattern(names[0]) && path in files && files[path].LockRecord? then
        [NewLockInfo(names[0], files[path].contents)] + rest
      else rest
  }

  lemma {:induction false} ReadLocksClosed(env: Env, s: State, dir: Path, names: seq<string>)
    requires Isolated(env)
    ensures ReadLocks(env, s, dir, names).result == Ok(Records(s.files, dir, names))
    ensures ReadLocks(env, s, dir, names).state.files == s.files
    decreases |names|
  {
    if names != [] {
      if MatchesLockPattern(names[0]) {
        var path := dir + [names[0]];
        assert Name(path) == names[0];
        var read := ReadLockFile(env, s, path);
        ReadLocksClosed(env, read.state, dir, names[1..]);
        assert read.state.files == s.files;
        if path in s.files && s.files[path].LockRecord? {
          assert read.result == Ok(Some(NewLockInfo(names[0], s.files[path].contents)));
        } else {
          assert read.result == Ok(None);
          assert OptionToSeq<LockInfo>(None) + Records(s.files, dir, names[1..]) == Records(s.files, dir, names[1..]);
        }
      } else {
        ReadLocksClosed(env, s, dir, names[1..]);
      }
    }
  }

  /** Every record found is a lock file of the directory, read as it is. */
  lemma {:induction false} RecordsSound(files: map<Path, Blob>, dir: Path, names: seq<string>, i: int)
    requires 0 <= i < |Records(files, dir, names)|
    ensures var lock := Records(files, dir, names)[i];
      && dir + [lock.lockFilename] in files
      && files[dir + [lock.lockFilename]] == LockRecord(lock.contents)
      && Some(lock.entryFilename) == ParseEntryFilename(lock.lockFilename)
    decreases |names|
  {
    var path := dir + [names[0]];
    var rest := Records(files, dir, names[1..]);
    if MatchesLockPattern(names[0]) && path in files && files[path].LockRecord? {
      if i > 0 {
        RecordsSound(files, dir, names[1..], i - 1);
      }
    } else {
      RecordsSound(files, dir, names[1..], i);
    }
  }

  /** Every lock file of the directory whose name is among `names` is found. */
  lemma {:induction false} RecordsComplete(files: map<Path, Blob>, dir: Path, names: seq<string>, n: string)
    requires n in names && MatchesLockPattern(n) && dir + [n] in files && files[dir + [n]].LockRecord?
    ensures exists i :: 0 <= i < |Records(files, dir, names)| && Records(files, dir, names)[i].lockFilename == n
    decreases |names|
  {
    var rs := Records(files, dir, names);
    var rest := Records(files, dir, names[1..]);
    var found := MatchesLockPattern(names[0]) && dir + [names[0]] in files && files[dir + [names[0]]].LockRecord?;
    if names[0] == n {
      assert rs[0].lockFilename == n;
    } else {
      RecordsComplete(files, dir, names[1..], n);
      var i :| 0 <= i < |rest| && rest[i].lockFilename == n;
      if found {
        assert rs[i + 1] == rest[i];
      } else {
        assert rs[i] == rest[i];
      }
    }
  }

  lemma ListLockInfosClosed(env: Env, s: State, dir: Path)
    requires Isolated(env)
    ensures ListLockInfos(env, s, dir).result == Ok(Records(s.files, dir, env.order(Children(s.files, dir))))
    ensures ListLockInfos(env, s, dir).state.files == s.files
  {
    var listed := DoList(env, s, dir);
    ReadLocksClosed(env, listed.state, dir, env.order(Children(s.files, dir)));
  }

  /** The paths the first scan deletes: those of the locks expired at their readings. */
  function ExpiredPaths(clock: nat -> int, taken: nat, dir: Path, locks: seq<LockInfo>): set<Path>
    decreases |locks|
  {
    if locks == [] then {}
    else
      (if ExpiredAt(locks[0].contents, clock(taken)) then {dir + [locks[0].lockFilename]} else {})
      + ExpiredPaths(clock, taken + 1, dir, locks[1..])
  }

  lemma {:induction false} ExpiredPathsHolds(clock: nat -> int, taken: nat, dir: Path, locks: seq<LockInfo>, k: int)
    requires 0 <= k < |locks| && ExpiredAt(locks[k].contents, clock(taken + k))
    ensures dir + [locks[k].lockFilename] in ExpiredPaths(clock, taken, dir, locks)
    decreases |locks|
  {
    if k > 0 {
      ExpiredPathsHolds(clock, taken + 1, dir, locks[1..], k - 1);
    }
  }

  lemma {:induction false} ExpiredPathsAreLocks(clock: nat -> int, taken: nat, dir: Path, locks: seq<LockInfo>, q: Path)
    requires q in ExpiredPaths(clock, taken, dir, locks)
    ensures exists k :: 0 <= k < |locks| && q == dir + [locks[k].lockFilename]
    decreases |locks|
  {
    if q !in (if ExpiredAt(locks[0].contents, clock(taken)) then {dir + [locks[0].lockFilename]} else {}) {
      ExpiredPathsAreLocks(clock, taken + 1, dir, locks[1..], q);
      var k :| 0 <= k < |locks[1..]| && q == dir + [locks[1..][k].lockFilename];
      assert locks[1..][k] == locks[k + 1];
    } else {
      assert q == dir + [locks[0].lockFilename];
    }
  }

  /** Nobody else writing and nothing failing, a first scan that lets the writer go on deletes exactly the expired locks. */
  lemma {:induction false} FirstScanClosed(env: Env, clock: nat -> int, w: World, dir: Path, entry: string,
                                           locks: seq<LockInfo>, current: Option<LockInfo>)
    requires Isolated(env)
    ensures var r := FirstScan(env, clock, w, dir, entry, locks, current);
      r.verdict.Continue? ==>
        && r.world.store.files == w.store.files - ExpiredPaths(clock, w.taken, dir, locks)
        && r.world.taken == w.taken + |locks|
    decreases |locks|
  {
    if locks != [] {
      var lock := locks[0];
      var w1 := w.(taken := w.taken + 1);
      if ExpiredAt(lock.contents, clock(w.taken)) {
        var deleted := DoDelete(env, w1.store, dir + [lock.lockFilename]);
        FirstScanClosed(env, clock, w1.(store := deleted.state), dir, entry, locks[1..], current);
        assert w.store.files - {dir + [lock.lockFilename]} - ExpiredPaths(clock, w.taken + 1, dir, locks[1..])
            == w.store.files - ExpiredPaths(clock, w.taken, dir, locks);
      } else {
        var next := if lock.entryFilename == entry then Some(lock) else current;
        FirstScanClosed(env, clock, w1, dir, entry, locks[1..], next);
      }
    }
  }

  /** No listed lock for the entry is live at its reading. */
  lemma {:induction false} NoLiveClaims(clock: nat -> int, taken: nat, locks: seq<LockInfo>, entry: string)
    requires forall k :: 0 <= k < |locks| && locks[k].entryFilename == entry ==> ExpiredAt(locks[k].contents, clock(taken + k))
    ensures LiveClaims(clock, taken, locks, entry) == []
    decreases |locks|
  {
    if locks != [] {
      assert locks[0].entryFilename == entry ==> ExpiredAt(locks[0].contents, clock(taken + 0));
      forall k | 0 <= k < |locks[1..]| && locks[1..][k].entryFilename == entry
        ensures ExpiredAt(locks[1..][k].contents, clock(taken + 1 + k))
      {
        assert locks[1..][k] == locks[k + 1];
      }
      NoLiveClaims(clock, taken + 1, locks[1..], entry);
    }
  }

  lemma ExpiryPersists(clock: nat -> int, c: LockFileContents, i: nat, j: nat)
    requires NonDecreasing(clock) && i <= j && ExpiredAt(c, clock(i))
    ensures ExpiredAt(c, clock(j))
  {
  }

  /** A lock file in `dir` for `entry`. */
  ghost predicate RecordFor(files: map<Path, Blob>, dir: Path, n: string, entry: string)
  {
    dir + [n] in files && files[dir + [n]].LockRecord? && ParseEntryFilename(n) == Some(entry)
  }

  /** The lock files of the directory, as the first listing of a writer alone reads them. */
  function AloneLocks(env: Env, files: map<Path, Blob>, dir: Path): seq<LockInfo>
  {
    Records(files, dir, env.order(Children(files, dir)))
  }

  /** Every lock for `entry` had expired by reading `t0`. */
  ghost predicate AllExpired(files: map<Path, Blob>, dir: Path, entry: string, clock: nat -> int, t0: nat)
  {
    forall n :: RecordFor(files, dir, n, entry) ==> ExpiredAt(files[dir + [n]].contents, clock(t0))
  }

  /** The first scan of a writer alone, where every lock for the entry expired by reading `t0`, lets the writer go on. */
  lemma AloneScanProceeds(env: Env, clock: nat -> int, w: World, dir: Path, entry: string, t0: nat)
    requires Isolated(env) && NonDecreasing(clock) && t0 <= w.taken
    requires AllExpired(w.store.files, dir, entry, clock, t0)
    ensures var locks := AloneLocks(env, w.store.files, dir);
      var scan := FirstScan(env, clock, w, dir, entry, locks, None);
      && scan.verdict == Continue(None)
      && scan.world.store.files == w.store.files - ExpiredPaths(clock, w.taken, dir, locks)
      && scan.world.taken == w.taken + |locks|
  {
    var files := w.store.files;
    var names := env.order(Children(files, dir));
    var locks := Records(files, dir, names);
    forall k | 0 <= k < |locks| && locks[k].entryFilename == entry
      ensures ExpiredAt(locks[k].contents, clock(w.taken + k))
    {
      RecordsSound(files, dir, names, k);
      assert RecordFor(files, dir, locks[k].lockFilename, entry);
      ExpiryPersists(clock, locks[k].contents, t0, w.taken + k);
    }
    NoLiveClaims(clock, w.taken, locks, entry);
    FirstScanVerdict(env, clock, w, dir, entry, locks, None);
    assert OptionToSeq<LockInfo>(None) + [] == [];
    FirstScanClosed(env, clock, w, dir, entry, locks, None);
  }

  /** That scan deletes every lock file for the entry, and nothing but lock files of the directory. */
  lemma AloneScanClears(env: Env, clock: nat -> int, files: map<Path, Blob>, taken: nat, dir: Path, entry: string, t0: nat)
    requires ValidEnv(env) && NonDecreasing(clock) && t0 <= taken
    requires AllExpired(files, dir, entry, clock, t0)
    ensures var expired := ExpiredPaths(clock, taken, dir, AloneLocks(env, files, dir));
      && (forall n :: RecordFor(files, dir, n, entry) ==> dir + [n] in expired)
      && (forall n, e :: RecordFor(files, dir, n, e) && ExpiredAt(files[dir + [n]].contents, clock(t0)) ==> dir + [n] in expired)
      && (forall q :: q in expired && q in files ==> |q| == |dir| + 1 && q[..|dir|] == dir && files[q].LockRecord?)
  {
    var names := env.order(Children(files, dir));
    var locks := Records(files, dir, names);
    var expired := ExpiredPaths(clock, taken, dir, locks);
    forall n, e | RecordFor(files, dir, n, e) && ExpiredAt(files[dir + [n]].contents, clock(t0))
      ensures dir + [n] in expired
    {
      assert n in names;
      RecordsComplete(files, dir, names, n);
      var k :| 0 <= k < |locks| && locks[k].lockFilename == n;
      RecordsSound(files, dir, names, k);
      ExpiryPersists(clock, locks[k].contents, t0, taken + k);
      ExpiredPathsHolds(clock, taken, dir, locks, k);
    }
    forall n | RecordFor(files, dir, n, entry) ensures dir + [n] in expired {
      assert ExpiredAt(files[dir + [n]].contents, clock(t0));
    }
    forall q | q in expired && q in files
      ensures |q| == |dir| + 1 && q[..|dir|] == dir && files[q].LockRecord?
    {
      ExpiredPathsAreLocks(clock, taken, dir, locks, q);
      var k :| 0 <= k < |locks| && q == dir + [locks[k].lockFilename];
      RecordsSound(files, dir, names, k);
    }
  }

  /** After that scan and this writer's own lock, the second listing finds no competitor. */
  lemma AloneSecondScan(env: Env, clock: nat -> int, files: map<Path, Blob>, taken: nat, dir: Path, entry: string, t0: nat,
                        myName: string, blob: Blob)
    requires ValidEnv(env) && NonDecreasing(clock) && t0 <= taken
    requires AllExpired(files, dir, entry, clock, t0)
    ensures var files4 := (files - ExpiredPaths(clock, taken, dir, AloneLocks(env, files, dir)))[dir + [myName] := blob];
      FirstOtherLock(AloneLocks(env, files4, dir), entry, myName).None?
  {
    AloneScanClears(env, clock, files, taken, dir, entry, t0);
    var files4 := (files - ExpiredPaths(clock, taken, dir, AloneLocks(env, files, dir)))[dir + [myName] := blob];
    var names := env.order(Children(files4, dir));
    var locks := Records(files4, dir, names);
    var expired := ExpiredPaths(clock, taken, dir, AloneLocks(env, files, dir));
    forall i | 0 <= i < |locks| ensures !Competes(locks[i], entry, myName) {
      RecordsSound(files4, dir, names, i);
      NoRivalRecord(files, expired, dir, entry, myName, blob, locks[i].lockFilename, locks[i].entryFilename);
    }
  }

  /** Once every record for `entry` is removed and `myName` added, any record left for `entry` is `myName`. */
  lemma NoRivalRecord(files: map<Path, Blob>, expired: set<Path>, dir: Path, entry: string, myName: string, blob: Blob,
                      n: string, e: string)
    requires forall m :: RecordFor(files, dir, m, entry) ==> dir + [m] in expired
    requires RecordFor((files - expired)[dir + [myName] := blob], dir, n, e)
    ensures e == entry ==> n == myName
  {
    if n != myName {
      assert (dir + [n])[|dir|] == n && (dir + [myName])[|dir|] == myName;
      assert RecordFor(files, dir, n, e);
    }
  }

  /** The lock this writer creates at the `taken`-th clock reading. */
  function MyLockBlob(clock: nat -> int, taken: nat, clusterId: string, queryId: string): Blob
  {
    LockRecord(LockFileContents(clusterId, queryId, ExpirationMillis(clock(taken))))
  }

  /** The files a writer alone ends with, in terms of the first listing's expired locks. */
  function AloneOutcomeFiles(clock: nat -> int, w: World, order: set<string> -> seq<string>, clusterId: string, queryId: string,
                             target: Path, contents: seq<byte>): map<Path, Blob>
    requires target != []
  {
    var dir := LockDirectory(target);
    var locks := Records(w.store.files, dir, order(Children(w.store.files, dir)));
    var lockBlob := MyLockBlob(clock, w.taken + |locks|, clusterId, queryId);
    (w.store.files - ExpiredPaths(clock, w.taken, dir, locks))[MyLockPath(target, queryId) := lockBlob][target := Bytes(contents)]
      - {MyLockPath(target, queryId)}
  }

  /** The world after the existence check and the first listing. */
  function ListedWorld(env: Env, w: World, target: Path): World
    requires target != []
  {
    w.(store := FirstListing(env, w, target).state)
  }

  /** The first scan of `write`, over the locks the first listing returned. */
  function FirstScanOf(env: Env, clock: nat -> int, w: World, target: Path): Phase<Option<LockInfo>>
    requires target != [] && FirstListing(env, w, target).result.Ok?
  {
    FirstScan(env, clock, ListedWorld(env, w, target), LockDirectory(target), Name(target),
              FirstListing(env, w, target).result.value, None)
  }

  /**
   * The first listing succeeds, the first scan lets the writer go on, neither
   * the entry nor this writer's lock file is there, and once that lock is
   * added, the second listing finds no competitor.
   */
  ghost predicate ReadyToLock(env: Env, clock: nat -> int, w: World, clusterId: string, queryId: string, target: Path)
    requires target != []
  {
    && FirstListing(env, w, target).result.Ok?
    && var scan := FirstScanOf(env, clock, w, target);
    && scan.verdict == Continue(None)
    && target !in scan.world.store.files && MyLockPath(target, queryId) !in scan.world.store.files
    && var files4 := scan.world.store.files[MyLockPath(target, queryId) := MyLockBlob(clock, scan.world.taken, clusterId, queryId)];
       FirstOtherLock(AloneLocks(env, files4, LockDirectory(target)), Name(target), LockFilename(Name(target), queryId)).None?
  }

  /** The files after the commit and the release, in terms of the first scan. */
  function CommittedFiles(env: Env, clock: nat -> int, w: World, clusterId: string, queryId: string,
                          target: Path, contents: seq<byte>): map<Path, Blob>
    requires target != [] && FirstListing(env, w, target).result.Ok?
  {
    var scan := FirstScanOf(env, clock, w, target);
    scan.world.store.files[MyLockPath(target, queryId) := MyLockBlob(clock, scan.world.taken, clusterId, queryId)]
                          [target := Bytes(contents)] - {MyLockPath(target, queryId)}
  }

  /** Once check, listing and first scan let a writer go on, the `try` block continues with its lock. */
  lemma AttemptThroughLock(env: Env, clock: nat -> int, w: World, clusterId: string, queryId: string,
                           target: Path, contents: seq<byte>)
    requires target != []
    requires DoExists(env, w.store, target).result == Ok(false)
    requires FirstListing(env, w, target).result.Ok?
    requires FirstScan(env, clock, ListedWorld(env, w, target), LockDirectory(target), Name(target),
                       FirstListing(env, w, target).result.value, None).verdict == Continue(None)
    ensures var scan := FirstScan(env, clock, ListedWorld(env, w, target), LockDirectory(target), Name(target),
                                  FirstListing(env, w, target).result.value, None);
      var acquired := AcquireLock(env, clock, scan.world, LockDirectory(target), Name(target), clusterId, queryId);
      acquired.verdict.Continue? ==>
        var done := VerifyAndCommit(env, acquired.world, LockDirectory(target), Name(target), acquired.verdict.value, target, contents);
        Attempt(env, clock, w, clusterId, queryId, target, contents) == Attempted(done.outcome, done.world, Some(acquired.verdict.value))
  {
  }

  /** With nobody else writing, no failure, no competitor and no entry yet, the second listing leads to the commit. */
  lemma AloneCommit(env: Env, w: World, dir: Path, entry: string, mine: LockInfo, target: Path, contents: seq<byte>)
    requires Isolated(env) && target !in w.store.files
    requires FirstOtherLock(AloneLocks(env, w.store.files, dir), entry, mine.lockFilename).None?
    ensures var done := VerifyAndCommit(env, w, dir, entry, mine, target, contents);
      done.outcome == Success && done.world.store.files == w.store.files[target := Bytes(contents)]
  {
    ListLockInfosClosed(env, w.store, dir);
    var w5 := w.(store := ListLockInfos(env, w.store, dir).state);
    assert VerifyAndCommit(env, w, dir, entry, mine, target, contents) == Commit(env, w5, target, contents);
  }

  /** With nobody else writing and no failure, writeNewLockInfo creates this writer's lock and returns its record. */
  lemma AcquireAlone(env: Env, clock: nat -> int, w: World, dir: Path, entry: string, clusterId: string, queryId: string)
    requires Isolated(env) && SingleLine(entry) && SingleLine(queryId)
    requires dir + [LockFilename(entry, queryId)] !in w.store.files
    ensures var acquired := AcquireLock(env, clock, w, dir, entry, clusterId, queryId);
      && acquired.verdict.Continue?
      && acquired.verdict.value.lockFilename == LockFilename(entry, queryId)
      && acquired.world.store.files ==
           w.store.files[dir + [LockFilename(entry, queryId)] :=
                         LockRecord(LockFileContents(clusterId, queryId, ExpirationMillis(clock(w.taken))))]
  {
    LockFilenameMatches(entry, queryId);
  }

  /**
   * With nobody else writing and no failure, a writer ready to lock commits:
   * the `try` block ends with the entry and its own lock added to the files
   * the first scan left.
   */
  lemma AttemptAlone(env: Env, clock: nat -> int, w: World, clusterId: string, queryId: string,
                     target: Path, contents: seq<byte>)
    requires target != []
    requires Isolated(env) && SingleLine(Name(target)) && SingleLine(queryId)
    requires target !in w.store.files
    requires ReadyToLock(env, clock, w, clusterId, queryId, target)
    ensures var scan := FirstScanOf(env, clock, w, target);
      var a := Attempt(env, clock, w, clusterId, queryId, target, contents);
      && a.outcome == Success
      && a.mine.Some? && a.mine.value.lockFilename == LockFilename(Name(target), queryId)
      && a.world.store.files == scan.world.store.files[MyLockPath(target, queryId) := MyLockBlob(clock, scan.world.taken, clusterId, queryId)]
                                                      [target := Bytes(contents)]
  {
    var dir := LockDirectory(target);
    var entry := Name(target);
    var scan := FirstScanOf(env, clock, w, target);
    AcquireAlone(env, clock, scan.world, dir, entry, clusterId, queryId);
    var acquired := AcquireLock(env, clock, scan.world, dir, entry, clusterId, queryId);
    AttemptThroughLock(env, clock, w, clusterId, queryId, target, contents);
    AloneCommit(env, acquired.world, dir, entry, acquired.verdict.value, target, contents);
  }

  /** With nobody else writing and no failure, the `finally` block deletes exactly the lock the attempt created. */
  lemma WriteReleases(env: Env, clock: nat -> int, w: World, clusterId: string, queryId: string,
                      target: Path, contents: seq<byte>)
    requires target != [] && Isolated(env)
    ensures var a := Attempt(env, clock, w, clusterId, queryId, target, contents);
      var r := Write(env, clock, w, clusterId, queryId, target, contents);
      && r.outcome == a.outcome
      && (a.mine.Some? ==> r.world.store.files == a.world.store.files - {LockDirectory(target) + [a.mine.value.lockFilename]})
      && (a.mine.None? ==> r.world == a.world)
  {
  }

  /** A writer alone and ready to lock creates its lock, commits and releases it. */
  lemma AloneWriteFromScans(env: Env, clock: nat -> int, w: World, clusterId: string, queryId: string,
                            target: Path, contents: seq<byte>)
    requires target != []
    requires Isolated(env) && SingleLine(Name(target)) && SingleLine(queryId)
    requires target !in w.store.files
    requires ReadyToLock(env, clock, w, clusterId, queryId, target)
    ensures var r := Write(env, clock, w, clusterId, queryId, target, contents);
      r.outcome == Success && r.world.store.files == CommittedFiles(env, clock, w, clusterId, queryId, target, contents)
  {
    assert MyLockPath(target, queryId) == LockDirectory(target) + [LockFilename(Name(target), queryId)];
    AttemptAlone(env, clock, w, clusterId, queryId, target, contents);
    WriteReleases(env, clock, w, clusterId, queryId, target, contents);
  }

  /**
   * A writer alone whose entry holds only expired locks gets through both
   * scans: it is ready to lock, and ends with the files the first listing's
   * expired locks determine.
   */
  lemma AloneScansReady(env: Env, clock: nat -> int, w: World, clusterId: string, queryId: string,
                        target: Path, contents: seq<byte>)
    requires target != []
    requires ValidEnv(env) && Isolated(env) && NonDecreasing(clock)
    requires target !in w.store.files && MyLockPath(target, queryId) !in w.store.files
    requires AllExpired(w.store.files, LockDirectory(target), Name(target), clock, w.taken)
    ensures ReadyToLock(env, clock, w, clusterId, queryId, target)
    ensures CommittedFiles(env, clock, w, clusterId, queryId, target, contents) ==
            AloneOutcomeFiles(clock, w, env.order, clusterId, queryId, target, contents)
  {
    var dir := LockDirectory(target);
    var entry := Name(target);
    var p := MyLockPath(target, queryId);
    assert |dir| == |target| && |p| == |target| + 1;
    var w2 := ListedWorld(env, w, target);
    ListLockInfosClosed(env, DoExists(env, w.store, target).state, dir);
    var locks := AloneLocks(env, w.store.files, dir);
    assert FirstListing(env, w, target).result == Ok(locks);
    assert w2.store.files == w.store.files && w2.taken == w.taken;
    AloneScanProceeds(env, clock, w2, dir, entry, w.taken);
    var scan := FirstScanOf(env, clock, w, target);
    var files3 := w.store.files - ExpiredPaths(clock, w.taken, dir, locks);
    assert scan.world.store.files == files3 && scan.world.taken == w.taken + |locks|;
    var blob := MyLockBlob(clock, scan.world.taken, clusterId, queryId);
    AloneSecondScan(env, clock, w.store.files, w.taken, dir, entry, w.taken, LockFilename(entry, queryId), blob);
    assert p == dir + [LockFilename(entry, queryId)];
  }

  /** A writer alone whose entry holds only expired locks succeeds. */
  lemma AloneWrite(env: Env, clock: nat -> int, w: World, clusterId: string, queryId: string,
                   target: Path, contents: seq<byte>)
    requires target != []
    requires ValidEnv(env) && Isolated(env) && NonDecreasing(clock)
    requires SingleLine(Name(target)) && SingleLine(queryId)
    requires target !in w.store.files && MyLockPath(target, queryId) !in w.store.files
    requires AllExpired(w.store.files, LockDirectory(target), Name(target), clock, w.taken)
    ensures var r := Write(env, clock, w, clusterId, queryId, target, contents);
      r.outcome == Success && r.world.store.files == AloneOutcomeFiles(clock, w, env.order, clusterId, queryId, target, contents)
  {
    AloneScansReady(env, clock, w, clusterId, queryId, target, contents);
    AloneWriteFromScans(env, clock, w, clusterId, queryId, target, contents);
  }

  /**
   * A writer alone — nobody else writing, no request failing — whose entry is
   * absent and whose entry has only expired locks, commits: the entry holds
   * exactly its contents, its own lock is gone, the locks for the entry and
   * every other lock already expired are gone, nothing but the entry was
   * created or changed, and only lock files of the lock directory were
   * deleted: malformed lock files and files of other kinds stay.
   */
  lemma SoleWriterCommits(env: Env, clock: nat -> int, w: World, clusterId: string, queryId: string,
                          target: Path, contents: seq<byte>)
    requires target != []
    requires ValidEnv(env) && Isolated(env) && NonDecreasing(clock)
    requires SingleLine(Name(target)) && SingleLine(queryId)
    requires target !in w.store.files && MyLockPath(target, queryId) !in w.store.files
    requires AllExpired(w.store.files, LockDirectory(target), Name(target), clock, w.taken)
    ensures var r := Write(env, clock, w, clusterId, queryId, target, contents);
      var files := r.world.store.files;
      && r.outcome == Success
      && target in files && files[target] == Bytes(contents)
      && MyLockPath(target, queryId) !in files
      && (forall n :: RecordFor(w.store.files, LockDirectory(target), n, Name(target)) ==> LockDirectory(target) + [n] !in files)
      && (forall n, e :: RecordFor(w.store.files, LockDirectory(target), n, e) &&
                         ExpiredAt(w.store.files[LockDirectory(target) + [n]].contents, clock(w.taken)) ==>
                           LockDirectory(target) + [n] !in files)
      && (forall q :: q in files && q != target ==> q in w.store.files && files[q] == w.store.files[q])
      && (forall q :: q in w.store.files && q !in files ==>
            |q| == |target| + 1 && q[..|target|] == LockDirectory(target) && w.store.files[q].LockRecord?)
  {
    var dir := LockDirectory(target);
    var p := MyLockPath(target, queryId);
    assert |dir| == |target| && |p| == |target| + 1;
    AloneWrite(env, clock, w, clusterId, queryId, target, contents);
    AloneScanClears(env, clock, w.store.files, w.taken, dir, Name(target), w.taken);
  }
}
