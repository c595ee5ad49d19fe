/**
 * What a transaction log synchronizer reports, and the contract both
 * strategies honour.
 */
module TransactionLog {
  import opened Basics
  import opened LockRecords
  import opened ObjectStore

  datatype ConflictReason =
    | AlreadyExists(path: Path)
    /** A live lock found before this writer took its own. */
    | LockedBeforeAcquire(holder: LockFileContents)
    /** Another lock found after this writer took its own. */
    | LockedAfterAcquire(holder: LockFileContents)

  datatype Violation =
    | MultipleLiveLocks(first: string, second: string)
    | TargetCreatedDuringLocking(path: Path)

  /**
   * Success, or the exception `write` ends with: TransactionConflictException,
   * IllegalStateException, IllegalArgumentException (a lock filename that does
   * not parse back) or UncheckedIOException.
   */
  datatype Outcome =
    | Success
    | Conflict(reason: ConflictReason)
    | IllegalState(violation: Violation)
    | IllegalArgument(lockFilename: string)
    | IOError(cause: IoError)

  /**
   * The shared contract of `write`, over the requests one call made: it
   * succeeded exactly when an exclusive create of the target with exactly the
   * entry's contents went through; every create of the target carries those
   * contents; the target is never deleted.
   */
  ghost predicate CommitsExactly(events: seq<Event>, target: Path, contents: seq<byte>, outcome: Outcome)
  {
    && (outcome == Success <==> exists i :: 0 <= i < |events| && events[i] == Event(Create(target, Bytes(contents)), true))
    && (forall i :: 0 <= i < |events| && events[i].request.Create? && events[i].request.path == target ==>
          events[i].request.blob == Bytes(contents))
    && (forall i :: 0 <= i < |events| && events[i].request.Delete? ==> events[i].request.path != target)
  }
}
