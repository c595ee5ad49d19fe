/**
 * NoIsolationSynchronizer: the entry is written with one exclusive create and
 * nothing else; any isolation comes from the store itself.
 */
module NoIsolationSynchronizer {
  import opened Basics
  import opened ObjectStore
  import opened TransactionLog

  /** The strategy provides no isolation of its own. */
  function IsUnsafe(): (r: bool)
    ensures r
  {
    true
  }

  /**
   * What write does to the store: a single `create(target, overwrite = false)`
   * with the entry's contents. An existing target or a failing create ends in
   * an IO error; nothing is checked or listed first.
   */
  function Written(env: Env, s: State, target: Path, entryContents: seq<byte>): (r: (Outcome, State))
    ensures r.1.log == s.log + [Event(Create(target, Bytes(entryContents)), r.0 == Success)]
    ensures r.0 == Success <==> |s.log| !in env.faults && target !in Settle(env, s).files
    ensures r.0 == Success ==> r.1.files == Settle(env, s).files[target := Bytes(entryContents)]
    ensures r.0 != Success ==> r.0.IOError? && r.1.files == Settle(env, s).files
    ensures |s.log| !in env.faults && target in Settle(env, s).files ==> r.0 == IOError(FileExists(target))
  {
    var created := DoCreate(env, s, target, Bytes(entryContents));
    match created.result
    case Ok(_) => (Success, created.state)
    case Err(e) => (IOError(e), created.state)
  }

  method Write(store: Store, target: Path, entryContents: seq<byte>) returns (outcome: Outcome)
    modifies store
    ensures (outcome, store.Snapshot()) == Written(store.env, old(store.Snapshot()), target, entryContents)
  {
    var created := store.Create(target, Bytes(entryContents));
    if created.Err? {
      // rethrown as UncheckedIOException
      return IOError(created.error);
    }
    return Success;
  }

  /** The strategy meets the contract shared by both synchronizers. */
  lemma WriteHonoursContract(env: Env, s: State, target: Path, entryContents: seq<byte>)
    ensures var r := Written(env, s, target, entryContents);
      CommitsExactly(r.1.log[|s.log|..], target, entryContents, r.0)
  {
    var r := Written(env, s, target, entryContents);
    var events := r.1.log[|s.log|..];
    assert events == [Event(Create(target, Bytes(entryContents)), r.0 == Success)];
    if r.0 == Success {
      assert events[0] == Event(Create(target, Bytes(entryContents)), true);
    }
  }
}
