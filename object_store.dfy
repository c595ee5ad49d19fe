/**
 * The object store the synchronizers write through, held in memory. A path is
 * the sequence of its components, the last one being the file name. The
 * environment decides which requests fail with an IO error and which edits
 * other writers make just before a given request, both by the request's
 * position in the log; the order in which a directory is listed is the
 * store's own.
 */
module ObjectStore {
  import opened Basics
  import opened LockRecords

  type Path = seq<string>

  function Parent(p: Path): Path
    requires p != []
  {
    p[..|p| - 1]
  }

  function Name(p: Path): string
    requires p != []
  {
    p[|p| - 1]
  }

  /** File contents: raw bytes, or a serialised lock record. */
  datatype Blob = Bytes(data: seq<byte>) | LockRecord(contents: LockFileContents)

  /** A request made of the store; Create never overwrites. */
  datatype Request =
    | Exists(path: Path)
    | Create(path: Path, blob: Blob)
    | Open(path: Path)
    | Delete(path: Path)
    | List(path: Path)

  /** A request as the store saw it, and whether it completed without an error. */
  datatype Event = Event(request: Request, ok: bool)

  datatype IoError =
    | Failed(request: Request)
    | FileExists(path: Path)
    | KeyNotFound(path: Path)

  datatype Result<T> = Ok(value: T) | Err(error: IoError)

  /** Another writer's change: Some(b) writes b at the path, None removes it. */
  type Edit = map<Path, Option<Blob>>

  /**
   * The store's environment: the positions in the log of the requests that
   * fail with an IO error, the edits other writers make just before the
   * store's n-th request, and the order in which it lists a directory's names.
   */
  datatype Env = Env(faults: set<nat>, others: map<nat, Edit>, order: set<string> -> seq<string>)

  /** `r` lists every name of `names` exactly once, in some order. */
  ghost predicate Enumerates(r: seq<string>, names: set<string>)
  {
    && (forall i, j :: 0 <= i < j < |r| ==> r[i] != r[j])
    && (forall x :: x in r <==> x in names)
  }

  ghost predicate ValidEnv(env: Env)
  {
    forall names: set<string> :: Enumerates(env.order(names), names)
  }

  /** No other writer and no failure. */
  predicate Isolated(env: Env)
  {
    env.faults == {} && env.others == map[]
  }

  /** The files of the store and every request made of it so far. */
  datatype State = State(files: map<Path, Blob>, log: seq<Event>)

  datatype Step<T> = Step(result: Result<T>, state: State)

  function ApplyEdit(files: map<Path, Blob>, edit: Edit): (r: map<Path, Blob>)
    ensures forall p :: p in edit && edit[p].Some? ==> p in r && r[p] == edit[p].value
    ensures forall p :: p in edit && edit[p].None? ==> p !in r
    ensures forall p :: p !in edit ==> (p in r <==> p in files) && (p in r ==> r[p] == files[p])
  {
    map p | p in files.Keys + edit.Keys && (p in edit ==> edit[p].Some?) ::
      if p in edit then edit[p].value else files[p]
  }

  /** The state just before the next request: other writers' edit for it applied. */
  function Settle(env: Env, s: State): (r: State)
    ensures r.log == s.log
    ensures |s.log| !in env.others ==> r == s
  {
    if |s.log| in env.others then State(ApplyEdit(s.files, env.others[|s.log|]), s.log) else s
  }

  function Record(s: State, request: Request, ok: bool): State
  {
    State(s.files, s.log + [Event(request, ok)])
  }

  /** The names of the files directly inside `dir`. */
  function Children(files: map<Path, Blob>, dir: Path): (r: set<string>)
    ensures forall name :: name in r <==> dir + [name] in files
  {
    var r := set p | p in files.Keys && |p| == |dir| + 1 && p[..|dir|] == dir :: p[|dir|];
    assert forall name :: dir + [name] in files ==> (dir + [name])[..|dir|] == dir;
    assert forall p :: p in files.Keys && |p| == |dir| + 1 && p[..|dir|] == dir ==> p == dir + [p[|dir|]];
    r
  }

  function DoExists(env: Env, s: State, p: Path): Step<bool>
  {
    var t := Settle(env, s);
    if |s.log| in env.faults then Step(Err(Failed(Exists(p))), Record(t, Exists(p), false))
    else Step(Ok(p in t.files), Record(t, Exists(p), true))
  }

  function DoCreate(env: Env, s: State, p: Path, b: Blob): Step<()>
  {
    var t := Settle(env, s);
    if |s.log| in env.faults then Step(Err(Failed(Create(p, b))), Record(t, Create(p, b), false))
    else if p in t.files then Step(Err(FileExists(p)), Record(t, Create(p, b), false))
    else Step(Ok(()), State(t.files[p := b], t.log + [Event(Create(p, b), true)]))
  }

  function DoOpen(env: Env, s: State, p: Path): Step<Blob>
  {
    var t := Settle(env, s);
    if |s.log| in env.faults then Step(Err(Failed(Open(p))), Record(t, Open(p), false))
    else if p !in t.files then Step(Err(KeyNotFound(p)), Record(t, Open(p), false))
    else Step(Ok(t.files[p]), Record(t, Open(p), true))
  }

  /** Deleting a path that holds no file is not an error. */
  function DoDelete(env: Env, s: State, p: Path): Step<()>
  {
    var t := Settle(env, s);
    if |s.log| in env.faults then Step(Err(Failed(Delete(p))), Record(t, Delete(p), false))
    else Step(Ok(()), State(t.files - {p}, t.log + [Event(Delete(p), true)]))
  }

  function DoList(env: Env, s: State, dir: Path): Step<seq<string>>
  {
    var t := Settle(env, s);
    if |s.log| in env.faults then Step(Err(Failed(List(dir))), Record(t, List(dir), false))
    else Step(Ok(env.order(Children(t.files, dir))), Record(t, List(dir), true))
  }

  /** The in-memory store. */
  class Store {
    const env: Env
    var files: map<Path, Blob>
    var log: seq<Event>

    function Snapshot(): State
      reads this
    {
      State(files, log)
    }

    constructor (env: Env, files: map<Path, Blob>)
      ensures this.env == env && Snapshot() == State(files, [])
    {
      this.env := env;
      this.files := files;
      this.log := [];
    }

    /** Lets other writers' edit for the coming request land. */
    method LetOthersWrite()
      modifies this
      ensures Snapshot() == Settle(env, old(Snapshot()))
    {
      if |log| in env.others {
        files := ApplyEdit(files, env.others[|log|]);
      }
    }

    method Exists(p: Path) returns (r: Result<bool>)
      modifies this
      ensures Step(r, Snapshot()) == DoExists(env, old(Snapshot()), p)
    {
      LetOthersWrite();
      if |log| in env.faults {
        r := Err(Failed(Request.Exists(p)));
        log := log + [Event(Request.Exists(p), false)];
      } else {
        r := Ok(p in files);
        log := log + [Event(Request.Exists(p), true)];
      }
    }

    /** `create(p, overwrite = false)` followed by writing `b`. */
    method Create(p: Path, b: Blob) returns (r: Result<()>)
      modifies this
      ensures Step(r, Snapshot()) == DoCreate(env, old(Snapshot()), p, b)
    {
      LetOthersWrite();
      if |log| in env.faults {
        r := Err(Failed(Request.Create(p, b)));
        log := log + [Event(Request.Create(p, b), false)];
      } else if p in files {
        r := Err(FileExists(p));
        log := log + [Event(Request.Create(p, b), false)];
      } else {
        files := files[p := b];
        r := Ok(());
        log := log + [Event(Request.Create(p, b), true)];
      }
    }

    /** `open(p)` followed by reading all bytes. */
    method Open(p: Path) returns (r: Result<Blob>)
      modifies this
      ensures Step(r, Snapshot()) == DoOpen(env, old(Snapshot()), p)
    {
      LetOthersWrite();
      if |log| in env.faults {
        r := Err(Failed(Request.Open(p)));
        log := log + [Event(Request.Open(p), false)];
      } else if p !in files {
        r := Err(KeyNotFound(p));
        log := log + [Event(Request.Open(p), false)];
      } else {
        r := Ok(files[p]);
        log := log + [Event(Request.Open(p), true)];
      }
    }

    /** `delete(p, recursive = false)`. */
    method Delete(p: Path) returns (r: Result<()>)
      modifies this
      ensures Step(r, Snapshot()) == DoDelete(env, old(Snapshot()), p)
    {
      LetOthersWrite();
      if |log| in env.faults {
        r := Err(Failed(Request.Delete(p)));
        log := log + [Event(Request.Delete(p), false)];
      } else {
        files := files - {p};
        r := Ok(());
        log := log + [Event(Request.Delete(p), true)];
      }
    }

    /** `listFiles(dir, recursive = false)`: the names of the files directly in `dir`. */
    method List(dir: Path) returns (r: Result<seq<string>>)
      modifies this
      ensures Step(r, Snapshot()) == DoList(env, old(Snapshot()), dir)
    {
      LetOthersWrite();
      if |log| in env.faults {
        r := Err(Failed(Request.List(dir)));
        log := log + [Event(Request.List(dir), false)];
      } else {
        r := Ok(env.order(Children(files, dir)));
        log := log + [Event(Request.List(dir), true)];
      }
    }
  }
}
