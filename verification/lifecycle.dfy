/**
 Properties of whole runs of the HDFS output module: what any sequence of
 operations on one handle, or of entry-point calls on the table, keeps true,
 and end-to-end behaviours (shared handles for one name, ENOENT fallback,
 suspension on a dead backend, reopen after HUP). The write scenarios state
 both the outcome of the write path (WriteRecord) and what fileWrite as
 written does: it returns that outcome on a handle with one user, and hangs
 on a Closed handle whose lock is engaged.
 */
module Lifecycle {
  import opened HdfsClient
  import opened FileObject
  import opened Registry
  import opened Action

  /** Everything that can happen to an existing handle. */
  datatype HandleOp =
    | AddUserOp
    | WriteOp(msg: seq<byte>, o: OpenOutcomes, reported: TSize)
    | CloseOp
    | ResumeOp(o: OpenOutcomes)

  function Apply(h: Handle, op: HandleOp): Handle
  {
    match op
    case AddUserOp => AddUser(h)
    case WriteOp(msg, o, reported) => WriteRecord(h, msg, o, reported).handle
    case CloseOp => Close(h).handle
    case ResumeOp(o) => Resume(h, o).handle
  }

  function Run(h: Handle, ops: seq<HandleOp>): Handle
    decreases |ops|
  {
    if ops == [] then h else Run(Apply(h, ops[0]), ops[1..])
  }

  /** How many of `ops` add a user. */
  function AddUsers(ops: seq<HandleOp>): nat
  {
    if ops == [] then 0 else (if ops[0].AddUserOp? then 1 else 0) + AddUsers(ops[1..])
  }

  /** Only fileObjAddUser changes the user count, and only upwards by one:
      after any run the count is the initial one plus the users added. */
  lemma {:induction false} RunCountsUsers(h: Handle, ops: seq<HandleOp>)
    ensures Run(h, ops).nUsers == h.nUsers + AddUsers(ops)
    decreases |ops|
  {
    if ops != [] {
      RunCountsUsers(Apply(h, ops[0]), ops[1..]);
    }
  }

  /** The lock latch: once a handle has a second user, every later open,
      write and close on it locks, whatever happens in between. */
  lemma {:induction false} LockLatch(h: Handle, ops: seq<HandleOp>)
    requires LockEngaged(h)
    ensures LockEngaged(Run(h, ops))
    ensures Run(h, ops).nUsers >= h.nUsers
  {
    RunCountsUsers(h, ops);
  }

  /** No run renames a handle or moves it to another endpoint, and none
      leaves a file handle without a connection. */
  lemma {:induction false} RunKeepsIdentity(h: Handle, ops: seq<HandleOp>)
    requires Consistent(h)
    ensures Consistent(Run(h, ops))
    ensures Run(h, ops).name == h.name && Run(h, ops).host == h.host && Run(h, ops).port == h.port
    decreases |ops|
  {
    if ops != [] {
      RunKeepsIdentity(Apply(h, ops[0]), ops[1..]);
    }
  }

  /** An entry-point call of the rsyslog core. Actions exist only for names
      that were registered, so a delivery or retry naming anything else, or
      a HUP whose iteration order does not enumerate the table, cannot
      happen; the model lets it leave the table as it is. */
  datatype Event =
    | Configure(fileName: Option<string>, host: Option<string>, port: int, o: OpenOutcomes, insertOk: bool)
    | Deliver(name: string, msg: seq<byte>, o: OpenOutcomes, reported: TSize)
    | Retry(name: string, o: OpenOutcomes)
    | Reload(order: seq<string>)

  /** `order` is a possible iteration order of the table. */
  predicate Enumerates(files: Files, order: seq<string>)
  {
    && Distinct(order)
    && (forall k | k in order :: k in files)
    && (forall k | k in files :: k in order)
  }

  function Step(files: Files, e: Event): Files
  {
    match e
    case Configure(fileName, host, port, o, insertOk) =>
      var r := Register(files, fileName, host, port, o, insertOk);
      if r.Registered? then r.files else files
    case Deliver(name, msg, o, reported) =>
      if name in files then DoAction(files, name, msg, o, reported).files else files
    case Retry(name, o) =>
      if name in files then TryResume(files, name, o).files else files
    case Reload(order) =>
      if Enumerates(files, order) then DoHup(files, order).files else files
  }

  function Replay(files: Files, events: seq<Event>): Files
    decreases |events|
  {
    if events == [] then files else Replay(Step(files, events[0]), events[1..])
  }

  /** One entry-point call keeps the table valid, never drops a name, and
      never lowers a user count. */
  lemma StepKeepsValid(files: Files, e: Event)
    requires Valid(files)
    ensures Valid(Step(files, e))
    ensures files.Keys <= Step(files, e).Keys
    ensures forall k | k in files :: Step(files, e)[k].nUsers >= files[k].nUsers
  {
  }

  /** Over any run of the module, the table stays valid, a registered name
      stays registered, and a handle whose lock is engaged keeps it engaged. */
  lemma {:induction false} ReplayKeepsValid(files: Files, events: seq<Event>)
    requires Valid(files)
    ensures Valid(Replay(files, events))
    ensures files.Keys <= Replay(files, events).Keys
    ensures forall k | k in files :: Replay(files, events)[k].nUsers >= files[k].nUsers
    ensures forall k | k in files && LockEngaged(files[k]) :: LockEngaged(Replay(files, events)[k])
    decreases |events|
  {
    if events != [] {
      StepKeepsValid(files, events[0]);
      ReplayKeepsValid(Step(files, events[0]), events[1..]);
    }
  }

  /** Two actions configured with the same file name share one handle: the
      second registration adds no entry, issues no backend call, keeps the
      first endpoint, and engages the lock. */
  lemma SameNameShared(files: Files, name: string,
                       host1: Option<string>, port1: int, o1: OpenOutcomes,
                       host2: Option<string>, port2: int, o2: OpenOutcomes, insertOk2: bool)
    requires name !in files
    ensures var first := Register(files, Some(name), host1, port1, o1, true);
            var second := Register(first.files, Some(name), host2, port2, o2, insertOk2);
            && first.Registered? && second.Registered?
            && second.calls == [] && second.status == Ok
            && second.files.Keys == files.Keys + {name}
            && second.files[name].host == NewHandle(name, host1, port1).host
            && second.files[name].port == NewHandle(name, host1, port1).port
            && second.files[name].nUsers == 2
            && LockEngaged(second.files[name])
  {
  }

  /** A message for a file that does not exist yet: the append-open reports
      ENOENT, the create-open succeeds, the message is written and the
      handle stays Open. fileWrite as written delivers exactly that on a
      handle with one user and hangs on a shared one. */
  lemma CreateOnNoEntry(h: Handle, msg: seq<byte>, reported: TSize)
    requires h.fh == Closed
    requires |Payload(msg)| <= TSIZE_MAX && reported == |Payload(msg)|
    ensures var r := WriteRecord(h, msg, OpenOutcomes(true, AppendNoEntry, true), reported);
            && r.status == Ok && r.handle.fh == Open
            && r.calls == [Connect(h.host, h.port), OpenAppend(h.name), OpenCreate(h.name), Write(Payload(msg))]
            && WriteAsWritten(h, msg, OpenOutcomes(true, AppendNoEntry, true), reported) ==
               (if LockEngaged(h) then None else Some(r))
  {
  }

  /** A backend that cannot be reached: the write is suspended, the handle
      stays Closed, and nothing but the connect attempt is issued. fileWrite
      as written does so on a handle with one user; on a shared one it hangs
      before the connect. */
  lemma SuspendOnConnectFailure(h: Handle, msg: seq<byte>, o: OpenOutcomes, reported: TSize)
    requires h.fh == Closed && !o.connectOk
    ensures var r := WriteRecord(h, msg, o, reported);
            && r.status == Suspended && r.handle.fh == Closed
            && r.calls == [Connect(h.host, h.port)]
            && WriteAsWritten(h, msg, o, reported) == (if LockEngaged(h) then None else Some(r))
  {
  }

  /** After HUP every file is Closed, so the next message for a name opens
      its file again before writing: the first call is a connect and exactly
      one open attempt precedes the write. fileWrite as written does this
      only for a handle with one user; a shared handle hangs. */
  lemma ReopenAfterHup(files: Files, order: seq<string>, name: string,
                       msg: seq<byte>, o: OpenOutcomes, reported: TSize)
    requires Enumerates(files, order) && name in files
    ensures var reloaded := DoHup(files, order).files;
            var r := DoAction(reloaded, name, msg, o, reported);
            && Connects(r.calls) == 1
            && r.calls[0] == Connect(files[name].host, files[name].port)
            && (Opens(o) <==> Written(r.calls) == [Payload(msg)])
            && WriteAsWritten(reloaded[name], msg, o, reported) ==
               (if LockEngaged(files[name]) then None
                else Some(Outcome(r.files[name], r.status, r.calls)))
  {
  }

  /** The hang, end to end: two actions configured with the same file name
      share a handle with its lock engaged; after a HUP the handle is Closed
      and the next message makes fileWrite as written hang before any
      backend call, while the write path of the model reopens the file. */
  lemma SharedWriteAfterHupHangs(name: string,
                                 host1: Option<string>, port1: int, o1: OpenOutcomes,
                                 host2: Option<string>, port2: int, o2: OpenOutcomes,
                                 msg: seq<byte>, o: OpenOutcomes, reported: TSize)
    ensures var first := Register(map[], Some(name), host1, port1, o1, true);
            var second := Register(first.files, Some(name), host2, port2, o2, true);
            && second.Registered?
            && Enumerates(second.files, [name])
            && var reloaded := DoHup(second.files, [name]).files;
               && WriteAsWritten(reloaded[name], msg, o, reported) == None
               && DoAction(reloaded, name, msg, o, reported).calls[0] ==
                  Connect(second.files[name].host, second.files[name].port)
  {
  }

  /** HUP is idempotent: a second broadcast finds nothing to close. */
  lemma HupIdempotent(files: Files, order: seq<string>)
    requires Enumerates(files, order)
    ensures var once := DoHup(files, order);
            DoHup(once.files, order) == Hup(once.files, [])
  {
  }

  /** fileClose is idempotent: closing a closed handle changes nothing and
      calls nothing. */
  lemma CloseIdempotent(h: Handle)
    ensures Close(Close(h).handle) == Outcome(Close(h).handle, Ok, [])
  {
  }

  /** Opening a closed handle and closing it again gives the handle back,
      except that the connection made (or lost) by the open is kept. */
  lemma OpenThenClose(h: Handle, o: OpenOutcomes)
    requires h.fh == Closed
    ensures Close(OpenFile(h, o).handle).handle == h.(connected := o.connectOk)
    ensures Close(OpenFile(h, o).handle).calls == (if Opens(o) then [CloseFile] else [])
  {
  }

  /** tryResume forgets the past: its outcome for the handle is the same
      whether the file was Open or Closed before. */
  lemma ResumeForgetsOpenState(h: Handle, o: OpenOutcomes)
    ensures Resume(h, o).handle == Resume(h.(fh := Closed), o).handle
    ensures Resume(h, o).status == Resume(h.(fh := Closed), o).status
  {
  }
}
