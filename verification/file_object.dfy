/**
 The "file object" of the HDFS output module: one shared handle per HDFS file
 name, with lazy open, write and close. Several actions that write to the same
 file share one handle; `nUsers` counts them.

 Every operation is a pure function of the handle and of the backend's
 answers; it returns the new handle, the status it reports and the libhdfs
 calls it issued.
 */
module FileObject {
  import opened HdfsClient

  /** The `fh` field: NULL (Closed) or a libhdfs file handle (Open). */
  datatype FileHandle = Closed | Open

  /** The `file_t` record. `connected` mirrors the `fs` field (non-NULL after a
      successful hdfsConnect); the mutex is not state of its own, it is engaged
      exactly when `LockEngaged` holds. */
  datatype Handle = Handle(
    name: Option<string>,
    host: Option<string>,
    port: Port,
    connected: bool,
    fh: FileHandle,
    nUsers: nat)

  /** The result of an operation on one handle. */
  datatype Outcome = Outcome(handle: Handle, status: Status, calls: seq<Call>)

  /** The handle's operations lock its mutex exactly when it has a second user. */
  predicate LockEngaged(h: Handle)
  {
    h.nUsers > 1
  }

  /** A handle holds a file only over a live connection. */
  predicate Consistent(h: Handle)
  {
    h.fh.Open? ==> h.connected
  }

  /** `b` is `a` with at most its connection and file handle changed: the
      name, endpoint and user count are the same. */
  predicate SameFile(a: Handle, b: Handle)
  {
    a.name == b.name && a.host == b.host && a.port == b.port && a.nUsers == b.nUsers
  }

  /** fileObjConstruct: a fresh handle, Closed, with no name, no host and no
      users. The `fs` and `hdfsPort` fields are left uninitialised by the
      source; the model gives them fixed values that nothing reads before the
      first open attempt or the registration writes them. */
  function Construct(): (h: Handle)
    ensures h.fh == Closed && h.nUsers == 0
    ensures h.name == None && h.host == None
    ensures Consistent(h) && !LockEngaged(h)
  {
    Handle(None, None, 0, false, Closed, 0)
  }

  /** fileObjAddUser: one more action shares the handle. The mutex is
      initialised on the step from one user to two, which is also the step on
      which the lock becomes engaged. */
  function AddUser(h: Handle): (r: Handle)
    ensures r.nUsers == h.nUsers + 1
    ensures r.name == h.name && r.host == h.host && r.port == h.port
    ensures r.connected == h.connected && r.fh == h.fh
    ensures LockEngaged(h) ==> LockEngaged(r)
    ensures (LockEngaged(r) && !LockEngaged(h)) <==> h.nUsers == 1
  {
    h.(nUsers := h.nUsers + 1)
  }

  /** fileOpen, on a Closed handle (the source asserts `fh == NULL`): connect,
      try to open for append, and only when that fails with ENOENT try to
      create the file. A failed connect stores a NULL `fs` and issues no open
      call. The result is Ok exactly when a file handle was obtained. */
  function OpenFile(h: Handle, o: OpenOutcomes): (r: Outcome)
    requires h.fh == Closed
    ensures SameFile(h, r.handle) && Consistent(r.handle)
    ensures r.handle.connected == o.connectOk
    ensures r.status == Ok <==> r.handle.fh == Open
    ensures r.handle.fh == Open <==> Opens(o)
    ensures !o.connectOk ==> r.calls == [Connect(h.host, h.port)]
    ensures o.connectOk && o.append != AppendNoEntry ==>
              r.calls == [Connect(h.host, h.port), OpenAppend(h.name)]
    ensures o.connectOk && o.append == AppendNoEntry ==>
              r.calls == [Connect(h.host, h.port), OpenAppend(h.name), OpenCreate(h.name)]
  {
    var connect := [Connect(h.host, h.port)];
    if !o.connectOk then
      Outcome(h.(connected := false), Suspended, connect)
    else
      var appendTry := connect + [OpenAppend(h.name)];
      match o.append
      case AppendOk =>
        Outcome(h.(connected := true, fh := Open), Ok, appendTry)
      case AppendFailed =>
        Outcome(h.(connected := true), Suspended, appendTry)
      case AppendNoEntry =>
        var fh := if o.createOk then Open else Closed;
        Outcome(h.(connected := true, fh := fh), if o.createOk then Ok else Suspended,
                appendTry + [OpenCreate(h.name)])
  }

  /** An open attempt issues exactly one hdfsConnect and neither writes nor
      closes. */
  lemma OpenFileCalls(h: Handle, o: OpenOutcomes)
    requires h.fh == Closed
    ensures var calls := OpenFile(h, o).calls;
            Connects(calls) == 1 && Closes(calls) == 0 && Written(calls) == []
  {
    var calls := OpenFile(h, o).calls;
    assert calls == [calls[0]] + calls[1..];
    assert forall c | c in calls[1..] :: c.OpenAppend? || c.OpenCreate?;
    OpenCallsOnly(calls[1..]);
    ConnectsAppend([calls[0]], calls[1..]);
    ClosesAppend([calls[0]], calls[1..]);
    WrittenAppend([calls[0]], calls[1..]);
  }

  /** strlen: the number of bytes before the first NUL (all of them when the
      buffer holds none). */
  function CStringLength(buf: seq<byte>): (n: nat)
    ensures n <= |buf|
    ensures forall i :: 0 <= i < n ==> buf[i] != 0
    ensures n < |buf| ==> buf[n] == 0
    decreases |buf|
  {
    if |buf| == 0 || buf[0] == 0 then 0 else 1 + CStringLength(buf[1..])
  }

  /** The bytes fileWrite hands to hdfsWrite: the C string held in `buf`. */
  function Payload(buf: seq<byte>): (p: seq<byte>)
    ensures |p| == CStringLength(buf)
    ensures p <= buf
  {
    buf[..CStringLength(buf)]
  }

  /** A NUL-free string followed by its terminator (and whatever the buffer
      holds after it) is written as exactly that string. */
  lemma {:induction false} PayloadOfTerminated(s: seq<byte>, tail: seq<byte>)
    requires forall i :: 0 <= i < |s| ==> s[i] != 0
    ensures Payload(s + [0] + tail) == s
  {
    var buf := s + [0] + tail;
    if s == [] {
      assert buf[0] == 0;
    } else {
      assert buf[1..] == s[1..] + [0] + tail;
      PayloadOfTerminated(s[1..], tail);
      assert CStringLength(buf) == 1 + CStringLength(buf[1..]);
    }
  }

  /** The count check of fileWrite: the int32 count is cast to `unsigned`
      (reduced modulo 2^32) and compared with the size_t length. */
  predicate CountAccepted(len: nat, reported: TSize)
  {
    reported % 0x1_0000_0000 == len
  }

  /** For any buffer shorter than 2^31 bytes the cast is harmless: the count
      is accepted exactly when it equals the length, so an error return (-1)
      or a short write is never accepted. */
  lemma CountAcceptedExact(len: nat, reported: TSize)
    requires len <= TSIZE_MAX
    ensures CountAccepted(len, reported) <==> reported == len
  {
  }

  /** fileWrite: open the file if it is Closed (exactly one attempt); if it is
      still Closed, report Suspended without writing. Otherwise issue one
      hdfsWrite of the whole C string and report Suspended, without retrying,
      unless the backend reports exactly that many bytes. */
  function WriteRecord(h: Handle, buf: seq<byte>, o: OpenOutcomes, reported: TSize): (r: Outcome)
    ensures SameFile(h, r.handle)
    ensures Consistent(h) ==> Consistent(r.handle)
    ensures h.fh == Open ==> r.handle == h && r.calls == [Write(Payload(buf))]
    ensures h.fh == Closed ==>
              r.handle == OpenFile(h, o).handle &&
              r.calls == OpenFile(h, o).calls + (if Opens(o) then [Write(Payload(buf))] else [])
    ensures r.handle.fh == Open <==> h.fh == Open || Opens(o)
    ensures r.status == Ok <==> r.handle.fh == Open && CountAccepted(|Payload(buf)|, reported)
  {
    var attempt := if h.fh == Closed then OpenFile(h, o) else Outcome(h, Ok, []);
    if attempt.handle.fh == Closed then
      Outcome(attempt.handle, Suspended, attempt.calls)
    else
      var calls := attempt.calls + [Write(Payload(buf))];
      var status := if CountAccepted(|Payload(buf)|, reported) then Ok else Suspended;
      Outcome(attempt.handle, status, calls)
  }

  /** fileWrite as the source is written. With the lock engaged, fileWrite
      holds `mut` when it finds the file Closed and calls fileOpen, which
      locks the same mutex again before connecting. The mutex is initialised
      with default attributes, so it is not recursive and the call never
      returns; `None` stands for that hang. In every other case the result
      is WriteRecord's, which opens under the lock already held. */
  function WriteAsWritten(h: Handle, buf: seq<byte>, o: OpenOutcomes, reported: TSize): (r: Option<Outcome>)
    ensures r == None <==> LockEngaged(h) && h.fh == Closed
    ensures r != None ==> r.value == WriteRecord(h, buf, o, reported)
  {
    if LockEngaged(h) && h.fh == Closed then None else Some(WriteRecord(h, buf, o, reported))
  }

  /** fileClose: a no-op on a Closed handle; on an Open one, a single
      hdfsCloseFile after which `fh` is NULL. The connection is kept. */
  function Close(h: Handle): (r: Outcome)
    ensures r.status == Ok && SameFile(h, r.handle)
    ensures r.handle.fh == Closed && r.handle.connected == h.connected
    ensures h.fh == Closed ==> r.handle == h && r.calls == []
    ensures h.fh == Open ==> r.calls == [CloseFile]
  {
    if h.fh == Closed then Outcome(h, Ok, [])
    else Outcome(h.(fh := Closed), Ok, [CloseFile])
  }
}
