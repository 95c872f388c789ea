/**
 The interface between the HDFS output module and the libhdfs client library.

 The library's calls (hdfsConnect, hdfsOpenFile, hdfsWrite, hdfsCloseFile) are
 foreign code. The model does not run them: what each call reports back is an
 input to the operation that issues it, and every call that is issued is
 recorded, in order, in a trace of `Call`s.
 */
module HdfsClient {

  /** An unsigned char of a message buffer. */
  newtype byte = x: int | 0 <= x < 256

  /** libhdfs's `tSize`, a signed 32-bit count; hdfsWrite returns -1 on error. */
  const TSIZE_MIN: int := -0x8000_0000
  const TSIZE_MAX: int := 0x7FFF_FFFF
  type TSize = x: int | TSIZE_MIN <= x <= TSIZE_MAX

  /** libhdfs's `tPort`, an unsigned 16-bit port number. */
  const PORT_RANGE: int := 0x1_0000
  type Port = x: int | 0 <= x < PORT_RANGE

  /** A C pointer that may be NULL (a name or host string). */
  datatype Option<+T> = None | Some(value: T)

  /** The result code of an action entry point: RS_RET_OK or RS_RET_SUSPENDED. */
  datatype Status = Ok | Suspended

  /** What hdfsOpenFile(O_WRONLY|O_APPEND) reports: a handle, NULL with errno
      ENOENT (the file does not exist yet), or NULL with any other errno. */
  datatype AppendOutcome = AppendOk | AppendNoEntry | AppendFailed

  /** The backend's answers to one open attempt: whether hdfsConnect returns a
      connection, what the append-open reports, and whether a create-open
      would return a handle. Answers that the attempt never asks for are
      ignored. */
  datatype OpenOutcomes = OpenOutcomes(connectOk: bool, append: AppendOutcome, createOk: bool)

  /** A call into libhdfs. `None` stands for a NULL string argument. */
  datatype Call =
    | Connect(host: Option<string>, port: Port)
    | OpenAppend(path: Option<string>)
    | OpenCreate(path: Option<string>)
    | Write(data: seq<byte>)
    | CloseFile

  /** True iff an open attempt with these answers ends with a file handle:
      the connection is made and either the append-open succeeds or it fails
      with ENOENT and the create-open succeeds. */
  predicate Opens(o: OpenOutcomes)
  {
    o.connectOk && (o.append == AppendOk || (o.append == AppendNoEntry && o.createOk))
  }

  /** Number of hdfsConnect calls in a trace. */
  function Connects(calls: seq<Call>): nat
  {
    if calls == [] then 0
    else (if calls[0].Connect? then 1 else 0) + Connects(calls[1..])
  }

  /** Number of hdfsCloseFile calls in a trace. */
  function Closes(calls: seq<Call>): nat
  {
    if calls == [] then 0
    else (if calls[0].CloseFile? then 1 else 0) + Closes(calls[1..])
  }

  /** The buffers handed to hdfsWrite, in the order of the trace. */
  function Written(calls: seq<Call>): seq<seq<byte>>
  {
    if calls == [] then []
    else (if calls[0].Write? then [calls[0].data] else []) + Written(calls[1..])
  }

  lemma {:induction false} ConnectsAppend(a: seq<Call>, b: seq<Call>)
    ensures Connects(a + b) == Connects(a) + Connects(b)
  {
    if a == [] {
      assert a + b == b;
    } else {
      assert (a + b)[1..] == a[1..] + b;
      ConnectsAppend(a[1..], b);
    }
  }

  lemma {:induction false} ClosesAppend(a: seq<Call>, b: seq<Call>)
    ensures Closes(a + b) == Closes(a) + Closes(b)
  {
    if a == [] {
      assert a + b == b;
    } else {
      assert (a + b)[1..] == a[1..] + b;
      ClosesAppend(a[1..], b);
    }
  }

  lemma {:induction false} WrittenAppend(a: seq<Call>, b: seq<Call>)
    ensures Written(a + b) == Written(a) + Written(b)
  {
    if a == [] {
      assert a + b == b;
    } else {
      assert (a + b)[1..] == a[1..] + b;
      WrittenAppend(a[1..], b);
    }
  }

  /** A trace made only of file-open calls connects, closes and writes nothing. */
  lemma {:induction false} OpenCallsOnly(calls: seq<Call>)
    requires forall c | c in calls :: c.OpenAppend? || c.OpenCreate?
    ensures Connects(calls) == 0 && Closes(calls) == 0 && Written(calls) == []
  {
    if calls != [] {
      assert calls[0] in calls;
      assert forall c | c in calls[1..] :: c in calls;
      OpenCallsOnly(calls[1..]);
    }
  }
}
