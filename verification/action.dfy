/**
 The action entry points the rsyslog core calls for one configured action:
 doAction writes one formatted message, tryResume probes a suspended action.
 An action is bound to the handle stored in the table under its file name.
 */
module Action {
  import opened HdfsClient
  import opened FileObject
  import opened Registry

  /** The table after an entry point, the status it returns to the core and
      the libhdfs calls it issued. */
  datatype Delivery = Delivery(files: Files, status: Status, calls: seq<Call>)

  /** Only the entry for `name` may change, and only in its connection and
      file handle. */
  predicate OnlyFileStateOf(files: Files, name: string, files': Files)
    requires name in files
  {
    && files'.Keys == files.Keys
    && (forall k | k in files && k != name :: files'[k] == files[k])
    && SameFile(files[name], files'[name])
  }

  /** doAction: hand the message to fileWrite of the action's handle. A Closed
      handle gets exactly one open attempt; the message reaches hdfsWrite
      exactly when a file is open afterwards, as a single write of its C
      string; and the action is Ok exactly when that write is acknowledged
      in full. */
  function DoAction(files: Files, name: string, msg: seq<byte>, o: OpenOutcomes, reported: TSize): (r: Delivery)
    requires name in files
    ensures OnlyFileStateOf(files, name, r.files)
    ensures Consistent(files[name]) ==> Consistent(r.files[name])
    ensures Connects(r.calls) == (if files[name].fh == Open then 0 else 1)
    ensures Closes(r.calls) == 0
    ensures r.files[name].fh == Open <==> files[name].fh == Open || Opens(o)
    ensures Written(r.calls) == (if r.files[name].fh == Open then [Payload(msg)] else [])
    ensures r.status == Ok <==> r.files[name].fh == Open && CountAccepted(|Payload(msg)|, reported)
    ensures |Payload(msg)| <= TSIZE_MAX ==>
              (r.status == Ok <==> r.files[name].fh == Open && reported == |Payload(msg)|)
  {
    var w := WriteRecord(files[name], msg, o, reported);
    WriteCalls(files[name], msg, o, reported);
    Delivery(files[name := w.handle], w.status, w.calls)
  }

  /** What fileWrite asks of the backend: one open attempt exactly when the
      handle was Closed, no close, and one write of the message's C string
      exactly when a file is open afterwards. */
  lemma WriteCalls(h: Handle, msg: seq<byte>, o: OpenOutcomes, reported: TSize)
    ensures var w := WriteRecord(h, msg, o, reported);
            && Connects(w.calls) == (if h.fh == Open then 0 else 1)
            && Closes(w.calls) == 0
            && Written(w.calls) == (if w.handle.fh == Open then [Payload(msg)] else [])
  {
    var w := WriteRecord(h, msg, o, reported);
    var write := if w.handle.fh == Open then [Write(Payload(msg))] else [];
    var attempt := if h.fh == Closed then OpenFile(h, o).calls else [];
    assert w.calls == attempt + write;
    if h.fh == Closed {
      OpenFileCalls(h, o);
    }
    ConnectsAppend(attempt, write);
    ClosesAppend(attempt, write);
    WrittenAppend(attempt, write);
  }

  /** The handle part of tryResume: close (if open), then open again. */
  function Resume(h: Handle, o: OpenOutcomes): (r: Outcome)
    ensures SameFile(h, r.handle) && Consistent(r.handle)
    ensures r.handle.connected == o.connectOk
    ensures r.status == Ok <==> r.handle.fh == Open
    ensures r.handle.fh == Open <==> Opens(o)
    ensures Closes(r.calls) == (if h.fh == Open then 1 else 0)
    ensures Connects(r.calls) == 1
    ensures Written(r.calls) == []
    ensures h.fh == Open ==> r.calls[0] == CloseFile
    ensures h.fh == Closed ==> r.calls[0] == Connect(h.host, h.port)
  {
    var closed := Close(h);
    var reopened := OpenFile(closed.handle, o);
    OpenFileCalls(closed.handle, o);
    ConnectsAppend(closed.calls, reopened.calls);
    ClosesAppend(closed.calls, reopened.calls);
    WrittenAppend(closed.calls, reopened.calls);
    var status := if reopened.handle.fh == Closed then Suspended else Ok;
    Outcome(reopened.handle, status, closed.calls + reopened.calls)
  }

  /** tryResume: always close and reopen the action's handle; the action
      stays suspended exactly when no file handle was obtained. */
  function TryResume(files: Files, name: string, o: OpenOutcomes): (r: Delivery)
    requires name in files
    ensures OnlyFileStateOf(files, name, r.files)
    ensures Consistent(r.files[name])
    ensures r.status == Suspended <==> r.files[name].fh == Closed
    ensures r.files[name].fh == Open <==> Opens(o)
    ensures Closes(r.calls) == (if files[name].fh == Open then 1 else 0)
    ensures Connects(r.calls) == 1
    ensures Written(r.calls) == []
  {
    var resumed := Resume(files[name], o);
    Delivery(files[name := resumed.handle], resumed.status, resumed.calls)
  }
}
