/**
 The module-wide table of file objects (the `files` hashtable), keyed by HDFS
 file name, and the two operations that walk it: the registration step of
 parseSelectorAct (find-or-create plus one more user) and the HUP broadcast,
 which closes every file.
 */
module Registry {
  import opened HdfsClient
  import opened FileObject

  /** The `files` hashtable: at most one handle per file name. */
  type Files = map<string, Handle>

  /** What registration leaves behind: every entry is a consistent handle
      named by its own key and used by at least one action. */
  predicate Valid(files: Files)
  {
    forall k | k in files :: files[k].name == Some(k) && files[k].nUsers >= 1 && Consistent(files[k])
  }

  /** Why the setup of an action fails. */
  datatype SetupError = FileNotSpecified | OutOfMemory

  /** The result of registering one action: either the action is bound to the
      handle stored under its file name (with RS_RET_OK, or RS_RET_SUSPENDED
      when the eager open of a new handle failed), or its setup fails. Both
      carry the libhdfs calls that were issued. */
  datatype Registration =
    | Registered(files: Files, status: Status, calls: seq<Call>)
    | SetupFailed(error: SetupError, calls: seq<Call>)

  /** The host a new handle connects to when none is configured. */
  const DEFAULT_HOST: string := "default"

  /** A fresh handle for `name`, before its eager open: the configured host or
      "default", and the configured port converted to libhdfs's 16-bit port. */
  function NewHandle(name: string, host: Option<string>, port: int): (h: Handle)
    ensures h.fh == Closed && h.nUsers == 0
    ensures h.name == Some(name)
    ensures h.host == Some(if host.Some? then host.value else DEFAULT_HOST)
    ensures h.port == port % PORT_RANGE
  {
    var host := if host.Some? then host.value else DEFAULT_HOST;
    Construct().(name := Some(name), host := Some(host), port := port % PORT_RANGE)
  }

  /** The registration part of parseSelectorAct. A missing file name is a
      setup error. A known name gets one more user and nothing else changes:
      the host and port given now are ignored and no backend call is made. An
      unknown name gets a new handle that is opened eagerly and inserted even
      when that open failed (the action is then set up as Suspended); only a
      failed hashtable insert aborts the setup. */
  function Register(files: Files, fileName: Option<string>, host: Option<string>, port: int,
                    o: OpenOutcomes, insertOk: bool): (r: Registration)
    ensures fileName == None ==> r == SetupFailed(FileNotSpecified, [])
    ensures fileName.Some? ==> (r.Registered? <==> fileName.value in files || insertOk)
    ensures r.Registered? ==>
              var name := fileName.value;
              && r.files.Keys == files.Keys + {name}
              && (forall k | k in files && k != name :: r.files[k] == files[k])
              && r.files[name].nUsers == (if name in files then files[name].nUsers else 0) + 1
    ensures fileName.Some? && fileName.value in files ==>
              var name := fileName.value;
              && r.Registered? && r.status == Ok && r.calls == []
              && r.files[name] == files[name].(nUsers := files[name].nUsers + 1)
    ensures fileName.Some? && fileName.value !in files ==>
              var name := fileName.value;
              var created := NewHandle(name, host, port);
              && r.calls == OpenFile(created, o).calls
              && (!insertOk ==> r.error == OutOfMemory)
              && (r.Registered? ==>
                    && SameFile(created.(nUsers := 1), r.files[name])
                    && Consistent(r.files[name])
                    && (r.files[name].fh == Open <==> Opens(o))
                    && (r.status == Ok <==> Opens(o)))
  {
    match fileName
    case None => SetupFailed(FileNotSpecified, [])
    case Some(name) =>
      if name in files then
        Registered(files[name := AddUser(files[name])], Ok, [])
      else
        var attempt := OpenFile(NewHandle(name, host, port), o);
        var status := if attempt.handle.fh == Closed then Suspended else Ok;
        if !insertOk then SetupFailed(OutOfMemory, attempt.calls)
        else Registered(files[name := AddUser(attempt.handle)], status, attempt.calls)
  }

  /** No name occurs twice in a hashtable iteration. */
  predicate Distinct(order: seq<string>)
  {
    forall i, j | 0 <= i < j < |order| :: order[i] != order[j]
  }

  /** The names in `keys` whose handle holds an open file. */
  function OpenNames(files: Files, keys: set<string>): set<string>
  {
    set k | k in keys && k in files && files[k].fh == Open
  }

  /** The result of the HUP broadcast. */
  datatype Hup = Hup(files: Files, calls: seq<Call>)

  /** Counting the open files of a non-empty iteration: the first name plus
      the rest, which does not contain it again. */
  lemma OpenNamesSplit(files: Files, order: seq<string>)
    requires Distinct(order) && |order| > 0
    ensures |OpenNames(files, set k | k in order)| ==
            |OpenNames(files, {order[0]})| + |OpenNames(files, set k | k in order[1..])|
  {
    var k := order[0];
    var tail := set j | j in order[1..];
    forall j | j in order[1..] ensures j != k {
      var i :| 0 <= i < |order[1..]| && order[1..][i] == j;
      assert order[i + 1] == j;
    }
    assert (set j | j in order) == {k} + tail;
    assert OpenNames(files, set j | j in order) == OpenNames(files, {k}) + OpenNames(files, tail);
    assert OpenNames(files, {k}) !! OpenNames(files, tail);
  }

  /** The libhdfs calls of closing the handles named in `order`, one after
      the other: one hdfsCloseFile per open file among them. */
  function HupCalls(files: Files, order: seq<string>): (calls: seq<Call>)
    requires Distinct(order)
    ensures forall c | c in calls :: c == CloseFile
    ensures |calls| == |OpenNames(files, set k | k in order)|
    decreases |order|
  {
    if order == [] then
      assert OpenNames(files, set k | k in order) == {};
      []
    else
      var k := order[0];
      var first := if k in files then Close(files[k]).calls else [];
      OpenNamesSplit(files, order);
      assert |OpenNames(files, {k})| == |first| by {
        if k in files && files[k].fh == Open {
          assert OpenNames(files, {k}) == {k};
        } else {
          assert OpenNames(files, {k}) == {};
        }
      }
      first + HupCalls(files, order[1..])
  }

  /** doHUP: walk the whole table, in the hashtable's iteration order, and
      close every handle. Names, endpoints and user counts are kept; exactly
      one hdfsCloseFile is issued per open file, and an empty table is left
      as it is. */
  function DoHup(files: Files, order: seq<string>): (r: Hup)
    requires Distinct(order)
    requires forall k | k in order :: k in files
    requires forall k | k in files :: k in order
    ensures r.files.Keys == files.Keys
    ensures forall k | k in files ::
              r.files[k].fh == Closed && SameFile(files[k], r.files[k]) &&
              r.files[k].connected == files[k].connected
    ensures forall c | c in r.calls :: c == CloseFile
    ensures |r.calls| == |OpenNames(files, files.Keys)|
    ensures files == map[] ==> r == Hup(files, [])
  {
    assert (set k | k in order) == files.Keys;
    Hup(map k | k in files :: Close(files[k]).handle, HupCalls(files, order))
  }
}
