# rsyslog omhdfs: the shared HDFS file object, in Dafny

This project models the file-object layer of rsyslog's HDFS output module
(`plugins/omhdfs/omhdfs.c`). Several configured actions may write to the same
HDFS file; the module keeps one shared handle (`file_t`) per file name in a
module-wide hashtable, counts its users, opens it lazily, writes each message
with a single `hdfsWrite`, and closes every handle on HUP. Backend trouble is
never fatal: it is reported to the rsyslog core as `RS_RET_SUSPENDED`, and the
core later calls `tryResume`.

The model is a sequential, functional state machine:

- `HdfsClient` (`client.dfy`) holds the interface to libhdfs. The answers of
  the library are inputs: whether `hdfsConnect` succeeds; whether the
  append-open succeeds, fails with `ENOENT` or fails otherwise; whether the
  create-open succeeds; and the count `hdfsWrite` reports, a signed 32-bit
  `tSize`. Every library call an operation issues is recorded in a trace of
  `Call`s: `Connect`, `OpenAppend`, `OpenCreate`, `Write(data)` and `CloseFile`.
- `FileObject` (`file_object.dfy`) models the `file_t` record as an immutable
  `Handle`. It carries the name, host, port, `connected` (the `fs` field),
  `fh` (Closed or Open) and `nUsers`. The operations are `fileObjConstruct`,
  `fileObjAddUser`, `fileOpen`, `fileWrite` and `fileClose`.
  "Lock engaged" is the predicate `nUsers > 1`.
- `Registry` (`registry.dfy`) models the `files` hashtable as a
  `map<string, Handle>`. It holds the registration part of
  `parseSelectorAct`, which is find-or-create plus one more user, and
  `doHUP`.
- `Action` (`action.dfy`) models the entry points `doAction` and
  `tryResume`. An action is bound to the handle stored under its file name.
- `Lifecycle` (`lifecycle.dfy`) holds properties of whole runs. They cover
  the user count and the lock latch over any sequence of handle operations,
  and a table invariant kept by any sequence of entry-point calls. It also
  holds the end-to-end scenarios: one handle per name, the ENOENT fallback,
  suspension when the connect fails, and reopen after HUP.

Three details of the C types are modelled explicitly:

- `fileWrite` compares `(unsigned) num_written_bytes` with the `size_t`
  length. The int32 count is therefore reduced modulo 2^32 before the
  comparison (`CountAccepted`).
- For any message shorter than 2^31 bytes, that check means "the count
  equals the length" (`CountAcceptedExact`). So an error return of -1 and
  every short write are reported as Suspended.
- The configured port is an `int`, but it is stored in libhdfs's 16-bit
  `tPort`. Registration therefore keeps it modulo 65536.

`doHUP` walks the hashtable in its own iteration order. That order is an input
of `DoHup`: a duplicate-free list of the table's names.

A failed `hashtable_insert` is reported as `RS_RET_OUT_OF_MEMORY`
(omhdfs.c:378-380), which the model calls `OutOfMemory`. `fileClose` releases
only the file handle and keeps `fs` (omhdfs.c:296-297).

On a handle shared by several actions, `fileWrite` as written hangs when it
finds the file Closed: it holds `mut` and calls `fileOpen`, which locks `mut`
again. The model keeps that behaviour in `FileObject.WriteAsWritten` and uses
the evidently intended write path, `FileObject.WriteRecord`, which opens under
the lock already held, everywhere else (see "## Findings").

## Model

| member | source | states |
|---|---|---|
| FileObject.Construct | plugins/omhdfs/omhdfs.c:157-172 | a new handle is Closed, has zero users, no name and no host, and its lock is not engaged |
| FileObject.AddUser | plugins/omhdfs/omhdfs.c:174-182 | the user count goes up by exactly one and nothing else changes; the lock becomes engaged exactly on the step from one user to two (where the mutex is initialised) and never disengages |
| FileObject.OpenFile | plugins/omhdfs/omhdfs.c:209-248 | on a Closed handle: a failed connect stores no connection and issues no open call; otherwise an append-open follows, and a create-open only when the append-open failed with ENOENT; the result is Ok exactly when `fh` is Open afterwards, which is exactly when the backend's answers yield a file; name, endpoint and users are unchanged and an open file implies a connection |
| FileObject.OpenFileCalls | plugins/omhdfs/omhdfs.c:218-242 | an open attempt issues exactly one connect and no write or close |
| FileObject.CStringLength | plugins/omhdfs/omhdfs.c:270 | strlen: the count of bytes before the first NUL, all of them non-NUL, followed by a NUL or the end of the buffer |
| FileObject.Payload | plugins/omhdfs/omhdfs.c:270-271 | the bytes handed to hdfsWrite are a prefix of the buffer of strlen length |
| FileObject.PayloadOfTerminated | plugins/omhdfs/omhdfs.c:270-271 | a NUL-free message followed by its terminator and any trailing bytes is written as exactly that message |
| FileObject.CountAcceptedExact | plugins/omhdfs/omhdfs.c:271-276 | below 2^31 bytes the unsigned-cast comparison accepts a reported count exactly when it equals the length, so -1 and short writes are rejected |
| FileObject.WriteRecord | plugins/omhdfs/omhdfs.c:251-282 | an Open handle is written once and not reopened; a Closed handle gets exactly the open attempt of OpenFile first, and no write when that leaves it Closed; the handle ends Open iff it was Open or the backend yields a file; the result is Ok iff a file is open and the reported count passes the length check; name, endpoint and users are unchanged |
| FileObject.WriteAsWritten | plugins/omhdfs/omhdfs.c:257-268 | fileWrite as written never returns exactly when the lock is engaged and the file is Closed (the second lock of `mut` in fileOpen); otherwise it returns WriteRecord's outcome |
| FileObject.Close | plugins/omhdfs/omhdfs.c:285-304 | on a Closed handle nothing changes and no call is made; on an Open one exactly one CloseFile is issued and `fh` becomes Closed; the connection, name, endpoint and user count are untouched |
| Registry.NewHandle | plugins/omhdfs/omhdfs.c:366-371 | a handle for a new name starts Closed with no users, under that name, with the configured host or "default", and the configured port reduced to 16 bits |
| Registry.Register | plugins/omhdfs/omhdfs.c:358-383 | a missing file name fails with FileNotSpecified and no call; a known name returns the existing handle with one more user, no new entry, no backend call, the new host and port ignored; an unknown name issues the eager open and then inserts exactly one new entry with one user even when that open failed (status Suspended iff no file was obtained); only a failed insert aborts with OutOfMemory; other entries are untouched |
| Registry.HupCalls | plugins/omhdfs/omhdfs.c:396-404 | closing the handles of a duplicate-free list of names issues only CloseFile calls, one per open file among them |
| Registry.DoHup | plugins/omhdfs/omhdfs.c:389-405 | HUP closes every handle of the table, keeps the key set, every user count, name, endpoint and connection, issues one CloseFile per open file, and leaves an empty table untouched with no calls |
| Action.DoAction | plugins/omhdfs/omhdfs.c:333-337 | on the corrected write path: only the action's own handle changes, and only in its file state; one open attempt exactly when it was Closed, no close; the message's C string is written once exactly when a file is open afterwards; Ok iff that write is acknowledged in full |
| Action.WriteCalls | plugins/omhdfs/omhdfs.c:260-276 | the corrected write path issues one connect iff the handle was Closed, never closes, and writes the C string once iff a file is open afterwards |
| Action.Resume | plugins/omhdfs/omhdfs.c:324-330 | closes first (one CloseFile iff the file was Open) and then makes exactly one open attempt; the result is Suspended iff `fh` is Closed afterwards, so a recovered backend leaves the handle Open and Ok |
| Action.TryResume | plugins/omhdfs/omhdfs.c:322-331 | the action's handle is closed and reopened and nothing else in the table changes; suspended iff no file handle was obtained |
| Lifecycle.RunCountsUsers | plugins/omhdfs/omhdfs.c:175-180 | over any sequence of add-user, write, close and resume operations the user count is the initial count plus the number of add-user steps: nothing decrements it |
| Lifecycle.LockLatch | plugins/omhdfs/omhdfs.c:177-180 | once the lock is engaged (`nUsers > 1`) it stays engaged after any sequence of operations |
| Lifecycle.RunKeepsIdentity | plugins/omhdfs/omhdfs.c:209-304 | no sequence of operations changes a handle's name, host or port, or leaves an open file without a connection |
| Lifecycle.StepKeepsValid | plugins/omhdfs/omhdfs.c:322-404 | every entry-point call keeps each entry named by its key, used at least once and consistent; it never drops a name and never lowers a user count |
| Lifecycle.ReplayKeepsValid | plugins/omhdfs/omhdfs.c:322-404 | the same over any sequence of registrations, deliveries, retries and HUPs, so an engaged lock stays engaged for the whole run |
| Lifecycle.SameNameShared | plugins/omhdfs/omhdfs.c:363-383 | registering the same name twice yields one entry with the first registration's endpoint and two users, with the lock engaged and no backend call for the second |
| Lifecycle.CreateOnNoEntry | plugins/omhdfs/omhdfs.c:225-237 | when append-open reports ENOENT and create succeeds, the corrected write path connects, append-opens, create-opens and writes, ending Open with Ok; fileWrite as written gives exactly that on a handle with one user and hangs on a shared one |
| Lifecycle.SuspendOnConnectFailure | plugins/omhdfs/omhdfs.c:215-224 | when connect fails, a write on a Closed handle is Suspended, leaves it Closed and issues only the connect; fileWrite as written gives that on a handle with one user and hangs before the connect on a shared one |
| Lifecycle.ReopenAfterHup | plugins/omhdfs/omhdfs.c:257-268 | after HUP the next message for a name, on the corrected write path, starts with a connect and makes exactly one open attempt, and is written iff that attempt yields a file; fileWrite as written gives that outcome when the handle has one user and hangs when its lock is engaged |
| Lifecycle.SharedWriteAfterHupHangs | plugins/omhdfs/omhdfs.c:215-216 | two actions on one file name, then HUP: the next message makes fileWrite as written hang before any backend call, while the corrected path reconnects |
| Lifecycle.HupIdempotent | plugins/omhdfs/omhdfs.c:396-404 | a second HUP finds nothing to close and changes nothing |
| Lifecycle.CloseIdempotent | plugins/omhdfs/omhdfs.c:290-291 | closing twice is closing once: the second close changes nothing and calls nothing |
| Lifecycle.OpenThenClose | plugins/omhdfs/omhdfs.c:220-297 | open then close gives back the original handle, except that the connection made or lost by the open is kept; one CloseFile iff the open succeeded |
| Lifecycle.ResumeForgetsOpenState | plugins/omhdfs/omhdfs.c:324-325 | the handle and status after tryResume do not depend on whether the file was Open before |

## Left out

- The libhdfs calls, `errno` and the hashtable implementation are foreign code. Their answers are inputs, and the table is a Dafny `map`.
- The pthread mutex and all concurrency. "Lock engaged" is only a predicate. The one single-threaded consequence of the locking, the second lock of `mut` in `fileWrite` and then `fileOpen`, is modelled as a hang (see "## Findings"). A race between threads cannot be expressed in this sequential model: `fileClose` tests `fh` before taking the lock (omhdfs.c:290), and `doHUP` calls it with no lock held, alongside writes.
- FileObject.WriteRecord: models the corrected write path. On a shared Closed handle the source hangs instead (omhdfs.c:258, :216); `FileObject.WriteAsWritten` states that.
- Action.DoAction: inherits the corrected write path. On a shared Closed handle the source's doAction never returns and issues no backend call, so "one open attempt exactly when it was Closed" holds for the source only while the handle has one user.
- Action.WriteCalls: states the calls of the corrected write path. For a shared Closed handle the source issues no call at all and hangs before `hdfsConnect`.
- Memory ownership and teardown are allocator concerns, not logical behaviour:
  - `fileObjDestruct`, which is reached both from `freeInstance` (omhdfs.c:318) and from `hashtable_destroy` (omhdfs.c:434);
  - `free(pFile->fh)`;
  - the handoff of the `fileName` and `keybuf` strings.
- Registry.Register: does not model the global `fileName` being set to NULL after a new handle takes it (omhdfs.c:369). That belongs to the configuration globals; the registration step itself is modelled.
- Registry.Register: allocation failures from `malloc`, `strdup` and `ustrdup` (omhdfs.c:163, 367-370) are not modelled. The failure of `hashtable_insert` is (omhdfs.c:378-380).
- The connection is never released. `fs` is a flag that close does not reset, and the model adds no disconnect. A failed connect overwrites `fs` with NULL, as the source does.
- The `fs` and `hdfsPort` fields are left uninitialised by `fileObjConstruct`. The model gives them fixed values (no connection, port 0), which nothing reads before the first open or the registration overwrites them.
- `nUsers` is a C `int`. The model uses an unbounded count; overflow would need 2^31 actions on one file.
- FileObject.WriteRecord: `hdfsWrite` takes its length as a 32-bit `tSize`, so a message of 2^31 bytes or more would have its length truncated at that call. The model always records the whole C string as written, and applies the unsigned-cast comparison to the full length.
- Configuration plumbing is left out: the `:omhdfs:` prefix check, template-name parsing, `regCfSysLineHdlr` registrations, `resetConfigVariables`, `modInit` and `modExit`. So are the instance finaliser of `parseSelectorAct` and `createInstance`/`freeInstance`.
- Debug and log output, `dbgPrintInstInfo` and `isCompatibleWithFeature` are left out.
- The disabled `#if 0` block `prepareFile` (omhdfs.c:101-147) is left out.

## Findings

| source | as written | input that shows it | evidently intended | confidence | as-written member | corrected member |
|---|---|---|---|---|---|---|
| plugins/omhdfs/omhdfs.c:257-268 | with `nUsers > 1`, `fileWrite` locks `mut` and, on a Closed file, calls `fileOpen`, which locks the same mutex again; the mutex has default attributes (omhdfs.c:180), so the thread blocks on itself | two actions configured with the same file name, then a HUP, then one message for that file | open the file under the lock `fileWrite` already holds, then write (the comment at omhdfs.c:260-262 asks for the open to happen while mutex-protected) | medium: not executed; re-locking a default mutex is undefined by POSIX and blocks with glibc's default mutex | FileObject.WriteAsWritten, Lifecycle.SharedWriteAfterHupHangs | FileObject.WriteRecord, Action.WriteCalls |
