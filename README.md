# A verified model of the file-transfer server, its load client and the TIME server

This project models, in Dafny, the sequential core of a small Python
networking repository:

- **FileInterface** (`file_interface.dfy`): the flat file service of
  `tugas-ets/file_interface.py`, with `list`, `get`, `upload` and `delete` over one
  directory. The directory is a map from entry name to bytes. The service is a
  class whose `store` field `Upload` and `Delete` update in place.
  `os.path.basename` is the longest suffix without '/' (`Text.Basename`).
  Globbing with `*.*` is a name predicate: non-empty, no leading '.', and a '.'
  somewhere. The base64 decoder is a parameter.
- **Framing** (`framing.dfy`): the per-connection loop `ProcessTheClient`. The
  process-pool and thread-pool servers carry identical copies of it. Reads are
  already-decoded strings, and an empty read is a closed peer. The protocol
  handler `FileProtocol.proses_string` is an opaque function parameter.
- **ProcessPoolServer** (`processpool_server.dfy`): the process-list
  bookkeeping of the process-pool server's accept loop. It prunes the dead
  processes, waits while the list is full, then appends the new process.
  Liveness is an oracle: one set of live processes per poll.
- **ThreadPoolServer** (`threadpool_server.dfy`): the thread-pool server's
  accept loop. Each accept either submits a connection or is logged as a
  failure, and the loop goes on either way.
- **TimeServer** (`time_server.dfy`): `tugas-2/server.py`. It has the
  TIME/QUIT validator, the shape of the `JAM hh:mm:ss` reply, the session loop
  and the list of client threads. The clock is a parameter: the reading taken
  for each read.
- **StressTest** (`stress_test.dfy`): the load client of
  `tugas-ets/stress-test.py`. It covers how a command is cut into writes, how
  the response is read back, the per-operation tallies of `run_test`,
  `reset_counters`, the names `record_upload` gives its uploads, and what
  `cleanup` removes.
- **CreateFile** (`create_file.dfy`): the chunk loop of `create_file` in
  `tugas-ets/create-file.py`.
- `text.dfy` and `wrappers.dfy` hold shared helpers: Python's `startswith`,
  `endswith`, `''.join`, `str(n)`, `os.path.basename`, and an Option type.

The file service's replies and checks, as the code has them:

- `upload` answers `data='File berhasil diupload'`.
- `get` fails with the messages `Filename cannot be empty` and `File not found or is not a file`.
- `delete` fails with the messages `file tidak ditemukan` and `tidak ada file di server`.
- `delete` with an empty name returns no response at all.
- `delete` does not take the basename of its argument.
- `upload` truncates the target file before it decodes the payload.
- `upload` of a name whose basename holds a NUL character fails with `embedded null byte` and changes nothing.
- `list` and `delete` count only names that match `*.*`.

Some consequences of the code as written are stated as properties of the model:

- An upload whose payload is missing or undecodable leaves an empty file (`UndecodableUploadTruncates`).
- A lone file without a '.' cannot be deleted (`DeleteOnlyUndottedFile`).
- A TIME session whose peer closed without QUIT never ends (`EmptyReadsNeverEnd`).
- Framing depends on where the reads are cut (`CommandEndingInCrlf`).
- Counter updates are lost under the process executor (`RunTest`).
- `run_test` with a client pool of 0 raises ValueError before any worker starts (`RunTest`).
- A process-pool server whose maximum is negative waits for ever on its first connection (`NoRoomWithoutSlots`). So does a `Server` built directly with a maximum of 0. `main` cannot make one with 0, because `process_worker or 20` turns an entered 0 into 20.
- A thread-pool server started with 0 workers or fewer ends before its first accept (`ThreadPoolServer.Run`).

## Model

| member | source | states |
|---|---|---|
| Text.Basename | tugas-ets/file_interface.py:29 | the basename is the longest suffix of the path without '/', preceded by '/' when shorter than the path |
| Text.BasenameIdempotent | tugas-ets/file_interface.py:29 | sanitising a sanitised name changes nothing |
| Text.BasenameAfterSlash | tugas-ets/file_interface.py:29 | any directory prefix before a plain name is stripped |
| Text.NatToString | tugas-ets/stress-test.py:213 | `str(n)` is a non-empty string of digits that spells n, whose last digit is n mod 10, and which starts with '0' only for n = 0 (no leading zeros) |
| FileInterface.Get | tugas-ets/file_interface.py:22-39 | OK_STREAM exactly when the argument is present, non-empty and its basename is stored; it echoes the unsanitised name with the stored size; otherwise ERROR with one of the three messages |
| FileInterface.GetErrors | tugas-ets/file_interface.py:23-32 | missing argument gives the IndexError text, empty name gives "Filename cannot be empty", absent file gives "File not found or is not a file" |
| FileInterface.GetTraversal | tugas-ets/file_interface.py:29-37 | a request for dirs/name is answered from the entry `name` and echoes dirs/name |
| FileInterface.GetKeyIsPlain | tugas-ets/file_interface.py:29-31 | the key `get` looks up never contains '/' |
| FileInterface.UploadEmptyCheckIsDead | tugas-ets/file_interface.py:45-47 | the joined path that the emptiness check looks at is never empty, so that branch never fires |
| FileInterface.AfterUpload | tugas-ets/file_interface.py:42-52 | the six outcomes of `upload`: missing argument, a basename holding NUL (ValueError "embedded null byte", directory unchanged), directory-like basename (IsADirectoryError, directory unchanged), missing payload and undecodable payload (ERROR, file truncated to empty), success (decoded bytes stored under the basename); directory validity preserved |
| FileInterface.UploadTouchesOneKey | tugas-ets/file_interface.py:45-49 | no entry other than the basename of the first argument changes |
| FileInterface.LastWriterWins | tugas-ets/file_interface.py:48-50 | a successful upload after any upload to the same name leaves what it alone would leave |
| FileInterface.UploadThenGet | tugas-ets/file_interface.py:45-50 | after a successful upload, `get` of the same name reports the decoded payload's length |
| FileInterface.UndecodableUploadTruncates | tugas-ets/file_interface.py:48-52 | an undecodable payload answers ERROR and leaves an empty file that `get` reports with size 0 |
| FileInterface.GlobCount | tugas-ets/file_interface.py:56-57 | the `*.*` count never exceeds the number of directory entries |
| FileInterface.GlobCountAfterRemove | tugas-ets/file_interface.py:56-69 | removing an entry lowers the `*.*` count by one exactly when the name matches `*.*` |
| FileInterface.GlobCountWithoutDots | tugas-ets/file_interface.py:56-65 | a directory without dotted names has a `*.*` count of zero |
| FileInterface.FileInterface.constructor | tugas-ets/file_interface.py:8-11 | the service starts on the directory as found |
| FileInterface.FileInterface.List | tugas-ets/file_interface.py:14-18 | OK with exactly the stored names matching `*.*`, each once, in some order |
| FileInterface.FileInterface.Upload | tugas-ets/file_interface.py:42-52 | the response and the new directory are those of AfterUpload |
| FileInterface.FileInterface.Delete | tugas-ets/file_interface.py:54-73 | missing argument: IndexError text; empty name: no response; absent name: "file tidak ditemukan"; zero `*.*` count: "tidak ada file di server"; otherwise only that entry is removed and the before/after `*.*` counts are returned, after = before - 1 for a dotted name |
| FileInterface.ExampleSession | tugas-ets/file_interface.py:14-73 | on an empty directory: LIST [], UPLOAD a.bin, LIST ["a.bin"], GET gives size 2, DELETE gives counts (1, 0) |
| FileInterface.DeleteOnlyUndottedFile | tugas-ets/file_interface.py:56-65 | deleting the only file, when its name has no '.', is refused with "tidak ada file di server" |
| Framing.Frame | tugas-ets/processpool_server.py:18-29 | the session is closed exactly when one of the reads is empty |
| Framing.Replies | tugas-ets/processpool_server.py:24-26 | one reply per command, the k-th being the handler's answer to the k-th command plus the terminator |
| Framing.ProcessTheClient | tugas-ets/processpool_server.py:16-29 | the replies sent are those of the commands the framing function dispatches, and the loop ends exactly on an empty read |
| Framing.RepliesAreTerminated | tugas-ets/processpool_server.py:24-26 | every reply ends with "\r\n\r\n" and the handler's answer precedes it |
| Framing.FrameConserves | tugas-ets/processpool_server.py:20-27 | the dispatched commands, each with its terminator, followed by the pending buffer, are exactly the starting buffer plus everything received |
| Framing.SplitCommandDispatchedOnce | tugas-ets/processpool_server.py:20-27 | any split of a command and its terminator into non-empty reads, with no earlier boundary ending in the terminator, dispatches that command exactly once and leaves the buffer empty |
| Framing.TwoCommandsInOneRead | tugas-ets/processpool_server.py:23-24 | two commands arriving in one read are dispatched as one text containing the inner terminator |
| Framing.EmptyReadCloses | tugas-ets/threadpool_server.py:27-28 | an empty read ends the session with nothing more dispatched |
| Framing.NoTerminatorNoDispatch | tugas-ets/threadpool_server.py:19-22 | while no read boundary ends with the terminator, nothing is dispatched and the reads concatenate in the buffer |
| Framing.CommandEndingInCrlf | tugas-ets/threadpool_server.py:22-26 | the same bytes cut at different places are dispatched differently when a command ends with "\r\n" |
| ProcessPoolServer.Prune | tugas-ets/processpool_server.py:56 | pruning never lengthens the list |
| ProcessPoolServer.PruneMembers | tugas-ets/processpool_server.py:56 | pruning keeps exactly the listed processes that are alive |
| ProcessPoolServer.ListAfterStep | tugas-ets/processpool_server.py:62-64 | each poll of the wait loop prunes the list once more |
| ProcessPoolServer.PruneAppend | tugas-ets/processpool_server.py:56 | pruning preserves order: it distributes over concatenation |
| ProcessPoolServer.PruneTwice | tugas-ets/processpool_server.py:64 | pruning twice is pruning once by the processes alive at both polls |
| ProcessPoolServer.PruneAllKeepsSurvivors | tugas-ets/processpool_server.py:56-64 | repeated pruning keeps exactly the processes alive at every poll, in their original order |
| ProcessPoolServer.PruneAllBound | tugas-ets/processpool_server.py:56-64 | after k polls the list is no longer than pruning by the k-th poll alone |
| ProcessPoolServer.DistinctPrune | tugas-ets/processpool_server.py:56 | pruning a list without repetitions leaves one without repetitions |
| ProcessPoolServer.FirstRoom | tugas-ets/processpool_server.py:59-64 | the poll at which the wait loop stops lies within the polls given |
| ProcessPoolServer.FirstRoomIs | tugas-ets/processpool_server.py:59-64 | the wait loop stops at the first poll that leaves fewer than the maximum listed |
| ProcessPoolServer.NoRoomWithoutSlots | tugas-ets/processpool_server.py:59-64 | with a maximum of 0 or less no poll ever has room: the wait loop runs through every poll it is given without stopping |
| ProcessPoolServer.Admitted | tugas-ets/processpool_server.py:55-70 | one admission ends with the process just started |
| ProcessPoolServer.AdmittedKeepsSurvivors | tugas-ets/processpool_server.py:55-70 | an admission keeps every listed process that was alive at each of its polls |
| ProcessPoolServer.AdmitAll | tugas-ets/processpool_server.py:51-70 | after a run of admissions the list ends with the last process started |
| ProcessPoolServer.Server.constructor | tugas-ets/processpool_server.py:37-43 | a new server has the given maximum and no processes |
| ProcessPoolServer.Server.Admit | tugas-ets/processpool_server.py:55-70 | the wait loop stops at the first poll that leaves fewer than the maximum; the new list is the pruned list plus the new process (Admitted), and within the maximum |
| ProcessPoolServer.Server.Run | tugas-ets/processpool_server.py:51-72 | the final list is that of the admissions one after the other (AdmitAll); it is within the maximum, holds no process twice, holds only started processes and ends with the newest one |
| ProcessPoolServer.RunStep | tugas-ets/processpool_server.py:55-70 | one turn of the accept loop keeps the list free of repetitions and made of started processes |
| ThreadPoolServer.Connections | tugas-ets/threadpool_server.py:50-56 | no more connections are submitted than there were accepts |
| ThreadPoolServer.Failures | tugas-ets/threadpool_server.py:50-59 | no more failures are logged than there were accepts |
| ThreadPoolServer.EveryAcceptAccountedFor | tugas-ets/threadpool_server.py:50-59 | every accept is either submitted or logged, never both and never neither |
| ThreadPoolServer.FailureDoesNotStopLoop | tugas-ets/threadpool_server.py:58-59 | a failed accept does not stop the loop: the connections on both sides of it are all submitted |
| ThreadPoolServer.Run | tugas-ets/threadpool_server.py:43-59 | with 0 workers or fewer the pool cannot be created and nothing is accepted; otherwise the connections submitted and the failures logged are exactly those of the accepts, in order |
| TimeServer.ValidData | tugas-2/server.py:15-25 | valid exactly when the data starts with TIME and ends with CRLF; the empty check is subsumed |
| TimeServer.ValidDataLength | tugas-2/server.py:19-25 | a valid request has at least six bytes |
| TimeServer.ValidDataExamples | tugas-2/server.py:15-25 | the empty read, QUIT\r\n and TIME are invalid; TIMEX\r\n is valid |
| TimeServer.TwoDigits | tugas-2/server.py:29 | a two-digit zero-padded field whose digits spell the number |
| TimeServer.PrepareMsg | tugas-2/server.py:27-30 | the reply is 14 ASCII characters |
| TimeServer.PrepareMsgRoundTrip | tugas-2/server.py:27-30 | every reply has the shape "JAM hh:mm:ss\r\n" and announces exactly the clock reading it was made from |
| TimeServer.ReadClockRoundTrip | tugas-2/server.py:27-30 | every message of that shape is the reply to the time it announces |
| TimeServer.Ascii | tugas-2/server.py:39 | encoding an ASCII string gives one byte per character with the same code |
| TimeServer.Serve | tugas-2/server.py:33-42 | at most one reply per read |
| TimeServer.ServeClient | tugas-2/server.py:32-44 | the replies sent and whether QUIT ended the loop are those of the session function |
| TimeServer.QuitEndsSession | tugas-2/server.py:33-42 | the session ends exactly when a QUIT is read |
| TimeServer.NothingAfterQuit | tugas-2/server.py:40-42 | reads after the first QUIT have no effect |
| TimeServer.IgnoredRead | tugas-2/server.py:33-42 | invalid non-QUIT data, the empty read included, is answered with nothing and does not end the session |
| TimeServer.EmptyReadsNeverEnd | tugas-2/server.py:33-42 | a closed peer's empty reads never end the session and send nothing |
| TimeServer.RepliesAreTimes | tugas-2/server.py:35-39 | every reply sent is the encoded time of some valid request of the session |
| TimeServer.Server.constructor | tugas-2/server.py:47-51 | a new server has no clients |
| TimeServer.Server.Run | tugas-2/server.py:53-63 | each accepted connection appends exactly one client thread, in order, and the earlier clients stay |
| StressTest.Chunks | tugas-ets/stress-test.py:67 | the chunks concatenate to the command, none is empty, none exceeds 65536 characters, and all but the last are exactly 65536 |
| StressTest.WireCarriesCommand | tugas-ets/stress-test.py:67-71 | the writes carry the command followed by the terminator once, at the end, and none is empty |
| StressTest.UnambiguousIff | tugas-ets/stress-test.py:79 | the terminator first occurs after a text exactly when the text neither contains it nor ends with "\r\n" |
| StressTest.ServerReceivesCommand | tugas-ets/stress-test.py:67-71 | however an unambiguous command and its terminator are cut into reads, the server dispatches exactly that command once |
| StressTest.ServerReceivesWire | tugas-ets/stress-test.py:67-71 | the client's own writes are dispatched as exactly the command |
| StressTest.ResponseText | tugas-ets/stress-test.py:87 | the text before the first terminator, or all of it when there is none |
| StressTest.ResponseTextWhole | tugas-ets/stress-test.py:79-87 | the whole data is the response exactly when it holds no terminator |
| StressTest.ResponseOfReply | tugas-ets/stress-test.py:87 | a reply to an unambiguous answer reads back as that answer, whatever follows its terminator |
| StressTest.CollectResults | tugas-ets/stress-test.py:328-335 | the records gathered are exactly those of the futures that completed, in completion order; futures that raised are skipped |
| StressTest.Receive | tugas-ets/stress-test.py:73-87 | the receive ends without a response (the timeout) only when the peer never closed |
| StressTest.ReceiveResponse | tugas-ets/stress-test.py:73-87 | the receive loop's result is that of the receive function; running out of reads is the timeout |
| StressTest.ClientReceivesAnswer | tugas-ets/stress-test.py:73-87 | however an unambiguous answer and its terminator are cut into reads, the client reads back exactly that answer |
| StressTest.ClientReceivesReply | tugas-ets/stress-test.py:73-87 | a server reply read in any pieces gives back the handler's answer |
| StressTest.ParseOperation | tugas-ets/stress-test.py:289-291 | an accepted operation's name is exactly the string given |
| StressTest.ParseOperationName | tugas-ets/stress-test.py:289-291 | each of upload, get and list is accepted |
| StressTest.Records | tugas-ets/stress-test.py:328-335 | every record gathered comes from a future that completed |
| StressTest.CountOk | tugas-ets/stress-test.py:339 | the success count is at most the number of results |
| StressTest.CountNotOk | tugas-ets/stress-test.py:340 | the fail count is at most the number of results |
| StressTest.OkDurations | tugas-ets/stress-test.py:337 | at most one duration per result |
| StressTest.PositiveThroughputs | tugas-ets/stress-test.py:338 | at most one throughput per result, and every one is positive |
| StressTest.ThroughputsOfRecords | tugas-ets/stress-test.py:338 | every throughput kept is some result's, and every result's positive throughput is kept |
| StressTest.PositiveThroughputsAppend | tugas-ets/stress-test.py:338 | the filter keeps result order: filtering two runs of results one after the other gives the two filtered runs in that order |
| StressTest.CountsPartition | tugas-ets/stress-test.py:339-340 | success count plus fail count equals the number of results |
| StressTest.DurationsOfSuccesses | tugas-ets/stress-test.py:337 | one duration per successful result; every duration is a successful result's, and every successful result's duration is kept |
| StressTest.OkDurationsAppend | tugas-ets/stress-test.py:337 | the durations keep result order: collecting over two runs of results one after the other gives the two collections in that order |
| StressTest.RecordsAccountForCompletions | tugas-ets/stress-test.py:328-335 | every result comes from a completed future; without exceptions there is one per future |
| StressTest.Summarise | tugas-ets/stress-test.py:337-373 | the counts partition the results; the operation, size, pool size and executor type are echoed; statistics are reported exactly when some result succeeded, over the durations of OkDurations (one per success) and the throughputs of PositiveThroughputs |
| StressTest.Client.constructor | tugas-ets/stress-test.py:21-37 | every operation starts with an empty results list and zero counters |
| StressTest.Client.ResetCounters | tugas-ets/stress-test.py:265-280 | every counter back to zero and every results list emptied |
| StressTest.Client.RunTest | tugas-ets/stress-test.py:288-373 | one future per worker; an invalid operation returns None and changes nothing; an unknown executor fails before any work; a pool of 0 or fewer workers raises ValueError and changes nothing; otherwise the completed results are appended for the operation (one per worker when none raised), the counters advance by the successes and failures only under the thread executor, and the summary is Summarise's |
| StressTest.Client.AddResults | tugas-ets/stress-test.py:331-333 | the records are appended to the operation's results; the counters advance only under the thread executor |
| StressTest.UploadName | tugas-ets/stress-test.py:212-213 | the upload name starts with "worker_" and ends with the file's basename |
| StressTest.UploadNamesDistinct | tugas-ets/stress-test.py:212-213 | two different workers never upload under the same name, whatever the file |
| StressTest.UploadNameIsStoredAsIs | tugas-ets/stress-test.py:212-213 | the upload name has no '/' and the server stores it unchanged; it is a legal entry name exactly when the file's own name holds no NUL character; it matches `*.*` exactly when the file's own name has a '.' |
| StressTest.CleanupTakesUploads | tugas-ets/stress-test.py:420 | an upload name is removed by cleanup exactly when the uploaded file's own name ends with ".bin" |
| StressTest.IsTestArtifact | tugas-ets/stress-test.py:420 | every name cleanup takes from the server directory is one the server's `*.*` listing shows |
| StressTest.RemoveDownloads | tugas-ets/stress-test.py:411-415 | every regular file leaves `downloads`; other entries stay |
| StressTest.RemoveTestFiles | tugas-ets/stress-test.py:417-425 | only regular files whose names start with "worker_" and end with ".bin" leave `files` |
| StressTest.Cleanup | tugas-ets/stress-test.py:409-425 | both directories as the two loops leave them |
| CreateFile.CreateFile | tugas-ets/create-file.py:7-28 | one chunk per MiB, each exactly 1 MiB, totalling size × 1 MiB bytes (nothing for size ≤ 0); the progress values logged are those of Progress |
| CreateFile.Progress | tugas-ets/create-file.py:26-28 | at most one progress line per MiB written |
| CreateFile.TenMiBBoundary | tugas-ets/create-file.py:26 | the remaining bytes are a multiple of 10 MiB exactly when the remaining MiB are a multiple of 10 |
| CreateFile.MarksAreBoundaries | tugas-ets/create-file.py:26-28 | progress values are exactly the MiB counts that leave a multiple of 10 MiB to write, strictly increasing |
| CreateFile.LastProgressIsWholeFile | tugas-ets/create-file.py:26-28 | for 50 MiB or more, the last progress line reports the whole file |
| CreateFile.ProgressOnlyForLargeFiles | tugas-ets/create-file.py:26 | progress is logged exactly for files of 50 MiB or more |

## Left out

- Sockets are not modelled: `bind`, `listen`, `accept`, `recv`, `sendall` and `close`. Reads are input sequences and writes are output sequences.
- UTF-8 decoding of reads is not modelled. A read that fails to decode would end the per-connection loop through its exception handler.
- Concurrency is not modelled: thread and process pools, `is_alive`, sleeping between polls, daemon flags, and races on the shared directory.
- `FileProtocol.proses_string` and `file_protocol.py` are not part of this model. The handler is an opaque function.
- Raw OK_STREAM byte streaming is not modelled; the server loops shown send only the reply envelope.
- `base64.b64decode` and `b64encode` are not modelled. The decoder is a parameter that yields bytes or an error message.
- JSON serialisation and `json.loads` are not modelled. The load client's response is the JSON text.
- Durations and throughputs are carried as `real` values taken from the results. Their averages, medians and extremes, floating-point rounding and the MB formatting are not modelled. Timing is not modelled either.
- Logging is not modelled, with two exceptions: the thread pool's logged accept failures (`ThreadPoolServer.Run`) and `create_file`'s progress values (`CreateFile.Progress`).
- `record_get`, `record_list` and the bodies of `record_upload` are not modelled. A worker's returned record is an input. `record_get` expects an `OK` status with `data_file`, which `get` never produces.
- `save_results_to_csv`, `perform_stress_test`, `set_server_config`, the `input()` prompts and `tugas-ets/merge-csv.py` are not modelled.
- The client scripts `tugas-1/3-client.py` and `tugas-2/client.py` are not modelled.
- `os.urandom` contents are not modelled. A chunk is its size.
- `datetime.now()` is not modelled. Each read's clock reading is a parameter.
- FileInterface.FileInterface.Delete: existence is membership in the directory map. Path resolution is not modelled, so this covers absolute paths, names with '/', ".", ".." and sub-directories. `os.remove` on a directory is not modelled either.
- FileInterface.Get: a name whose basename is a sub-directory is treated like an absent name. The directory holds regular files only.
- FileInterface.AfterUpload: a basename longer than 255 bytes is stored like any other name. The file system refuses it with OSError [Errno 36] and the directory stays unchanged. Other OS refusals of a name are not modelled either. A NUL character is modelled.
- FileInterface.FileInterface.Upload: the file object is never closed, and the model ignores that. Writes become visible at once.
- Framing.ProcessTheClient: exceptions raised by the handler or by decoding are not modelled. They would end the loop early.
- ProcessPoolServer.Server.Admit: the wait loop's termination rests on a liveness precondition. Some poll must find a free slot. With a maximum of 0 or less no poll can, so no admission is modelled there; `NoRoomWithoutSlots` states that the loop then never stops.
- ThreadPoolServer.Run: the pool's queueing and the `max_workers` bound on concurrent handlers are not modelled.
- TimeServer.ServeClient: the session is a finite run of reads. A read is not limited to 32 bytes, and the endless loop after a closed peer is stated by `EmptyReadsNeverEnd`.
- StressTest.Client.RunTest: the GET test's seeding step is not modelled. That step checks for the test file, changes directory, uploads it, counts that upload and may return None.
- StressTest.Client.RunTest: the counters advance by the workers' successes and failures as one step. In the source each worker adds its own increment as it finishes.
- StressTest.ReceiveResponse: the timeout is modelled as running out of reads. The result is the JSON text, not the decoded dictionary.
- CreateFile.CreateFile: the progress value is the integer MiB count; Python logs it as a float.
- CreateFile.CreateFile: sizes are whole MiB.
