# GJServer in Dafny

A model of a small TCP key/value server and its client, with proofs of what they promise. The programs are
split as the source is:

| file | models |
|---|---|
| `bytes.dfy` | byte strings and the lines that `getline` sees |
| `proto.dfy` | the packed 8-byte header and the frame (`net/proto.cpp`) |
| `session.dfy` | frame reassembly over one in-place buffer (`net/session.h`) |
| `kvfile.dfy` | the text form of the dictionary (`kvstorage/kvstoragefile.cpp`) |
| `publish.dfy` | the replacement of the dictionary file, with a stop or a failure anywhere (`kvstorage/kvstoragefile.cpp`) |
| `storage.dfy` | the shared map, its dirty flag and the publishing worker, interleaved (`kvstorage/kvstorage.cpp`) |
| `atomicmap.dfy` | the reference: one map with atomic operations, retries, interleaved clients |
| `clientconfig.dfy` | command scripts (`client/clientconfig.cpp`) |
| `server.dfy` | dispatch of a request frame (`server/gjserver.cpp`), request frames of the client |
| `system.dfy` | any number of clients, connections that break, requests they leave behind, byte streams in any chunks, one server |
| `theorems.dfy` | what holds of every run of that system: one total order, final maps, reads |
| `progress.dfy` | its readers, no deadlock, and an end to every run |
| `exactly.dfy` | exactly when repeated commands do what each of them once would do |
| `service.dfy` | the sockets over the storage: handlers, flag stores, worker and stop interleaved |
| `client.dfy` | the client driver with its promise and retry loops (`client/gjclient.cpp`) |
| `timing.dfy` | durations, timestamps and the periodic task (`utils/time.cpp`, `concurrency/service.h`) |
| `stat.dfy` | the access statistics (`logging/stat.cpp`) |

Objects whose methods update fields are classes (`Session`, `KVStorageFile`, `KVStorage`, `GJServer`, `GJClient`,
`TimedTask`, `TStat`). Each method is proved to be a step, or a run, of a specification machine, and the theorems are
about runs of these machines with all their interleavings. Threads are interleavings of atomic steps: a step is what
happens under one lock, one flag access, one file operation, or one completed socket operation.

The main results:

- `Theorems.Linearizable`, `RealTimeOrder`, `ReadIsLatest`: for every number of clients, interleaving, chunking of
  both directions and pattern of broken connections, one total order of the operations explains the map and every
  answer that a client has accepted, respects each script and real time, and a read sees the latest write.
  `Progress.NoDeadlock`, `RunsEnd` and `CanFinish` add that the system always gets on and can always finish.
- `Exactly.ExactlyOnceIff`, `SameMapIff`, `SomeOrderIff`, `OwnReadsIff`: exactly which scripts always end as if they
  had run one after another, exactly which always end in one map, exactly when a key always holds what each command
  once, in some order, leaves there, and exactly which reads see their client's own writes: in every run, whatever
  breaks and is repeated or executed late.
- `Service.SavedIsPrefix`, `AnsweredIsSaved`, `FinishedIsSaved`: sockets and storage together, with a stop anywhere:
  the file left behind is a prefix of that total order, which answered writes are certain to be in it, and when whole
  scripts are.
- `Framing.ChunkingIndependence`, on top of `RunIsParse`, which holds for every byte stream.
- `Storage.Recovery`, `FlaggedIsCovered`, `QuietUpdate`, `Publishing.PublishSafe`, `OldIsWhole`: the storage by itself.
- `Stat.ReportConsistent`, `TotalsAreSums`: incremental 32-bit counters against a count over the whole history.

Where the code does less than its names or tests suggest, the exact condition is proved:

- The text form gives a map back if and only if no key holds a space and nothing holds a newline
  (`KVFile.StoreLoadRoundTrip`); a script if and only if no argument holds a newline (`ClientConfig.ScriptRoundTrip`).
- A command whose connection broke is sent again, but nothing takes back the request left in the old connection, so
  it may be executed once more at any later time. A client alone always ends with each command applied once if and
  only if its script writes no key with two different values (`Exactly.ExactlyOnceAlone`); a run that shows the loss
  is constructed otherwise (`Exactly.CanComeLast`). For any number of clients, the same condition on all scripts
  together decides whether they always end as if they had run one after another (`Exactly.ExactlyOnceIff`) and whether
  any two runs end in one map (`Exactly.SameMapIff`). Clients that share a key may also end in another order of their
  commands: under each key, some order explains the end of every run if and only if each value written to it is the
  last that some script writes to it (`Exactly.SomeOrderIff`). For a client's reads of its own writes, see
  `Exactly.OwnReadsIff`. Without late executions, retries do no harm (`Theorems.ExactlyOnce`, `SameFinalMap`).
- A session that reconnects can read the new connection as it was sent if and only if no bytes were left over from
  the old one (`Framing.ReconnectAtBoundary`), because `Reconnect` keeps `m_bufferSize`;
  `Framing.LeftOverSwallowsReply` shows what one byte does.
- A request gets its one reply if and only if its command is one of the two request codes
  (`Server.GJServer.ResolveHandler`); other nonzero commands pass `VerifyRequest` and are left without a reply, because
  the checks use a logical conjunction where the constants suggest a mask.
- `ProcessDisconnect` completes its promise once if and only if it was open and one of the five attempts reconnects
  (`GJClients.GJClient.ProcessDisconnect`).
- A dictionary file that is missing comes back if and only if an update stands between its two renames
  (`Publishing.FileComesBack`): after a failed second rename it stays missing for as long as the process runs.

Assumptions of the whole-system model (`System`, `Service`): every script command is a `get` or a `set` whose request
fits the 4096-byte buffer, and initial values fit a reply; a connection breaks only while a request is outstanding and
the client's reader is between frames, so that each attempt has one completion; reconnection succeeds. What a request
left behind becomes is open: it may never be executed, or once, at any time. Reads deliver at least one byte and at
most what was asked for. The clock is a parameter that does not go back and stays within the 64-bit range of
`steady_clock`. Which file operations fail, and the iteration order of the unordered map, are parameters.

## Model

| member | source | states |
|---|---|---|
| Bytes.LinesUndone | src/gjserver/kvstorage/kvstoragefile.cpp:32-34 | the lines a `getline` loop reads, written out again, are the text, with a newline added when a last line has none |
| Proto.FrameRoundTrip | src/gjserver/net/proto.cpp:25-51 | decoding a made frame gives back version 0, the command, the size and the content, whatever bytes follow |
| Proto.FrameOnTheWire | src/gjserver/net/proto.cpp:30-51 | a frame byte by byte: two zero bytes, the command and the whole size low byte first, the content |
| Proto.Prepare | src/gjserver/net/proto.cpp:30-39 | header fields and content are written into the given buffer byte for byte |
| Proto.MakeCommand | src/gjserver/net/proto.cpp:42-51 | a new buffer of exactly the frame |
| Framing.RunIsParse | src/gjserver/net/session.h:70-108 | for every byte stream and every chunking, the incremental reader does what cutting the whole stream into frames does: same frames, same bytes held, same rejection or fault |
| Framing.ChunkingIndependence | src/gjserver/net/session.h:70-108 | on well-formed frames and a partial last one the handler is called on exactly these frames in order, and the buffer holds exactly the partial one |
| Framing.ParseOfFrames | src/gjserver/net/session.h:94-106 | the reference parser inverts concatenation of well-formed frames |
| Framing.ReaderSafe | src/gjserver/net/session.h:71-79 | inside a well-formed frame a read asks for at least one byte, never past the frame or the buffer, and gets strictly nearer to its dispatch |
| Framing.RunSafe | src/gjserver/net/session.h:71-79 | on any bytes, a reader still reading asks for at least one byte inside its buffer, and has lost and invented none |
| Framing.ReconnectAtBoundary | src/gjserver/net/session.h:131-142 | after a reconnection, some way of reading the new connection yields it as it was sent exactly when no old bytes are held; and then every way does |
| Framing.LeftOverSwallowsReply | src/gjserver/net/session.h:131-142 | one byte held over, and the reply to a write is taken for the start of a 2048-byte frame that never comes |
| Framing.RejectionIsFinal | src/gjserver/net/session.h:96-102 | after a rejected frame, and only then, a dispatched reader that reconnects fails its assertion |
| Framing.Session.Request | src/gjserver/net/session.h:70-79 | offset and size of the next read; the assertion holds and the read stays inside the buffer |
| Framing.Session.Complete | src/gjserver/net/session.h:94-106 | the in-place completion handler is one step of the reader specification |
| Framing.Session.Reconnect | src/gjserver/net/session.h:131-142 | reports whether the connect succeeded; the bytes held stay either way, as they do after the failed read that led here, and reading resumes only after a success and from an incomplete frame |
| KVFile.SplitJoin | src/gjserver/kvstorage/kvstoragefile.cpp:75-86 | splitting undoes joining exactly when the key has no space |
| KVFile.SplitKeyValue | src/gjserver/kvstorage/kvstoragefile.cpp:75-86 | the in-place split computes the split at the first space |
| KVFile.LoadFile | src/gjserver/kvstorage/kvstoragefile.cpp:21-45 | folds `emplace` over the lines of the file; a missing file is an error |
| KVFile.LoadedIsFirst | src/gjserver/kvstorage/kvstoragefile.cpp:32-34 | a load leaves under a key what was there, else the value on the first line with the key, else nothing |
| KVFile.StoredForm | src/gjserver/kvstorage/kvstoragefile.cpp:62-64 | the stored text of a small map, byte for byte |
| KVFile.LoadedForm | src/gjserver/kvstorage/kvstoragefile.cpp:32-34 | what a hand-made file loads to: a key given twice, a line without a space, no last newline |
| KVFile.StoreLoadUnion | src/gjserver/kvstorage/kvstoragefile.cpp:21-72 | loading a stored map into another gives the union in which existing entries win, for every iteration order |
| KVFile.StoreLoadRoundTrip | src/gjserver/kvstorage/kvstoragefile.cpp:21-72 | store then load into an empty map is the identity exactly on maps whose keys have no space and which hold no newline |
| KVFile.LoadedIsClean | src/gjserver/kvstorage/kvstoragefile.cpp:32-34 | whatever the file, loaded keys have no space and nothing loaded has a newline |
| Publishing.PublishSafe | src/gjserver/kvstorage/kvstoragefile.cpp:12-18 | over every run and every failure, after each of its operations, so at every possible stop: `F`, if there, is the last published text whole; else `F.old` is |
| Publishing.StepSafe | src/gjserver/kvstorage/kvstoragefile.cpp:89-110 | each file operation keeps that; only the second rename publishes, only the renames touch `F`, and `F.old` changes only when the whole of `F` is moved there or when it is removed |
| Publishing.OldIsWhole | src/gjserver/kvstorage/kvstoragefile.cpp:12-18 | over every run, `F` and `F.old` hold texts published whole, or `F.old` is absent or what the start found: partial text is in `F.new` only |
| Publishing.MissingForGood | src/gjserver/kvstorage/kvstoragefile.cpp:92-96 | with `F` missing between updates, no later update restores it, and `F.old` keeps the text |
| Publishing.FileComesBack | src/gjserver/kvstorage/kvstoragefile.cpp:89-110 | from a safe state that has not stopped, some run ends with `F` present exactly when `F` is there or an update stands between its two renames |
| Publishing.KVStorageFile.StoreFile | src/gjserver/kvstorage/kvstoragefile.cpp:48-72 | succeeds exactly if `F.new` could be created, and then it holds the stored text, through machine steps; nothing else is touched |
| Publishing.KVStorageFile.ChangeStorageFile | src/gjserver/kvstorage/kvstoragefile.cpp:89-110 | succeeds exactly if `F` is there and both renames and the removal go through; the three files after every combination of outcomes; every operation is a machine step |
| Publishing.KVStorageFile.UpdateFile | src/gjserver/kvstorage/kvstoragefile.cpp:12-18 | one call is one run of the publishing machine; it succeeds exactly if every file operation does, and leaves the three files as their outcomes tell |
| Storage.RunKeeps | src/gjserver/kvstorage/kvstorage.cpp:25-80 | the storage invariant over every interleaving of loads, map accesses, flag stores, flag reads, copies and file operations |
| Storage.AnyOutcome | src/gjserver/kvstorage/kvstoragefile.cpp:89-110 | the machine holds no outcome back: every file operation of the update under way may succeed or fail, except that a missing `F` cannot be moved |
| Storage.Recovery | src/gjserver/kvstorage/kvstorage.cpp:59-80 | in every run whose writes the text form can carry, the surviving file loads to the in-memory map of an earlier moment, the one last published |
| Storage.VersionsAdvance | src/gjserver/concurrency/service.h:85-100 | published moments never go backwards: one worker, which re-posts its task after it ends |
| Storage.ClearFlag | src/gjserver/kvstorage/kvstorage.cpp:59-72 | a clear flag means that every write is still between its insert and its flag store, and that no update has got past its flag read |
| Storage.FlaggedIsCovered | src/gjserver/kvstorage/kvstorage.cpp:66-79 | a write flagged before an update's flag read is in the snapshot of that update, and in the file once it is moved in |
| Storage.QuietUpdate | src/gjserver/kvstorage/kvstorage.cpp:70-80 | once writing has stopped, reads going on, one update that is moved in makes the file load to the map in memory |
| Storage.MapStaysClean | src/gjserver/kvstorage/kvstorage.cpp:59-67 | over any run, keys without spaces and entries without newlines stay so unless a write brings one |
| Storage.UpdateIsARun | src/gjserver/kvstorage/kvstorage.cpp:75-79 | the file operations of one update are steps of the worker that copied the map |
| Storage.KVStorage.Load | src/gjserver/kvstorage/kvstorage.cpp:37-40 | the map becomes the file as loaded: one step of the machine |
| Storage.KVStorage.Get | src/gjserver/kvstorage/kvstorage.cpp:43-56 | one step of the machine; what it finds and answers is what all the logged writes, replayed on the loaded file, leave under the key |
| Storage.KVStorage.Set | src/gjserver/kvstorage/kvstorage.cpp:59-67 | inserts or overwrites, then raises the flag: two steps of the machine |
| Storage.KVStorage.UpdateFile | src/gjserver/kvstorage/kvstorage.cpp:70-80 | one call is one run of the machine; a clean map is left alone, a dirty one published exactly when every file operation goes through; the files after every combination of outcomes; a published file loads back to the map exactly when the text form carries it |
| AtomicMap.ReplayIsLatest | src/gjserver/kvstorage/kvstorage.cpp:43-67 | a key holds the value of its latest write, else its initial value |
| AtomicMap.StutterIsOnce | src/gjserver/client/gjclient.cpp:57-59 | repeating commands in a row, each at least once, has the effect of running each once |
| AtomicMap.OneValueDecides | src/gjserver/client/gjclient.cpp:184-186 | two lists with the same writes of a key, in any order and number, leave the same under it if all these writes are of one value |
| AtomicMap.SomeWriteIsLost | src/gjserver/client/gjclient.cpp:184-186 | with two values for a key, some write of it is not what the list leaves, and executed once more at the end it is |
| AtomicMap.OwnOpsDecide | src/gjserver/ut/tests.cpp:228-292 | with separate keys and no late write of the key, a key sees only its owner's operations, in their order |
| AtomicMap.Confluence | src/gjserver/ut/tests.cpp:228-292 | two interleavings of the same separate scripts, with any retries and no late write, end in the same map |
| ClientConfig.Words | src/gjserver/client/clientconfig.cpp:70-106 | `get ` asks for a read and `set ` for a write, letter by letter and in both directions |
| ClientConfig.OtherWords | src/gjserver/client/clientconfig.cpp:93-101 | any other word parses to command zero without arguments, which is not valid |
| ClientConfig.ParseExact | src/gjserver/client/clientconfig.cpp:88-106 | exactly which lines parse to a given command; the separator byte is not looked at |
| ClientConfig.LoadThrowsExactly | src/gjserver/client/clientconfig.cpp:92-103 | loading fails exactly when some line is a bare command word |
| ClientConfig.LoadedEach | src/gjserver/client/clientconfig.cpp:19-24 | without empty lines, a script loads as one command a line, in order |
| ClientConfig.EmptyLinesSkipped | src/gjserver/client/clientconfig.cpp:19-24 | empty lines make no difference |
| ClientConfig.ScriptRoundTrip | src/gjserver/client/clientconfig.cpp:8-60 | storing then loading gives the same commands in order exactly when no argument holds a newline |
| ClientConfig.StoreFile | src/gjserver/client/clientconfig.cpp:38-61 | succeeds exactly if the file is created and all commands are valid; the file then holds one printed line each, up to the first invalid command |
| ClientConfig.LoadFile | src/gjserver/client/clientconfig.cpp:8-35 | skips empty lines, keeps order, and throws without a file and at the first line that ends before its separator |
| Server.RequestSize | src/gjserver/client/gjclient.cpp:139-148 | a request is as long as its arguments, plus one byte for a write without a delimiter |
| Server.DoubleParse | src/gjserver/client/gjclient.cpp:151-161 | client split, join, frame, content view and server split give the operation of one direct split |
| Server.RequestsOnTheWire | src/gjserver/client/gjclient.cpp:131-148 | the script lines `get key` and `set key value` are sent as commands 0x11 and 0x12 with these arguments |
| Server.AnswersOnTheWire | src/gjserver/server/gjserver.cpp:46-60 | and answered with 0x21 and the value, or nothing for a missing key, and with 0x22 and nothing, the value then being under the key |
| Server.OthersOnTheWire | src/gjserver/server/gjserver.cpp:38-63 | a frame with any other command is left without reply and effect, and ends the connection exactly for command zero |
| Server.SizeClosure | src/gjserver/server/gjserver.cpp:46-60 | if values and requests fit a buffer, so do all later values and replies |
| Server.GJServer.ResolveHandler | src/gjserver/server/gjserver.cpp:38-63 | one reply exactly for the two request codes, and then one atomic operation on map and log and its answer; otherwise no reply and no effect; the connection ends exactly on a bad version or command zero; the dirty flag is raised exactly for writes |
| System.FitsTheBuffer | src/gjserver/net/session.h:43 | a command fits exactly when its request frame is no longer than 4096 bytes |
| System.RunKeeps | src/gjserver/net/session.h:94-106 | the system invariant over every run, requests executed after their connection was given up included: what is on each wire, in each buffer and left behind by broken connections, and how the log explains it |
| System.ClientReadKeepsWire | src/gjserver/client/gjclient.cpp:79-96 | the client accepts exactly when the reply is whole, and reads the answer the server gave |
| System.ExecuteStep | src/gjserver/server/gjserver.cpp:46-60 | the frame in the handler is the client's current command, and executing it is that atomic operation |
| System.AbandonedIsRequest | src/gjserver/net/session.h:84-106 | what a broken connection leaves behind is its outstanding request, whole, exactly when the server has not executed it |
| System.LateStep | src/gjserver/server/gjserver.cpp:54-60 | executing it later is one atomic operation: of a command its client has sent before |
| Theorems.Linearizable | src/gjserver/server/gjserver.cpp:38-63 | one total order explains the map, all answers, and each client's script with its retries and late executions, over every run |
| Theorems.ReadIsLatest | src/gjserver/kvstorage/kvstorage.cpp:43-56 | every answered read is of the latest preceding write, else the initial value, else empty |
| Theorems.RealTimeOrder | src/gjserver/server/gjserver.cpp:46-60 | the log only grows, and what is asked later and accepted takes a later place in it |
| Theorems.LateAtMostOnce | src/gjserver/client/gjclient.cpp:99-114 | there are never more late executions, done or still possible, than there were broken connections |
| Theorems.FinalMap | src/gjserver/ut/tests.cpp:228-292 | clients with separate keys leave under a key what its owner's script alone makes of it, if no write of the key was executed late or the script has one value for it |
| Theorems.SameFinalMap | src/gjserver/client/gjclient.cpp:48-60 | then clients with separate keys end in the same map over any two runs |
| Theorems.ExactlyOnce | src/gjserver/client/gjclient.cpp:48-60 | retries alone do no harm: without a late write, a client alone leaves the map with each command of its script applied once |
| Theorems.OwnReads | src/gjserver/client/gjclient.cpp:169-187 | with separate keys, an accepted read is of the client's own latest write, else the initial value, if no write of the key was executed late or the client wrote one value to it |
| Progress.ReadersSafe | src/gjserver/net/session.h:71-79 | in every reachable state both readers of every connection ask for at least one byte inside their 4096-byte buffers |
| Progress.NetworkIsFree | src/gjserver/net/session.h:82-106 | the model holds the network back nowhere: reads of every size up to what was asked for, and breaks whenever a request is outstanding and no reply under way |
| Progress.ServerIsASession | src/gjserver/net/session.h:94-106 | the server's end of each connection takes every chunk as the session's completion handler does |
| Progress.ClientIsASession | src/gjserver/net/session.h:94-106 | the client's end does too |
| Progress.NoDeadlock | src/gjserver/client/gjclient.cpp:57-59 | while a script is unfinished its connection can go on without breaking |
| Progress.RunsEnd | src/gjserver/client/gjclient.cpp:57-59 | the length of a run, late executions included, is bounded by the scripts and the number of broken connections |
| Progress.CanFinish | src/gjserver/client/gjclient.cpp:48-60 | every run can be prolonged, over the connections as they are, until all scripts are done |
| Exactly.ExactlyOnceIff | src/gjserver/client/gjclient.cpp:184-186 | for any scripts: every finished run leaves the map as if the scripts had run one after another if and only if no key is written with two different values |
| Exactly.SameMapIff | src/gjserver/client/gjclient.cpp:184-186 | any two finished runs of the same scripts end in the same map if and only if no key is written with two different values |
| Exactly.SomeOrderIff | src/gjserver/client/gjclient.cpp:184-186 | key by key, shared keys included: every finished run leaves what each command once, in some order of all scripts, leaves there if and only if each value written to the key is the last that some script writes to it |
| Exactly.ExactlyOnceAlone | src/gjserver/client/gjclient.cpp:184-186 | for one client alone: every finished run leaves the map as if each command had run once if and only if its script writes no key with two different values |
| Exactly.CanComeLast | src/gjserver/client/gjclient.cpp:99-114 | any write of any script is the last word in some finished run: given up with its connection, and executed at the end |
| Exactly.OwnReadsIff | src/gjserver/client/gjclient.cpp:169-187 | with separate keys: a read is of the client's own latest write in every run if and only if the client wrote no two different values to the key before |
| Service.NetRuns | src/gjserver/server/gjserver.cpp:38-63 | every run of the whole process is a run of the socket side |
| Service.DiskRuns | src/gjserver/kvstorage/kvstorage.cpp:43-80 | and of the storage side, with the accesses that the handlers make to the map |
| Service.RunKeeps | src/gjserver/kvstorage/kvstorage.cpp:59-67 | the two sides share one map and one total order over every run, and no client has an answer to an operation that has not returned, its flag store included |
| Service.NoDeadlock | src/gjserver/server/gjserver.cpp:49-59 | while the process runs, an unfinished client's next step, or the flag store that its reply waits for, can come |
| Service.LogStorable | src/gjserver/server/gjserver.cpp:54-56 | writes that come in requests have no space in their keys, and no newline unless a script has one |
| Service.MapIsClean | src/gjserver/server/gjserver.cpp:54-56 | in every run of the process, whatever the scripts, no key of the map holds a space, and no entry a newline unless a script does |
| Service.SavedIsPrefix | src/gjserver/kvstorage/kvstorage.cpp:59-80 | at every point of every run of the process with newline-free scripts, the surviving file loads to what a prefix of the one total order makes of the file at the start |
| Service.AnsweredIsSaved | src/gjserver/kvstorage/kvstorage.cpp:66-79 | that prefix holds every write answered, on the wire or to the client, before the flag read of an update that has moved its file in |
| Service.FinishedIsSaved | src/gjserver/ut/tests.cpp:228-292 | newline-free scripts that were done by that flag read, and write no key with two different values, are in the file as if they had run one after another |
| GJClients.GJClient.ResolveHandler | src/gjserver/client/gjclient.cpp:79-96 | completes the promise with the answer, or with the unexpected-reply error |
| GJClients.GJClient.ProcessDisconnect | src/gjserver/client/gjclient.cpp:99-114 | reconnects up to five times and stops at the first success; a promise is completed a second time exactly when all fail or it was complete before |
| GJClients.GJClient.ProcessCommand | src/gjserver/client/gjclient.cpp:151-195 | when a command is done, to be retried or thrown, and what the server has applied by then |
| GJClients.GJClient.RunCommand | src/gjserver/client/gjclient.cpp:57-59 | the retry loop ends at the first attempt that is answered or after which no reconnection succeeds, and has applied the command several times in a row with the effect of one |
| GJClients.GJClient.ProcessFile | src/gjserver/client/gjclient.cpp:48-60 | how the driver ends, and where; what was applied is the script with repetitions in a row; if it returns, the map is as if each command ran once; answers are those of an undisturbed run |
| GJClients.EndedOnce | src/gjserver/client/gjclient.cpp:151-195 | this fixes status, position and attempts used: the script and the attempts settle the outcome |
| GJClients.EnoughAnswered | src/gjserver/client/gjclient.cpp:57-59 | a valid script returns if and only if as many attempts as it has commands are answered before one is lost for good |
| Timing.SinceIsFloor | src/gjserver/utils/time.cpp:46-54 | on a clock that does not go back, a difference is the elapsed time rounded down, without wrap |
| Timing.SinceStored | src/gjserver/concurrency/service.h:88-90 | the difference to a stored time loses nothing to the second rounding |
| Timing.SpacedSpan | src/gjserver/concurrency/service.h:85-118 | runs `k` apart are at least `k` periods apart in stored time and less than a microsecond short of it in real time |
| Timing.TimedTask.Exec | src/gjserver/concurrency/service.h:85-100 | sleeps exactly if its first reading is less than a period after the last run, once and by what is missing, and then runs at least a period after it |
| Timing.TimedTask.ExecOptional | src/gjserver/concurrency/service.h:104-118 | runs exactly when the period has passed at the reading, keeping the spacing, and else sleeps a tenth of a second |
| Stat.FiveSeconds | src/gjserver/logging/stat.cpp:90-106 | an access is inside the window exactly while less than five seconds old |
| Stat.WindowHolds | src/gjserver/logging/stat.cpp:90-106 | the window holds every access of the last five seconds as often as it was made, and no other |
| Stat.CountsAre | src/gjserver/logging/stat.cpp:37-48 | the counters are the numbers of reads and of writes, each modulo 2^32 |
| Stat.ClearedIsWindow | src/gjserver/logging/stat.cpp:90-106 | popping old accesses from the front leaves exactly those inside the window, counted exactly modulo 2^32 |
| Stat.ClearKeeps | src/gjserver/logging/stat.cpp:90-106 | after a clearing the frame is the window of the whole history |
| Stat.StepKeeps | src/gjserver/logging/stat.cpp:32-54 | every access and clearing keeps all counters equal to counts over the history |
| Stat.ReportConsistent | src/gjserver/logging/stat.cpp:66-75 | a report reads the totals and the window counts of one state, at a moment not before its own clearing; the queue is the end of the history |
| Stat.TotalsAreSums | src/gjserver/logging/stat.cpp:37-48 | the totals are the sums of the totals by key, modulo 2^32 |
| Stat.TStat.ClearStatFrame | src/gjserver/logging/stat.cpp:90-106 | the loop does the clearing step of the specification |
| Stat.TStat.LogAccess | src/gjserver/logging/stat.cpp:32-54 | clears, counts and queues this access, at this time and under this key: one step of the specification |
| Stat.TStat.ReportGlobalStat | src/gjserver/logging/stat.cpp:66-75 | whatever comes between its two locks, what it reads are the counts over one history, and over the window of that history at a moment not before its own clearing |

## Left out

- Sockets, resolver, accept loop, thread pool and `io_context`: they are steps that the environment may take.
- Logging, report texts, the `TServer` and `TClient` wrappers and the `main` programs: they only forward or print.
- Relaxed atomics: the flag is accessed in one interleaving; it is only ever raised.
- Headers that announce less than 8 bytes or more than the buffer: the reader is `Faulted` and its run ends there.
- Contents of 4 GiB and more, whose size the 32-bit field cannot announce: excluded by `Proto.Fits`.
- Several requests in flight on one connection: the client sends the next one after it has the reply.
- A disconnect in the middle of a reply: `Framing.ReconnectAtBoundary` says when what follows can be read, the system excludes it.
- GJClients.GJClient.RunCommand: a lost request has been executed by the time of the retry or never will be; late executions are in `System` and `Exactly`.
- GJClients.GJClient.ProcessFile: likewise without late executions; `Exactly.ExactlyOnceAlone` has them.
- Storage.MapStaysClean: conditional on what is written, since the storage takes any key; `Service.MapIsClean` is about what requests can write.
- Theorems.SameFinalMap: its condition is on the logs of the two runs; `Exactly.SameMapIff` has the condition on the scripts.
- Exactly.SomeOrderIff: decides each key by itself; whether one order explains all keys at once is decided for one client, for separate keys, and for one value per key only.
- Stream errors after `open` in `StoreFile`: a write succeeds unless the process stops. A removal that throws counts as one that fails.
- A start without `F`: `KVFile.LoadFile` reports it; the server does not get past it, so the storage machine starts with `F` there.
- Durability at `Stop` and across a restart within the sync period: the code does not provide it.
- `TDuration` and `TTimestamp` are values here, with the operations that the periodic tasks and the statistics use, wrapping modulo 2^64.
- The iteration of an unordered map is a list of its keys in any order, chosen when the iteration starts.
- The four-thread pool of the server: it appears as interleaved steps of the connections, each map access, flag store and reply being one step.
- `ProcessFileSlow` and `TestConnect`: the first differs from `ProcessFile` by a pause only.
