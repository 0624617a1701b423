# Verified model of the epoll key-value server

This project models, in Dafny, the parts of the server that hold state and protocols, and proves what they
are relied on for. `dafny verify dfyconfig.toml` checks everything.

| files | what they model |
|---|---|
| `CString.dfy`, `Sequences.dfy`, `Decimal.dfy` | C strings, reversal and flattening, decimal numerals |
| `HashModel.dfy`, `HashTable.dfy` | the chained hash table: as a value with the map it stands for, and as linked nodes updated in place |
| `DiskFormat.dfy`, `DiskIO.dfy` | the saved file: what is written, how `fgets` cuts it up, what loading gives |
| `Tokenizer.dfy`, `KvStore.dfy`, `KvEngine.dfy` | in-place tokenizing, the command switch, requests and replies in buffers, restarts |
| `TimerModel.dfy`, `ThreadClockr.dfy` | the versioned, lazily deleted timer queue |
| `IdleProtocol.dfy`, `Webserver.dfy` | the event thread and the timer thread over open connections |
| `ThreadPool.dfy` | submitters, workers, wake-ups and shutdown |
| `HttpParser.dfy` | HTTP framing and request parsing |
| `ConnPool.dfy` | the connection free list |

Code that updates memory is modelled by classes, arrays and loops, each proved equal to a function on values;
the properties are then proved about those functions. Concurrent code is a state machine whose steps are the
locked regions; the classes of `Webserver.dfy`, `ThreadClockr.dfy` and `ThreadPool.dfy` are proved to take
exactly those steps. In `Webserver.dfy` the other thread may take any number of steps before each step of a method:
`TimerThread` and `EventThread` stand for it, and callers know only their contracts.

## How the source is read

- `ENABLE_POINTER_KEY` is 1, allocation succeeds, and a new table has empty slots although
  `kv_core/hash.cpp:92` does not clear them.
- Key characters are 1..127 and their sum fits an `int`, so `_hash` never yields a negative slot.
- `put` does not overwrite. HDEL and HMOD of a missing key answer "ERROR", as coded; the "NO EXIST" branches of
  `kv_core/kvstore.cpp:115-117` and `kv_core/kvstore.cpp:128-130` are never taken.
- Commands get the tokens they read, and a message has at most 128 tokens. A message without tokens leaves the
  reply buffer alone.
- `Conn_pool::Release` pushes the released block and ends its binding, and `get` yields null for an unknown id;
  `utils/memory.h:79` as written takes the address of its parameter and keeps the map entry.
- The HTTP functions work on the byte sequence they are given. Field names are matched exactly as coded, so a
  length field in another letter case is not seen, although section 5.1 of RFC 9110 makes names
  case-insensitive.
- A failed accept makes `deal_NewConn` return 0, and the event loop adds a timer for the number 0; the model
  keeps that step.
- The timer thread computes its waiting time, unlocks, and starts to wait later. The wait can therefore end
  late by exactly that delay; the bound below says so.

## Findings

- Load undoes save, and a restart is unobservable, exactly when every binding is storable: no ':' or newline in
  the key, no newline in the value, and |key| + 1 + |value| at most 511 (`DiskFormat.LoadUndoesSave`,
  `KvStore.RestartUnobservable`). A longer line comes back with its value cut, and what was cut off is read as a
  line of its own: with a colon in it, it becomes another binding (`DiskFormat.LongLineIsCut`).
- Activity saves a connection only until a callback has found it idle; data that arrives between that check and the
  close is lost with the connection (`IdleProtocol.ActiveStaysOpen`, `IdleProtocol.ActivityComesTooLate`).
- An added timer fires as a plain map id to deadline would, in every later pass and whatever was queued before,
  exactly when its version is new to the id; version 0 does only as a timer with an empty callback that surfaces
  behind all that could fire (`TimerModel.AddFiresExactly`). Negative versions do no harm.
- A deleted timer can still fire: `IdleProtocol.DeletedCanFire` is a run of the server, from its start, in which a
  renewal is interrupted by a close, queues version 0, and a later pass fires the timer of a connection closed
  since. `TimerModel.DeletedFiresExactly` says, over whole runs, when that happens, and `IdleProtocol` shows that
  the server tolerates it.

## Model

| member | source | states |
|---|---|---|
| HashTable.HashOf | kv_core/hash.cpp:36-49 | the loop never exceeds an `int` and yields the character sum reduced by the number of slots |
| HashModel.CharSumAdds | kv_core/hash.cpp:40-48 | the sum counts each character once wherever it stands, so keys made of the same characters share a slot |
| HashTable.StrDup | kv_core/hash.cpp:58-70 | the copy is a buffer of its own that holds exactly the string and its terminator |
| HashTable.CreateNode | kv_core/hash.cpp:51-84 | a new node with key and value copied out of the caller's buffer into two buffers of their own |
| HashTable.Hashtable.constructor | kv_core/hash.cpp:87-101 | a new table is well formed and empty |
| HashTable.Hashtable.Walk | kv_core/hash.cpp:134-141 | the chain walk stops at the first node with the key that stands in the buffer, or at the end |
| HashTable.Hashtable.InsertHead | kv_core/hash.cpp:144-146 | the new node becomes the head of its chain; every other chain and binding is untouched |
| HashTable.Hashtable.Put | kv_core/hash.cpp:127-151 | the linked table changes as the value-level put says, `count` stays the number of bindings, an existing key answers 1 and changes nothing; the table still owns no part of the caller's buffer |
| HashTable.Hashtable.Get | kv_core/hash.cpp:153-172 | reads the value out of the buffer of the key's node, or finds nothing |
| HashTable.Hashtable.WalkBefore | kv_core/hash.cpp:206-217 | the delete walk stops at the predecessor of the key's node, or at the last node |
| HashTable.Hashtable.UnlinkHead | kv_core/hash.cpp:186-188 | unlinking the head drops the first binding of one chain only |
| HashTable.Hashtable.UnlinkAfter | kv_core/hash.cpp:219-220 | unlinking mid-chain drops exactly one binding; all other chains keep their nodes and order |
| HashTable.Hashtable.Delete | kv_core/hash.cpp:176-235 | removes exactly the key's binding and answers 0, or changes nothing and answers -1 |
| HashTable.Hashtable.SetValue | kv_core/hash.cpp:278-284 | pointing one node to a new value string replaces the value of exactly one binding |
| HashTable.Hashtable.Modify | kv_core/hash.cpp:267-293 | replaces exactly the key's value and answers 0, or changes nothing and answers -1; the table still owns no part of the caller's buffer |
| HashTable.Hashtable.StoredApart | kv_core/hash.cpp:51-84 | every node holds its key and value in buffers other than the caller's, so later writes to the request buffer do not reach stored data |
| HashTable.Hashtable.NodesApart | kv_core/hash.cpp:127-151 | every node sits in the slot its key names and in one place only, so chains are acyclic and disjoint |
| HashTable.Hashtable.Destroy | kv_core/hash.cpp:104-124 | frees every node of every chain exactly once, in chain order, and leaves all slots empty |
| HashModel.GetIsMapGet | kv_core/hash.cpp:153-172 | a chain walk finds a key exactly when the map binds it, with the map's value |
| HashModel.PutIsMapPut | kv_core/hash.cpp:127-151 | put refines insertion into a map that does not overwrite, and keeps the table well formed |
| HashModel.DeleteIsMapDelete | kv_core/hash.cpp:176-235 | delete refines removal from a map and lowers the number of bindings by one exactly when it succeeds |
| HashModel.ModifyIsMapModify | kv_core/hash.cpp:267-293 | modify refines the update of an existing map key |
| HashModel.DeleteUndoesPut | kv_core/hash.cpp:127-235 | deleting a key that was just put restores every chain exactly |
| HashModel.DeleteKeepsOrder | kv_core/hash.cpp:176-235 | delete filters one chain by the key and leaves the order of all other bindings |
| HashModel.ModifyKeepsOrder | kv_core/hash.cpp:267-293 | modify changes the value of the key's binding where it stands, and nothing else |
| DiskIO.SaveToDisk | kv_core/hash.cpp:297-327 | the two loops write one line for each binding, slots in order, chains in order |
| DiskIO.Fgets | kv_core/hash.cpp:354-355 | the buffer receives the next chunk: through a newline, at most 511 characters, terminated; it fails only at the end (section 7.21.7.2 of C11) |
| DiskIO.CutLine | kv_core/hash.cpp:356-364 | the two terminators written into the buffer split a chunk at its first colon before its newline |
| DiskIO.LoadFromDisk | kv_core/hash.cpp:330-378 | the read loop performs exactly the loads that the file text calls for; a missing file loads nothing |
| DiskFormat.LoadMeaning | kv_core/hash.cpp:355-372 | loading any text into any table is a left-biased merge: existing bindings win, then the first chunk naming a key; the size grows by the number of new distinct keys |
| DiskFormat.ParseMeaning | kv_core/hash.cpp:354-372 | a file is read as its chunks say, in order: each chunk is a key, its first colon and a value, or holds nothing; said of any split of the text into chunks of at most 511 characters that end at a newline, when full, or at the end |
| DiskFormat.EveryFileIsRead | kv_core/hash.cpp:354-372 | every text, with or without a last newline, has such a split |
| DiskFormat.PlainLineLoadsNothing | kv_core/hash.cpp:359-361 | a line without a colon, however long, is ignored, and loading goes on behind it |
| DiskFormat.ParsedAreStorable | kv_core/hash.cpp:355-366 | whatever a file holds, only storable bindings come out of it |
| DiskFormat.ReadLine | kv_core/hash.cpp:355-366 | a line of up to 511 characters is read as one binding, also when its newline is left for the next chunk |
| DiskFormat.LongLineIsCut | kv_core/hash.cpp:354-366 | a longer line is read with its value cut to 510 - abs(key) characters; at 512 the last one is lost; the rest of the value is read as a line of its own, which binds nothing if it has no colon |
| DiskFormat.LongKeyIsCut | kv_core/hash.cpp:354-366 | of a key of 511 or more characters the first 511 are ignored, and the rest of the line is read as if it stood alone |
| DiskFormat.SavedIsBound | kv_core/hash.cpp:313-321 | the saved lines are exactly the map's bindings |
| DiskFormat.LoadUndoesSave | kv_core/hash.cpp:297-378 | loading what was saved into an empty table gives the same map if and only if every binding is storable |
| DiskFormat.CycleReversesChains | kv_core/hash.cpp:313-372 | one save and load reverses every chain |
| DiskFormat.TwoCyclesRestoreLayout | kv_core/hash.cpp:313-372 | two cycles restore the exact layout, so the third saved file equals the first |
| Tokenizer.RunsAreRuns | kv_core/kvstore.cpp:51-63 | the words found are maximal runs without a space, in order, and none is left out |
| Tokenizer.RunsAreUnique | kv_core/kvstore.cpp:51-63 | there is only one such list of words |
| Tokenizer.SplitOfJoin | kv_core/kvstore.cpp:51-63 | splitting tokens joined by single spaces gives the tokens back |
| Tokenizer.TokensAreTokens | kv_core/kvstore.cpp:51-63 | tokens are non-empty and without spaces; re-joining and splitting a message's tokens gives the same tokens |
| Tokenizer.Strtok | kv_core/kvstore.cpp:57-60 | one call finds the next word and changes nothing but the one terminator behind it (section 7.24.5.8 of C11) |
| Tokenizer.SplitToken | kv_core/kvstore.cpp:51-63 | after all calls every pointer still yields its token as a C string: no terminator damages a token |
| KvStore.CommandNames | kv_core/kvstore.cpp:3-28 | the table search reaches each of the five cases for exactly its own name |
| KvStore.ExecuteIsAnswer | kv_core/kvstore.cpp:65-153 | one request on the table replies and changes the bindings as the map-based interpreter does; other commands change nothing |
| KvStore.RunIsMapRun | kv_core/kvstore.cpp:65-162 | so does any run of requests |
| KvStore.SetIsRead | kv_core/kvstore.cpp:85-107 | a value that was set is answered by every later HGET until its key is modified or deleted, also after further sets of the key |
| KvStore.ModifiedIsRead | kv_core/kvstore.cpp:98-133 | so is a value that was modified |
| KvStore.DeletedIsGone | kv_core/kvstore.cpp:98-120 | a deleted key is answered with NO EXIST until it is set again |
| Decimal.ToDecimal | kv_core/kvstore.cpp:136-144 | a count is printed in digits, without a leading zero unless it is 0 |
| Decimal.ReadBack | kv_core/kvstore.cpp:136-144 | and the digits stand for the count |
| KvStore.RestartTransparent | kv_core/kvstore.cpp:164-173 | exit and init between two runs change no later reply, if the bindings at that moment are storable |
| KvStore.StorableRuns | kv_core/kvstore.cpp:65-173 | requests that store only storable bindings keep the table that way |
| KvStore.LostBindingShows | kv_core/kvstore.cpp:164-173 | a binding that is not storable is exposed by a single request after a restart |
| KvStore.RestartUnobservable | kv_core/kvstore.cpp:164-173 | over all later requests, a restart is unobservable if and only if every binding is storable |
| KvStore.RunsAreReachable | kv_core/kvstore.cpp:51-162 | the hypothesis of the previous row, that unstorable bindings have words as keys, holds after every run |
| KvEngine.WriteReply | kv_core/kvstore.cpp:82-94 | the reply buffer holds the reply, cut to 511 characters, and zeros |
| KvEngine.FindCommand | kv_core/kvstore.cpp:73-79 | the loop finds the first command of that name, or one past the last |
| KvEngine.RunCommand | kv_core/kvstore.cpp:83-152 | the switch changes the linked table and chooses the reply as the value-level interpreter does |
| KvEngine.ParserProtocol | kv_core/kvstore.cpp:65-153 | executes the command the token pointers name and fills the reply buffer as `Respond` says; without tokens it changes nothing |
| KvEngine.RespondAnswers | kv_core/kvstore.cpp:65-153 | read as a C string, the reply buffer holds the reply of the map-based interpreter, and the bindings follow it |
| KvEngine.Engine.Request | kv_core/kvstore.cpp:155-162 | a request buffer is cut up in place, executed and answered with the map-based interpreter's reply as a C string; without tokens nothing is written; afterwards the table owns no part of either buffer, although the tokens point into one |
| KvEngine.ServesAnswers | kv_core/kvstore.cpp:65-162 | over every run the replies a client reads as C strings and the bindings are those of the map-based interpreter, and messages without words leave the buffer alone |
| KvEngine.StartedBindings | kv_core/kvstore.cpp:164-168 | the engine starts with no bindings, or with the merge of those the file holds |
| KvEngine.Engine.Init | kv_core/kvstore.cpp:164-168 | the engine starts with the merge of the file into an empty table |
| KvEngine.Engine.Exit | kv_core/kvstore.cpp:169-173 | the file holds what the table held |
| KvEngine.SavedFileIsOk | kv_core/kvstore.cpp:164-173 | what exit saves is acceptable to init, which then starts with the reloaded table |
| KvEngine.ServesKeeps | kv_core/kvstore.cpp:155-173 | whatever requests the engine has served, its bindings can be written as C strings and hashed again, as the previous row needs |
| KvEngine.RestartedEngineReplies | kv_core/kvstore.cpp:155-173 | from any acceptable file and over any requests, if every binding is storable then: the file that exit saves is accepted by init, and the reply buffers afterwards are those without the restart |
| KvEngine.Serve | kv_core/kvstore.cpp:155-162 | a run of messages, each in a buffer of its own, leaves the table and the reply buffers that the value-level run gives, and so the replies of the map-based interpreter |
| KvEngine.ServeAcrossRestart | Webserver.h:55-65 | two engines in a row, with exit, the file and init between them, answer as one engine that never stopped, and as the map-based interpreter started from the file's bindings |
| ThreadClockr.ThreadClockr.AddTimer | timer/timer.cpp:25-34 | pushes one entry and makes its version current |
| ThreadClockr.ThreadClockr.BumpVersion | timer/timer.cpp:48-51 | the locked part of a renewal counts the version up, from 0 if the id is new |
| ThreadClockr.ThreadClockr.ModTimer | timer/timer.cpp:46-56 | undisturbed, the three parts bump the version, read it and push an entry of that version |
| ThreadClockr.ThreadClockr.DelTimer | timer/timer.cpp:141-150 | a known id gets version 0; an unknown one changes nothing |
| ThreadClockr.ThreadClockr.DelAllTimer | timer/timer.cpp:37-43 | the queue is emptied, the versions stay |
| ThreadClockr.ThreadClockr.SurfaceOne | timer/timer.cpp:66-83 | the branch taken for one due entry: skip, erase, or collect |
| ThreadClockr.ThreadClockr.HandleTimer | timer/timer.cpp:59-86 | the loop takes exactly the due entries, in order of their deadlines, and collects the callbacks that surfacing them in that order gives |
| TimerModel.DrainIsFilter | timer/timer.cpp:65-85 | with no version 0 among the entries the version-0 branch never runs, no map entry is erased, and exactly the live entries fire |
| TimerModel.AddKeepsStep | timer/timer.cpp:25-34 | adding with a version that is neither 0 nor pending for the id keeps the queue in step with a map id to deadline |
| TimerModel.AddFiresExactly | timer/timer.cpp:25-86 | after an add every pass, from any time on, fires what the map would if and only if the version is safe: for versions other than 0, no pending entry of the id with a callback has it; for version 0, the callback is empty and no entry of the id that could fire is due at or after it |
| TimerModel.ModFiresExactly | timer/timer.cpp:46-56 | the same for an undisturbed renewal and the id's next version |
| TimerModel.BumpFiresExactly | timer/timer.cpp:48-51 | after the locked part of a renewal every pass is silent about the id and else as before, if and only if no pending entry with a callback has the next version |
| TimerModel.HandleKeepsStep | timer/timer.cpp:59-86 | a pass collects exactly the callbacks the map would fire, once each, in order of deadlines |
| TimerModel.QueueRefinesBook | timer/timer.cpp:25-91 | every run of add, del, del_all, handle and the parts of any number of renewals, interleaved at will, that meets the guards collects what the map would fire |
| TimerModel.RenewalIsMod | timer/timer.cpp:46-56 | the parts of a renewal one after the other are the whole renewal |
| TimerModel.DisciplineIsGuardedRun | timer/timer.cpp:25-86 | adding above all pending versions, and renewing a deleted id only once drained, meets the guards over every run |
| TimerModel.DisciplinedRunsFollowBook | timer/timer.cpp:25-91 | so every disciplined run collects what the map would fire |
| TimerModel.RenewalIsDisciplined | timer/timer.cpp:46-56 | a renewal begun with discipline also pushes with discipline, whatever else happens between its parts, unless the id is deleted before its read or added to meanwhile |
| TimerModel.ReusedVersionMisfires | timer/timer.cpp:65-84 | with a reused pending version no late enough pass fires what the map would |
| TimerModel.ZeroMisfires | timer/timer.cpp:65-84 | with an unsafe version 0 some late pass, in an order the queue allows, does not fire what the map would |
| TimerModel.DeletedNeverFires | timer/timer.cpp:141-150 | after `del_timer`, also in the middle of a renewal, no pass collects a callback of the id until it is added, pushed or bumped, over all runs that queue no version 0, and no map entry is erased |
| TimerModel.DeletedFiresExactly | timer/timer.cpp:65-84 | over any run that leaves a deleted id alone, some pass fires it if and only if an entry of version 0 surfaces, in that pass or an earlier one, before one of its stale entries; once it is erased, if and only if one of them surfaces at all |
| TimerModel.ReadSilencesErased | timer/timer.cpp:52 | the unlocked read inserts version 0 for an erased id, which makes its stale entries stale again |
| IdleProtocol.DeletedCanFire | timer/timer.cpp:46-84 | a run of the server from its start whose last pass fires a timer that was deleted when its connection was closed |
| IdleProtocol.StepKeepsInv | Webserver.cpp:94-162 | every step of the event thread or the timer thread keeps every open connection covered |
| IdleProtocol.OpenConnectionsCovered | Webserver.cpp:94-162 | over every interleaving, each open connection has a current queued entry due no earlier than its last activity plus the timeout, or a collected callback that will close it, or an add or renewal in progress |
| IdleProtocol.CollectedCallbackCloses | Webserver.cpp:147-162 | such a collected callback has closed its connection when the collected callbacks have run, whatever both threads do in between, unless data arrives on it first or its fd is opened anew |
| IdleProtocol.ActiveStaysOpen | Webserver.cpp:147-162 | over any run of both threads: for the timeout after an accept, a read or a finished request only the peer's hang-up or failure ends a connection, unless a callback had already found it idle |
| IdleProtocol.ActivityComesTooLate | Webserver.cpp:155-158 | in that case it is closed whatever arrives meanwhile |
| IdleProtocol.QuietKeepsTime | Webserver.cpp:20-60 | nothing else opens a connection or moves the time of its last activity |
| IdleProtocol.ClosedStaysClosed | Webserver.cpp:20-33 | a hang-up or a failed read closes the connection until its fd is handed out again |
| IdleProtocol.ClosedFallsSilent | Webserver.cpp:134-146 | closing silences the timer: no later pass collects its callback before the fd is used again, unless version 0 is queued for it |
| IdleProtocol.PassClosesIdle | timer/timer.cpp:59-91 | after a pass, a connection the event thread left alone meanwhile is open only if it was renewed past the time of the pass; other connections may be served during it |
| IdleProtocol.PushesInOrder | timer/timer.cpp:25-34 | with one timeout and a clock that does not go back, no entry is pushed before one already queued |
| IdleProtocol.WaitsAreShortEnough | timer/timer.cpp:95-117 | when a timed wait ends on time, no queued entry has been due longer than the delay between computing and starting the wait |
| Webserver.Webserver.CloseConn | Webserver.cpp:134-146 | an open connection is removed and its timer deleted; otherwise nothing happens |
| Webserver.Webserver.OpenAreCovered | Webserver.cpp:90-162 | at every moment of the object's life no open connection is forgotten |
| Webserver.Webserver.ActiveIsOpen | Webserver.cpp:90-162 | at every moment a connection with recorded activity within the timeout is open, unless its peer ended it or a callback had found it idle before |
| Webserver.Webserver.EndedIsClosed | Webserver.cpp:94-116 | at every moment a connection whose peer hung up or failed is closed, unless its fd was handed out again |
| Webserver.Webserver.DealRead | Webserver.cpp:20-60 | with the timer thread running in between, reading adds exactly the event steps of a failed or a successful read: closed on failure, activity recorded on success |
| Webserver.Webserver.ModTimer | timer/timer.cpp:46-56 | bump, read and push are the renewal steps, with the timer thread running between them |
| Webserver.Webserver.TimerTask | Webserver.cpp:147-162 | with the event thread running in between, the callback checks for idleness and, exactly if it found it, closes the connection afterwards; no connection active within the timeout is closed but by its peer |
| Webserver.Webserver.Dispatch | Webserver.cpp:94-116 | each event is handled by the protocol steps of its case, in the order in which the cases are tested, among any steps of the timer thread: a failed connection is closed, an accepted or readable one has a timer due a timeout from then, a signal on the pipe sets the stop flag and nothing else does |
| Webserver.Webserver.DispatchBatch | Webserver.cpp:90-117 | a batch handles every event in order until a signal stops it, and stops for nothing else, among any steps of the timer thread |
| Webserver.Webserver.HandleTimer | timer/timer.cpp:59-91 | a whole pass among any steps of the event thread: connections left alone are open afterwards only if renewed past its time, those whose collected callback found them idle, with no activity since, are closed, and those active within the timeout are open unless their peers ended them |
| ThreadPool.AcceptedAreSubmitted | utils/threads_pool.h:33-39 | the tasks accepted over a run are those submitted before the pool was told to stop, in that order, as the steps alone say |
| ThreadPool.EveryRunAccounts | utils/threads_pool.cpp:18-34 | in every reachable state: with somebody asleep the queue is no longer than the notifications and checking workers to come; the tasks submitted in time are taken in that order, each in exactly one place; after the notify-all nobody sleeps; a worker leaves only after stop with an empty queue, which stays empty |
| ThreadPool.QuiescentIsDrained | utils/threads_pool.cpp:18-34 | no reachable state in which the pool has nothing left to do holds a queued task |
| ThreadPool.StepLowersMeasure | utils/threads_pool.cpp:54-65 | after stop every step of the pool lowers a measure |
| ThreadPool.StoppedRunsAreShort | utils/threads_pool.cpp:54-65 | so every run after stop is bounded by it |
| ThreadPool.StoppedGoesOn | utils/threads_pool.cpp:54-65 | until `shutdown` has returned, some step can be taken |
| ThreadPool.ReturnedMeansDone | utils/threads_pool.cpp:54-65 | when `shutdown` has returned, every task submitted in time has run exactly once and later submissions change nothing |
| ThreadPool.Pthreads.constructor | utils/threads_pool.cpp:13-16 | there is at least one worker: a count of 0 means 4 |
| ThreadPool.Pthreads.Enqueue | utils/threads_pool.h:33-40 | the locked region is the submission step: the task goes to the end of the queue exactly if the pool is not stopped |
| ThreadPool.Pthreads.WorkerTurn | utils/threads_pool.cpp:22-30 | the worker's locked region is the check step: sleep, leave, or take the first task |
| HttpParser.FrameIsStable | network/protocol_parser/protocol_parser.cpp:21-50 | once the head is there, appended bytes neither move its end nor create a length field before it |
| HttpParser.CompleteStaysComplete | network/protocol_parser/protocol_parser.cpp:17-51 | a buffer judged complete stays complete under every extension, for any length value |
| HttpParser.FramingIsExact | network/protocol_parser/protocol_parser.cpp:17-51 | every strict prefix of a message asks for more data and the whole is complete |
| HttpParser.DeclaredMessageIsExact | network/protocol_parser/protocol_parser.cpp:29-49 | so for a head whose first length field gives the body's length in decimal, with blanks around it (sections 6.2 and 6.3 of RFC 9112) |
| HttpParser.BareMessageIsExact | network/protocol_parser/protocol_parser.cpp:23-50 | and for a head without a length field and an empty body |
| HttpParser.StoulMeaning | network/protocol_parser/protocol_parser.cpp:42 | any length text is white space, at most one sign, digits and a rest, and is read accordingly; without digits, or with too large a number, it is unreadable |
| HttpParser.UnreadableLengthThrows | network/protocol_parser/protocol_parser.cpp:42 | an unreadable length in the head makes the check throw, whatever follows |
| HttpParser.RequestRoundTrip | network/protocol_parser/protocol_parser.cpp:64-116 | method, target and all bytes behind the head are read back from a request (section 3 of RFC 9112) |
| HttpParser.MethodMeaning | network/protocol_parser/protocol_parser.cpp:74-82 | of any bytes: the method ends at the first space, and is empty without one |
| HttpParser.UrlMeaning | network/protocol_parser/protocol_parser.cpp:85-97 | of any bytes: the target lies between the first two spaces, and is empty without them |
| HttpParser.DataMeaning | network/protocol_parser/protocol_parser.cpp:64-71 | of any bytes: the data is what follows the first head, and missing without one |
| HttpParser.RenderedRequestArrives | network/protocol_parser/protocol_parser.cpp:17-116 | a request rendered with its length is recognised exactly when it has all arrived, and is then read back |
| HttpParser.ParserFactory.GetParser | network/protocol_parser/protocol_parser.cpp:126-145 | the loop chooses the parser of the longest registered prefix of at most 20 bytes, or none |
| ConnPool.ConnPool.constructor | utils/memory.h:35-51 | the loop threads all blocks onto the free list, in address order |
| ConnPool.ConnPool.Acquire | utils/memory.h:53-61 | takes the first free block, or nothing when there is none |
| ConnPool.ConnPool.AddMap | utils/memory.h:63-71 | binds an unbound id and records it in the block; a bound id keeps its block; other blocks are untouched |
| ConnPool.ConnPool.Get | utils/memory.h:73 | the block bound to the id, or nothing |
| ConnPool.ConnPool.Release | utils/memory.h:76-82 | the block returns to the front of the free list and its binding ends |
| ConnPool.RunKeepsPool | utils/memory.h:35-82 | over any run the free list is without repetition, and free and live blocks partition the arena |
| ConnPool.AcquireIsSafe | utils/memory.h:53-61 | after any run `acquire` hands out no live block and fails exactly when all blocks are live |
| ConnPool.LookupIsSafe | utils/memory.h:63-82 | after any run every id found leads to a live block, and different ids to different blocks |
| ConnPool.BoundIsFound | utils/memory.h:63-73 | over any run, a block bound to a free id is found under it until the block is released |
| ConnPool.BindKeepsFirst | utils/memory.h:69 | binding an id that is bound changes nothing |
| ConnPool.ReleasedIsNotFound | utils/memory.h:73-82 | over any run, once its block is released an id is not found until it is bound again |
| ConnPool.ReleasedIsNext | utils/memory.h:53-82 | the block released last is acquired first, which restores the free list |
| ConnPool.FreshInOrder | utils/memory.h:35-61 | a fresh pool hands out its blocks in address order |

## Left out

- Sockets, epoll, signals, the self-pipe and sending responses: only their outcomes enter, as steps or as arbitrary values.
- Logging and the database pool: formatting, file rotation and a wrapped library.
- `Router` and the HTTP tasks: map lookup and string building.
- `ring_buffer`: reads go to the start of the buffer whatever its indices say.
- `waitAll` and `pendingTasks`: they look at the queue length under another mutex.
- Allocation failure, printed output, requests with too few tokens, and the read past the command table when an unknown command is printed (`kv_core/kvstore.cpp:147`).
- Frees of nodes' strings: a string that `kvs_hash_modify` or a delete drops is merely no longer referred to. `strcmp`, `strlen` and `strcpy` have their specified behaviour.
- Data races: each locked region, the unlocked version read and each callback check are single atomic steps.
- With the thread pool switched on, what a worker does with a connection after `deal_Read` has queued it.
- The stop flag and destructor of the timer thread: the interleavings end where shutdown begins.
- `int` overflow of version numbers and of the binding count.
- The heap inside the priority queue: its top is some entry with a smallest deadline.
