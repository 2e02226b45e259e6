# Verification of the sync service's cores and of the write server

A Dafny model, with proofs, of four parts of the repository:

- **Thread pool** (`mp5/src/thread_pool.c`). `TaskPool.dfy` has the ring buffer, as a class over an
  array and as functions on its value. `PoolProtocol.dfy` interleaves those functions: N workers,
  any number of callers of `threadpool_add` and `threadpool_destroy`, one mutex with an explicit
  owner, one condition variable. `PoolRuns.dfy` states what holds over whole runs.
- **Tree pull** (`mp5/src/send.c`, `csiebox_server.c`, `csiebox_client.c`). `PullMessages.dfy` has
  the framing of files, `PullServer.dfy` what the server sends and where it waits, `PullClient.dfy`
  the client's loop, `PullRoundTrip.dfy` the proof that the client ends with the server's tree,
  `PullProtocol.dfy` both processes at once over two FIFO channels.
- **Port registry and hash table** (`mp5/src/port_register.c`, `hash.c`). `Chains.dfy` has the table
  as a value and its meaning as a finite map, `HashTable.dfy` the linked nodes, `NameHash.dfy` the
  32-bit key, `PortRegistry.dfy` the registry as a value with its invariant, `PortRegister.dfy` the
  registry in place, with the sweep that deletes nodes of the chain it walks.
- **Write server** (`sp_even_hw1.c` without `READ_SERVER`). `UploadHeader.dfy` has the header and how
  it depends on how a stream is split into reads and on what is left in memory, `WriteServer.dfy` the
  event loop, `WriteRuns.dfy` what holds after every sequence of events.

`Runs.dfy`, `Tally.dfy`, `Modulo.dfy`, `Options.dfy` and `ByteStrings.dfy` are shared helpers.
Code that works in place is modelled in place: each method is proved to change the fields as a
function on their value says, and the properties are proved about those functions and about all
runs built from them. `dafny verify dfyconfig.toml` checks everything.

## Where the code falls short

The code is modelled as written. In seven places it does not do what it is evidently meant to do;
each has a lemma that says exactly when it does.

- `hash.c:90` sets the bucket to NULL when the first node of a chain is deleted, so the rest of the
  chain is lost: `Chains.DeleteEffect`, `Chains.DeleteIsRemoveIff`, `Chains.DeleteLosesTheRest`.
- For the same reason a sweep loses bookings whose port is still in use, if the first record of
  their bucket is swept: `PortRegistry.SurvivesSweepIff`, `PortRegistry.SweepMeetsIntentIff`,
  `PortRegistry.SweepLosesABooking`.
- A second `threadpool_destroy` leaves without unlocking the mutex (`thread_pool.c:213-216`), and no
  worker that is still there can leave any more: `PoolRuns.DoomedIffDestroyedTwice`,
  `PoolRuns.CompletesIffNotDestroyedTwice`, `PoolRuns.SecondDestroyStrands`.
- A server whose home directory is empty sends nothing at login, not even the closing header, and an
  empty client waits for ever: `PullProtocol.PullCompletesIff`, `PullProtocol.EmptyHomeWaits`.
- The write server looks for CR LF before LF in the first read, so an upload with an LF header
  depends on where the first read ends if a CR LF comes later in the stream:
  `UploadHeader.ReceivedIsParseIff`, `UploadHeader.SplitCanMatter`, `WriteRuns.FinishedUploadIff`.
- `handle_read` neither clears nor terminates its buffer (`sp_even_hw1.c:274-286`), so the search for
  CR LF in a read with an LF header goes on in what is left in memory. If there is one the length of
  the content becomes negative, and is copied as a `size_t`: `UploadHeader.LeftIrrelevantIff`,
  `UploadHeader.StreamDecidesIff`, `WriteRuns.EndsIff`, `WriteRuns.OldHeaderStopsServer`.
- A connection that ends before it has sent its header, while another has a file name, makes the
  write server compare with a null file name (`sp_even_hw1.c:183-187`), which ends the process:
  `WriteRuns.EndsIff`, `WriteRuns.EarlyEndStopsServer`.

## Assumptions

- A signal wakes at least one waiting thread, a thread may wake for no reason, and tasks end.
  Mutex and condition variable operations and thread creation succeed. Nobody uses a pool after its
  `threadpool_destroy` has returned.
- The channels of the pull are reliable and in order, and one `send_message` is one message. The
  server's directory does not change meanwhile; it holds directories and singly linked regular files.
  `readdir` gives the two entries `.` and `..` in every directory.
- `char` is signed, overflow wraps in two's complement, memory allocation succeeds. The ports that
  cannot be bound do not change during one sweep.
- One write server runs; different file names are different files; a `write` writes everything.
  What is left in memory behind the bytes of a read is arbitrary; copying a negative number of bytes,
  and comparing with a null file name, end the process.

## Model

| member | source | states |
|---|---|---|
| `TaskPool.AddIsEnqueue` | `mp5/src/thread_pool.c:164-190` | on a well-formed ring an add succeeds exactly if the queue is not full and the pool is open, and then appends to what the ring reads from `head`; otherwise nothing changes |
| `TaskPool.TakeIsDequeue` | `mp5/src/thread_pool.c:288-291` | taking returns the oldest pending task and leaves the rest in order, whatever the position of `head` in the ring |
| `TaskPool.ReadRingAppend` | `mp5/src/thread_pool.c:180-183` | writing the slot `(head + count) % size` appends to the ring's contents for every size, with and without wrap-around |
| `TaskPool.ThreadPool.Create` | `mp5/src/thread_pool.c:96-140` | refuses exactly the sizes out of range, otherwise gives an open pool with an empty queue and all threads started |
| `TaskPool.ThreadPool.Add` | `mp5/src/thread_pool.c:149-197` | the array in place: the new fields and the code returned, the queue grown by exactly the accepted task, never beyond its size |
| `TaskPool.ThreadPool.Grab` | `mp5/src/thread_pool.c:273-298` | a worker waits exactly on an empty queue of an open pool, quits exactly on immediate shutdown or on graceful shutdown with nothing pending, and else takes the oldest task |
| `TaskPool.ThreadPool.BeginDestroy` | `mp5/src/thread_pool.c:211-219` | the first caller sets the mode by the lowest flag bit, a later one changes nothing and is told so |
| `PoolProtocol.InitInv` | `mp5/src/thread_pool.c:111-138` | the state after creation satisfies the invariant |
| `PoolProtocol.StepKeepsInv` | `mp5/src/thread_pool.c:149-305` | every step of every thread keeps the invariant: FIFO contents, tasks in hand, lock ownership, shutdown consistency, nobody forgotten |
| `PoolProtocol.FifoKept` | `mp5/src/thread_pool.c:164-190` | every step keeps: accepted tasks are those begun, in order, followed by those in the ring |
| `PoolProtocol.HandsKept` | `mp5/src/thread_pool.c:287-297` | every step keeps: each begun task is finished or in the hand of a worker, with multiplicity |
| `PoolProtocol.LockKept` | `mp5/src/thread_pool.c:273-302` | every step keeps: a worker is in its critical section exactly while it owns the mutex |
| `PoolProtocol.CountsKept` | `mp5/src/thread_pool.c:186-226` | every step keeps the count of started workers, the absence of sleepers after the broadcast, and that while one sleeps the awake idle workers can absorb the queue |
| `PoolRuns.RunInv` | `mp5/src/thread_pool.c:149-305` | the invariant holds in every state of every run, the number of workers never changes |
| `PoolRuns.RingIsFifo` | `mp5/src/thread_pool.c:164-183` | in every reachable state `tail == (head + count) % size`, accepted tasks are those started followed by the ring's contents, and accepted = finished + in hand + pending as multisets |
| `PoolRuns.NoLostWakeup` | `mp5/src/thread_pool.c:167-189` | in every reachable state outside add and destroy, if a worker sleeps then at least `count` workers are awake and not running a task |
| `PoolRuns.AfterTheFlag` | `mp5/src/thread_pool.c:173-177` | from the flag on nothing is accepted, the mode stays, and under immediate shutdown nothing is started, in all runs |
| `PoolRuns.ModeIsThatOfFirstDestroy` | `mp5/src/thread_pool.c:211-219` | in every run the shutdown mode is graceful if and only if the flags of the first destroy have the lowest bit set, and immediate otherwise |
| `PoolRuns.GracefulIsExactlyOnce` | `mp5/src/thread_pool.c:271-305` | when all workers have left a pool whose first destroy had the graceful flag, the queue is empty and the finished tasks are, as a multiset, those for which add returned 0; they were begun in that order |
| `PoolRuns.ImmediateConserves` | `mp5/src/thread_pool.c:281-297` | when all workers have left a pool whose first destroy had not that flag, what finished is what had begun when the flag was set, and the rest of the accepted tasks is a suffix that never starts |
| `PoolRuns.AnswersAreDue` | `mp5/src/thread_pool.c:156-196` | in every run each add is answered for its own task: queue full (-3) if there was no room, else shutdown (-4) if the pool was shutting down, else 0 |
| `PoolRuns.OneTaskRuns` | `mp5/src/thread_pool.c:149-298` | from a new pool with a worker there is a run in which one task is added, taken and finished |
| `PoolRuns.FreeSeesAllExited` | `mp5/src/thread_pool.c:243-247` | in every state with the invariant `started` is positive exactly while some worker has not left, so `threadpool_free` then does not refuse |
| `PoolRuns.LastToLeave` | `mp5/src/thread_pool.c:300-302` | a worker that leaves makes `threadpool_free` possible exactly if no other worker is left, and before that step it was refused |
| `PoolRuns.WorkerStepsShrink` | `mp5/src/thread_pool.c:271-305` | after the flag a measure falls on every worker step and rises on no step |
| `PoolRuns.WorkerStepsBounded` | `mp5/src/thread_pool.c:271-305` | after the flag the workers take at most as many steps as the measure, whatever the callers do |
| `PoolRuns.Progress` | `mp5/src/thread_pool.c:211-234` | after the flag, until all workers have left, a worker or the holder of the lock can move, unless the pool is destroyed a second time |
| `PoolRuns.ShutdownRunsComplete` | `mp5/src/thread_pool.c:211-247` | every run with one call of destroy that can go on only by new calls has every worker gone, the lock free, and `threadpool_free` not refusing |
| `PoolRuns.DoomedStep` | `mp5/src/thread_pool.c:213-216` | no step gives a leaked lock back or lets a worker leave |
| `PoolRuns.DoomedStaysDoomed` | `mp5/src/thread_pool.c:213-216` | after the lock is leaked no worker leaves any more, in any run |
| `PoolRuns.CompletesIffNotDestroyedTwice` | `mp5/src/thread_pool.c:211-241` | in every run, after the flag, the workers can all leave if and only if they have left or destroy was called at most once |
| `PoolRuns.DoomedIffDestroyedTwice` | `mp5/src/thread_pool.c:207-216` | in every run the lock is leaked, or held by a destroy about to leak it, if and only if destroy was called at least twice |
| `PoolRuns.SecondDestroyStrands` | `mp5/src/thread_pool.c:213-216` | two calls of destroy on a new pool: the run that leaks the lock, after which no run lets the workers leave |
| `PullMessages.SendFile` | `mp5/src/send.c:75-84` | the do-while loop emits the frames of the file for every content and chunk size |
| `PullMessages.FrameLengths` | `mp5/src/send.c:75-84` | there are `len / N + 1` frames, all but the last of length N, the last of length `len % N` |
| `PullServer.SplitJoin` | `mp5/src/csiebox_server.c:566-567` | a path built with `/` is nonempty and splits into the same components |
| `PullServer.TraverseFile` | `mp5/src/csiebox_server.c:559-604` | the recursive walk over `readdir` does the acts of the pre-order script, each directory before its contents; which entries it skips is in `PullRoundTrip.PulledTree` |
| `PullServer.Login` | `mp5/src/csiebox_server.c:344-360` | a home directory with some entry is sent and closed with status OK, one without is not answered at all |
| `PullClient.PullState.CreateEntry` | `mp5/src/csiebox_client.c:175-210` | `mkdir` and `fopen` on the received path, with their refusals |
| `PullClient.PullState.ReceiveEntry` | `mp5/src/csiebox_client.c:159-226` | one round of the loop: meta, acknowledgement, path, entry, and the chunks of a file |
| `PullClient.PullState.ReceiveFile` | `mp5/src/csiebox_client.c:211-219` | the chunk loop takes exactly the frames up to the first short one |
| `PullClient.PullState.PullLoop` | `mp5/src/csiebox_client.c:132-227` | on every sequence of messages the loop reaches the state and sends the acknowledgements of the message-by-message automaton |
| `PullClient.AckEchoesHeader` | `mp5/src/csiebox_client.c:159-164` | a meta is acknowledged with the operation of the header before it and status OK |
| `PullClient.RefusedIff` | `mp5/src/csiebox_client.c:175-210` | when `mkdir` and the open for writing are refused, and what they leave otherwise |
| `PullClient.FeedKeepsSound` | `mp5/src/csiebox_client.c:132-227` | whatever messages come, everything the client creates lies in a directory it has, and no file becomes a directory or the other way round |
| `PullRoundTrip.FeedChunks` | `mp5/src/csiebox_client.c:211-219` | for every content and chunk size the receiver of the frames appends exactly the content and is back at the next header, also when the length is a multiple of N |
| `PullRoundTrip.FeedAnnounce` | `mp5/src/send.c:34-51` | header, meta and path bring the client to creating the entry at that path |
| `PullRoundTrip.FeedFile` | `mp5/src/csiebox_client.c:194-224` | the messages of a file at a new path give the client exactly that file |
| `PullRoundTrip.FeedMkdir` | `mp5/src/csiebox_client.c:175-179` | the messages of a directory at a new path give the client that directory, before anything inside it |
| `PullRoundTrip.FeedEntry` | `mp5/src/csiebox_server.c:564-601` | the messages of one entry, whatever its depth, give the client its visible part and nothing else |
| `PullRoundTrip.FeedScript` | `mp5/src/csiebox_server.c:564-601` | for every directory, every `mkdir` and open finds its parent and nothing in its place, and the client gains the directory's visible contents |
| `PullRoundTrip.ClientRebuildsTree` | `mp5/src/csiebox_client.c:132-227` | for every nonempty home directory the client that started empty ends with exactly the visible paths, kinds and bytes, and no creation was refused |
| `PullRoundTrip.FlattenIsLookup` | `mp5/src/csiebox_server.c:564-601` | a path is in that result, with that kind and content, if and only if walking down the directory finds it and no component starts with a dot |
| `PullRoundTrip.PulledTree` | `mp5/src/csiebox_server.c:564-566` | the client ends with exactly the paths of the home directory without a component that starts with '.', of the kind and content they have there |
| `PullProtocol.LoginBalanced` | `mp5/src/csiebox_server.c:352-358` | every meta the server sends is followed by exactly one wait for an acknowledgement |
| `PullProtocol.StartInv` | `mp5/src/csiebox_server.c:352-358` | the invariant of the two processes holds when the login has been read |
| `PullProtocol.SendKeepsInv` | `mp5/src/send.c:37-51` | sending keeps it |
| `PullProtocol.AcknowledgeKeepsInv` | `mp5/src/send.c:40-47` | taking an acknowledgement keeps it |
| `PullProtocol.ReceiveKeepsInv` | `mp5/src/csiebox_client.c:134-219` | receiving keeps it |
| `PullProtocol.NotBrokenNext` | `mp5/src/csiebox_client.c:134-219` | under the invariant the next message is of the kind and length the client waits for |
| `PullProtocol.ClientInPlace` | `mp5/src/csiebox_client.c:134-135` | under the invariant the client does not leave its loop while something is still to come |
| `PullProtocol.RunInv` | `mp5/src/send.c:34-51` | in every state of every run: consumed, in transit and still to send make up the script; between meta and its acknowledgement exactly one of the two is on its way |
| `PullProtocol.HandshakeAligned` | `mp5/src/csiebox_client.c:134-171` | in every reachable state of server and client every message the client took was of the kind and length it waited for |
| `PullProtocol.SomeSideCanMove` | `mp5/src/send.c:40-47` | with channels of any capacity of at least one message each way, some side can move if and only if the server has something to do or the client something to receive: no deadlock before that |
| `PullProtocol.PullRunsEnd` | `mp5/src/csiebox_client.c:134-227` | every step is progress, so no run is longer than the work at its start |
| `PullProtocol.PullCompletesIff` | `mp5/src/csiebox_server.c:352-360` | where a run cannot go on, with channels of any capacity, all channels are empty, and the client holds the server's visible tree if and only if the home directory has an entry; otherwise it still waits for its first header |
| `PullProtocol.PullEndsWithTree` | `mp5/src/csiebox_client.c:132-228` | the same for every run of server and client that cannot go on |
| `PullProtocol.BusyIsRetried` | `mp5/src/send.c:34-48` | a busy acknowledgement makes the server send the same meta once more and wait again |
| `PullProtocol.EmptyHomeWaits` | `mp5/src/csiebox_server.c:352-360` | with an empty home directory the pull is stuck from the start, the client waiting for a header |
| `Chains.PositionIsModulo` | `mp5/src/hash.c:20-23` | the bucket of a code, also a negative one, is its residue modulo the table size |
| `Chains.EntryIsInMap` | `mp5/src/hash.c:55-72` | every stored entry, in whatever bucket and at whatever place, is in the finite map with its value, and get returns that value |
| `Chains.GetIsLookup` | `mp5/src/hash.c:55-72` | get gives for every code the answer of the finite map, which is made of the stored entries and not of what a search finds |
| `Chains.PutIsInsert` | `mp5/src/hash.c:19-53` | put adds the code exactly if the map lacks it, changes nothing else, and keeps every entry in its bucket without duplicates |
| `Chains.DeleteEffect` | `mp5/src/hash.c:74-99` | deletion removes only the code if its node has a predecessor, all codes of the bucket if it is the first, nothing if it is absent, and keeps the table well formed |
| `Chains.DeleteIsRemoveIff` | `mp5/src/hash.c:87-91` | exactly the code is removed if and only if it is absent, has a predecessor or is alone in its bucket |
| `Chains.DeleteLosesTheRest` | `mp5/src/hash.c:87-91` | a table of two entries in one bucket where deleting the first loses the second |
| `HashTable.Hash.Init` | `mp5/src/hash.c:6-17` | initialises exactly if the size is positive and the table unused, with empty buckets |
| `HashTable.Hash.Get` | `mp5/src/hash.c:55-72` | the pointer walk finds what the chains hold |
| `HashTable.Hash.Put` | `mp5/src/hash.c:19-53` | on linked nodes: the new node hangs behind the last of its bucket exactly if the code is absent; chains stay acyclic and disjoint |
| `HashTable.Hash.Attach` | `mp5/src/hash.c:44-52` | the link written behind the last node, and the chains after it |
| `HashTable.Hash.Del` | `mp5/src/hash.c:74-99` | on linked nodes: the deletion as written, and at most the predecessor's link changes |
| `HashTable.Hash.Bypass` | `mp5/src/hash.c:87-91` | the link or bucket written; the pointers then run through the unlinked chain, and through the other chains as before |
| `HashTable.Hash.Detach` | `mp5/src/hash.c:87-91` | the chains after it, and no other link changed |
| `HashTable.Hash.Clean` | `mp5/src/hash.c:101-114` | every node of every bucket is freed, none twice |
| `HashTable.AllNodesDistinct` | `mp5/src/hash.c:101-114` | a walk over all buckets meets no node twice |
| `NameHash.GetHashCode` | `mp5/src/port_register.c:137-143` | the loop under wrap-around computes the code of the last four bytes |
| `NameHash.HashIsSuffix` | `mp5/src/port_register.c:137-143` | whatever precedes the last four bytes is shifted out, for every length |
| `NameHash.HashIsBigEndian` | `mp5/src/port_register.c:137-143` | the code is a signed 32-bit int, congruent modulo 2^32 to the last four signed bytes as a big-endian number |
| `NameHash.SameHashIffSameSuffix` | `mp5/src/port_register.c:137-143` | two names have one code if and only if their last four bytes, padded with zeros, are equal |
| `PortRegistry.StoreIsUpdate` | `mp5/src/port_register.c:112-122` | a booking maps the code to the new port, in its record or a new one, and leaves all other codes |
| `PortRegistry.FirstFree` | `mp5/src/port_register.c:147-153` | the lowest word that is 0, or none |
| `PortRegistry.KeepFinds` | `mp5/src/port_register.c:227-243` | filtering a chain keeps a record exactly if its port cannot be bound |
| `PortRegistry.KeepPlaces` | `mp5/src/port_register.c:227-243` | the kept records are records of the chain, in the chain's order, without duplicates |
| `PortRegistry.SurvivesSweepIff` | `mp5/src/port_register.c:225-245` | a record survives a sweep if and only if its port and the port of the first record of its bucket cannot be bound |
| `PortRegistry.SweepMeetsIntentIff` | `mp5/src/port_register.c:225-245` | a sweep removes exactly the records whose port can be bound if and only if in every bucket the first record's port cannot be bound or all can |
| `PortRegistry.SweepLosesABooking` | `mp5/src/port_register.c:225-245` | a new registry, two bookings whose codes share a bucket, and a sweep that loses the second although its port is in use |
| `PortRegistry.SweepDeletes` | `mp5/src/port_register.c:231-238` | deleting the record the walk stands on takes the bucket from the result of sweeping k records to that of sweeping k + 1, for each shape the bucket can have by then |
| `PortRegistry.BookKeepsInv` | `mp5/src/port_register.c:97-124` | a booking keeps ports in range, reserved and distinct, records the port it returns, and moves no other name |
| `PortRegistry.BookTakesLowest` | `mp5/src/port_register.c:98-122` | a booking, of a known name too, takes the lowest port of 2501..3012 whose word is 0 and sets that word only; if there is none it answers -1 and changes nothing |
| `PortRegistry.WordsTellBound` | `mp5/src/port_register.c:200-213` | after a check word i is 1 if port 2501 + i cannot be bound, else 0 |
| `PortRegistry.BookAfterSweep` | `mp5/src/port_register.c:145-154` | the first booking after a sweep takes the lowest port of 2501..3012 that can be bound, or answers -1 if there is none |
| `PortRegistry.GetPortIsLookup` | `mp5/src/port_register.c:126-135` | a request is answered with the port the finite map has for the code, with -1 exactly if it has none |
| `PortRegistry.SweepKeepsInv` | `mp5/src/port_register.c:218-246` | so does a sweep |
| `PortRegistry.AllocatorSound` | `mp5/src/port_register.c:36-95` | through any sequence of bookings, requests and sweeps, recorded ports lie in 2501..3012, are reserved, and differ for different codes |
| `PortRegistry.StartsEmpty` | `mp5/src/port_register.c:36-48` | a new registry has 100 empty buckets and 512 words that tell what was bound |
| `PortRegistry.RequestsFollowRun` | `mp5/src/port_register.c:97-246` | in every run a request is answered with the port of the last granted booking of a name with that suffix, unless a sweep since then took it or the first record of its bucket, else with -1 |
| `PortRegistry.BookingStands` | `mp5/src/port_register.c:97-135` | after a successful booking every name with the same last four bytes is answered with that port until a sweep or a successful booking with that suffix |
| `PortRegister.PortRegister.BookPort` | `mp5/src/port_register.c:97-124` | in place, records and reserve words change as the booking on values says; the port is the lowest whose word was 0, or -1 exactly if none was |
| `PortRegister.Bookings.Find` | `mp5/src/port_register.c:100` | the record of a code is the one made for it, with the port the table stands for |
| `PortRegister.Bookings.Add` | `mp5/src/port_register.c:113-119` | a new record with the port is stored under the code of its name, nothing else changes |
| `PortRegister.Bookings.Move` | `mp5/src/port_register.c:121` | writing the port of one record changes the port of its code only |
| `PortRegister.Bookings.Remove` | `mp5/src/port_register.c:236` | a deletion changes no record and at most the link of the predecessor |
| `PortRegister.PortRegister.GetPort` | `mp5/src/port_register.c:126-135` | in place, the recorded port or -1 |
| `PortRegister.PortRegister.GetNextPort` | `mp5/src/port_register.c:145-154` | the first word that is 0 is reserved, or none is and -1 is returned |
| `PortRegister.PortRegister.CheckPortReserve` | `mp5/src/port_register.c:195-216` | afterwards a word is 1 exactly if its port cannot be bound |
| `PortRegister.PortRegister.SweepBucket` | `mp5/src/port_register.c:226-243` | the walk that deletes the node it stands on visits exactly the nodes the bucket had, in link order, and ends with the swept bucket, other buckets unchanged |
| `PortRegister.PortRegister.SweepNode` | `mp5/src/port_register.c:227-242` | one round of the walk: from the k-th node of the old chain to the k + 1-st, whether the node is removed or not |
| `PortRegister.PortRegister.RemoveNode` | `mp5/src/port_register.c:234-238` | the deletion leaves all links the walk has still to follow |
| `PortRegister.PortRegister.CleanPortReserve` | `mp5/src/port_register.c:218-246` | the whole sweep in place; it visits every node of every bucket, none twice |
| `UploadHeader.Strstr` | `sp_even_hw1.c:282-286` | the first occurrence of a pattern, or none |
| `UploadHeader.ParsesInIff` | `sp_even_hw1.c:281-299` | a first read gives an upload if and only if, before any NUL, it has a line feed, and a CR LF unless none is left in memory behind it; then it is the upload of the bytes read, else the process ends |
| `UploadHeader.LeftIrrelevantIff` | `sp_even_hw1.c:274-286` | a read with a line feed is parsed alike whatever is left in memory behind it if and only if it has a CR LF or a NUL |
| `UploadHeader.LeftCanMatter` | `sp_even_hw1.c:274-300` | a read with an LF header, put into the buffer over an earlier one with a CR LF header, is not parsed although it is whole |
| `UploadHeader.ReceivedMore` | `sp_even_hw1.c:301-304` | each further read is content only |
| `UploadHeader.SameHeader` | `sp_even_hw1.c:282-300` | with the same kind of line end in the first read as in the stream, the name is the same and the content begins the same |
| `UploadHeader.OtherHeader` | `sp_even_hw1.c:282-291` | with an LF header and a later CR LF in the stream, the name is shorter than that of the stream read at once |
| `UploadHeader.ReceivedIsParseIff` | `sp_even_hw1.c:281-304` | the header of the first read and that of the whole stream give one upload if and only if the first read has a line feed whenever the stream has one, and a CR LF whenever the stream has one |
| `UploadHeader.SplitIrrelevantIff` | `sp_even_hw1.c:281-304` | for given bytes left in memory, what comes of the reads is what the stream parses to if and only if both conditions hold and no CR LF follows an LF header in what is left |
| `UploadHeader.StreamDecidesIff` | `sp_even_hw1.c:274-304` | what comes of a stream depends on neither the split nor the bytes left in memory if and only if, when it has a line feed, its first read has a CR LF or a NUL |
| `UploadHeader.SplitCanMatter` | `sp_even_hw1.c:282-291` | one stream that gives two uploads, depending on how it is split |
| `WriteServer.Server.HandleRead` | `sp_even_hw1.c:272-307` | in place, for any bytes left in the buffer: the file name and content are set from a first read, the content alone from a later one, or the process ends |
| `WriteServer.Server.AcceptConnection` | `sp_even_hw1.c:116-117` | a new descriptor becomes active; nobody is answered and no file changes |
| `WriteServer.Server.FreeRequest` | `sp_even_hw1.c:235-237` | a connection is closed and its request cleared, its entry in `fd_table` is not |
| `WriteServer.Server.Pick` | `sp_even_hw1.c:122-130` | the lowest ready descriptor |
| `WriteServer.Server.SameName` | `sp_even_hw1.c:183-189` | the loop finds whether another active connection has the same name |
| `WriteServer.Server.OpenFile` | `sp_even_hw1.c:199-219` | in place: the file is opened unless it is, truncated, locked and the connection answered, or refused |
| `WriteServer.Server.ServeOnce` | `sp_even_hw1.c:176-222` | the body of the do-while loop in place, with every exit from it |
| `WriteServer.Server.ServeConnection` | `sp_even_hw1.c:176-222` | the do-while loop serves reads until the upload ends or none is waiting |
| `WriteServer.Server.Iterate` | `sp_even_hw1.c:99-240` | one iteration of the outer loop: a new connection, then the first ready descriptor |
| `WriteRuns.FirstRead` | `sp_even_hw1.c:182-221` | a first read that the process survives is accepted exactly if no other active connection has its name and open and lock succeed; name and content are those of the bytes read; a rejection for the name leaves all files unchanged |
| `WriteRuns.LaterRead` | `sp_even_hw1.c:199-221` | a later read extends the connection's own file at its end and changes no other, and is not rejected |
| `WriteRuns.LastRead` | `sp_even_hw1.c:194-239` | the end of a connection changes no file and frees its name |
| `WriteRuns.EndsIff` | `sp_even_hw1.c:183-192` | an event ends the process if and only if it is a first read without a line feed, a first read without CR LF where one is left behind it in memory, or the end of a connection without a header while another has a name |
| `WriteRuns.RunsOnIff` | `sp_even_hw1.c:99-240` | after any sequence of events the process runs if and only if none of them was such an event where it happened |
| `WriteRuns.EarlyEndStopsServer` | `sp_even_hw1.c:183-187` | one upload under way, and a second connection that ends before its header, end the process |
| `WriteRuns.OldHeaderStopsServer` | `sp_even_hw1.c:274-300` | one upload under way, and a second with a whole LF header read over the first one's CR LF header, end the process |
| `WriteRuns.StepKeepsInv` | `sp_even_hw1.c:99-240` | every event keeps: names pairwise different, each named connection owns its file, which holds its content, with its offset at the end |
| `WriteRuns.Reachable` | `sp_even_hw1.c:99-240` | so this holds after any sequence of events, for what each connection has sent since it connected |
| `WriteRuns.ExclusiveWriter` | `sp_even_hw1.c:183-193` | after any sequence of events the names of active connections are pairwise different |
| `WriteRuns.UploadedContent` | `sp_even_hw1.c:199-221` | after any sequence of events the file of an active upload is the concatenation of what its connection sent without the header |
| `WriteRuns.AcceptedStaysAccepted` | `sp_even_hw1.c:182-221` | after any sequence of events an accepted connection is not rejected on its next read, and its file grows by that read |
| `WriteRuns.AnsweredOnce` | `sp_even_hw1.c:105-219` | after any sequence of events a connection has been told nothing before its first read, exactly one ACCEPT while it is active and has a name, and never more than one thing |
| `WriteRuns.AnsweredOnLeaving` | `sp_even_hw1.c:190-218` | a connection that leaves without a name has been told exactly one REJECT, unless its read failed, and one that had a name nothing but ACCEPT |
| `WriteRuns.FinishedUploadIff` | `sp_even_hw1.c:220-239` | when an upload ends in a process that has survived, its file is the content the whole stream parses to if and only if a CR LF in the stream means one in the first read |
| `WriteRuns.OnlyTheOwnerWrites` | `sp_even_hw1.c:201-221` | in every reachable state only a read of a connection with its name changes a file |
| `WriteRuns.FileStands` | `sp_even_hw1.c:201-239` | so a file stands through any events none of which is such a read |
| `WriteRuns.AfterConcat` | `sp_even_hw1.c:99-240` | what iterations reach from a reachable state is reachable |

## Left out

- Failing pthread calls: the lock-failure codes, the failed `pthread_create` in `threadpool_create`, and what follows them.
- `pthread_join` in `threadpool_destroy` and the freeing of the pool's memory; that every worker has left when it returns is what the run theorems conclude from.
- The moments in which `threadpool_create` has started some threads only: runs begin when all exist.
- Hard links in the pull, in both directions: the search loops lack a `break`, so the announced header has no operation set.
- Symbolic links in the pull: the server reads the link relative to another directory.
- The push of `SYNC_META` from client to server, and pulls into a client directory that is not empty.
- File hashes, time stamps, path-length limits, locks on the files sent, and the fixed-size tables of the two programs.
- A client that is sent a message of another kind or length than it waits for is only called `Broken`; in the original it would misread the bytes. No run of the two programs gets there.
- PullClient.PullState.PullLoop: once `Broken`, the files and acknowledgements are not compared, because what the original does then depends on the raw bytes it misreads.
- HashTable.Hash.Put: that `malloc` can fail is not modelled, nor is the memory a deleted node gives back; `destroy_hash` does what `Clean` does and also frees the contents.
- The record of a booking keeps its name whole; the original copies it into a buffer without checking its end.
- PortRegister.PortRegister.SweepBucket: does not state the single reserve words it clears, because the check that ends every sweep overwrites all of them.
- Sockets, `select`, time-outs and the request protocol of the registry; every reply is 8 bytes, of which the text is the first 7.
- A read that fails before the write server looked the file up leaves its descriptor open in the original; descriptors are not counted here. Descriptor tables larger than the arrays and `fd_set`s of the write server.
- The `READ_SERVER` variant of `sp_even_hw1.c`, inotify handling, the web tool, scripts and test programs.
