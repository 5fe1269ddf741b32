# Verified model of deCONZ library components

This project models nine components of the deCONZ library in Dafny and proves what they
promise. Each component that works in place is a class (or methods over arrays) whose methods are proved
against functions on values; what the library promises is then proved about those functions, for every input
or every run.

| files | component |
|---|---|
| `FileSystem`, `BufferPoolSpec`, `BufferPool`, `BufferPoolRuns` | `buffer_pool.c`: a clock-replacement page cache over a file whose calls may fail |
| `TimerSpec`, `TimerQueue`, `TimerRuns`, `TimerTime` | `u_timer.c`: two linked lists of timers, one timeout a tick |
| `AtomSpec`, `AtomTable`, `NanBox`, `UString` | `atom_table.c`, `nanbox.c`, `ustring.cpp`: interned byte strings and string equality by words |
| `DownloaderSpec`, `DownloaderProtocol`, `DownloaderProgress`, `Downloader` | `n_downloader.c`: client, worker thread and callback pump |
| `Sha256Spec`, `Sha256`, `Sha256Example`, `Hmac` | `lonesha256.h`, `u_hmac_sha256.c` against FIPS 180-4 and RFC 2104 |
| `SStreamSpec`, `SStream` | `u_sstream.c`: number printing, number parsing, text search |
| `Endian`, `ZclSpec`, `Zcl` | `zcl.cpp`: attributes, commands and frames written to and read from a stream |
| `Utf8Spec`, `Utf8` | `util.cpp`, `zcl.cpp`: UTF-8 and Latin-1 character strings |
| `ArenaSpec`, `Arena` | `u_arena.c`, `u_memory.c`: an aligned bump allocator |

`Cyclic` holds arithmetic on rings of slots, `Wrappers` an option type. `dafny verify dfyconfig.toml` checks
everything.

How the model is set up:

- Files, sockets, `malloc`, message allocation and the network answers are parameters or nondeterministic
  contracts. `FsFile` counts faults, so a property "without an I/O failure" says that the count is unchanged.
- A client's write through a page pointer and its `BP_MarkPageDirty` are one step.
- Each mutex-protected section of the downloader is one atomic step; an interleaving is a sequence of steps.
- Histories the programs do not keep (timeouts sent, downloads delivered, timers started and stopped, nodes
  allocated and freed) are ghost fields or parts of the abstract state.
- `long` and `unsigned long` have 64 bits, `unsigned` 32 bits, and the host is little-endian.

Where the code and its comments or neighbours differ, the model follows the code:

- `U_HmacSha256` checks for `128 + msgsize` bytes of work space but uses `192 + msgsize` (u_hmac_sha256.c:224, 263);
  `Hmac.CheckTooWeak` gives the sizes between.
- The atom word has 16 length bits (deconz/nanbox.h:42), but the shift of a 32-bit length keeps eight of them.
  `UString.EqualIsByteEquality` and `UString.LongAtomEquality` give the exact consequence.
- `n_pages_in_file` is copied into 16 bits as the sentinel for "no dirty page" (buffer_pool.c:125), so from 65536
  pages on it is a real page id; `BufferPool.SentinelInput` shows what that does to a load, and
  `BufferPoolSpec.NoRoom` is the exact condition for either case.
- `BP_Truncate` leaves cached slots alone; `BufferPool.Truncate` states exactly when the pool stays consistent.
- Slot 0 of the atom table is preset to "NUL" wherever that hashes to, and is not counted; `AtomSpec.PresetLookup`
  says when it is found.
- Handles of downloads start at 1 again after a shutdown, also with downloads pending (`DownloaderProtocol.HandleReused`).
- The search for the end of a reply header stops four bytes early, so a header with nothing behind it is not
  recognised (n_downloader.c:234); `DownloaderSpec.CompleteReply` states exactly which complete replies succeed, and
  `DownloaderSpec.EmptyBodyReply` gives one that does not.
- Finished downloads are called back last in, first out (n_downloader.c:344-345), so one can wait while others finish;
  `DownloaderProgress.DonePosition` says where it stands.
- The comments of `U_sstream_put_long` exclude the least long; the code prints it correctly. On overflow
  `U_strtol` leaves `endp` at a digit, not behind the number.
- `U_utf8_codepoint` takes overlong forms, surrogates and wrong continuation bytes;
  `Utf8Spec.ReadCharacterIsEncoded` says exactly when what it reads is the encoded character, and
  `Utf8Spec.OverlongInput` gives a case where it is not.
- Each byte of a 24, 40, 48 or 56-bit signed integer attribute is an `int` when it is put into the stream
  (zcl.cpp:573), so four bytes are written for it, while the reader takes one; and the sign bit written is not read
  as one. `ZclSpec.OddIntegerReadsBack` says that no such attribute comes back, and which numbers still arrive.
- A timer that is only just due can be passed for ever by newer ones; `TimerRuns.BoundedExactlyWhenOverdue` gives the
  exact condition for a bound.
- `U_AllocArena` can return a block behind the end of the buffer for alignments above 16
  (`ArenaSpec.SlackTooSmallFor32`); `ArenaSpec.InsideIffStartInside` gives the exact condition.

## Model

| member | source | states |
|---|---|---|
| BufferPool.BufferPool.constructor | buffer_pool.c:55-84 | a new pool holds exactly the pages and the tail of the file |
| BufferPool.BufferPool.StatPageFile | buffer_pool.c:22-30 | the page count is that of the whole pages in the file |
| BufferPool.BufferPool.GetPagePtr | buffer_pool.c:4-20 | finds the first loaded slot of a page, or none |
| BufferPool.BufferPool.WriteDirtyPage | buffer_pool.c:32-53 | writing back never changes what the pool holds, also when the write is cut short; the page is clean afterwards exactly on success |
| BufferPool.BufferPool.Turn | buffer_pool.c:127-150 | one turn of the clock hand keeps contents and identity of all slots and stops only at a clean, unaccessed slot; otherwise it reports a dirty page if there is one |
| BufferPool.HandMeets | buffer_pool.c:127-129 | in one turn the hand meets every slot exactly once, also when the unsigned counter wraps, if the slot count divides its range or no wrap happens |
| BufferPool.WrapHarmless | buffer_pool.c:127-129 | wrapping the clock counter does not move the hand when the number of slots divides 2^32 |
| BufferPool.AfterWriteBack | buffer_pool.c:152-161 | each retry of `goto again` has one dirty slot less and the same prospects of success |
| BufferPool.BufferPool.TryFree | buffer_pool.c:124-164 | a retry strictly decreases the number of dirty slots; giving up without a fault leaves every slot clean and unaccessed |
| BufferPool.BufferPool.FreeSlot | buffer_pool.c:124-164 | the retry loop ends, and without a fault finds a slot exactly when there is room, for any number of pages |
| BufferPool.BufferPool.ReadInto | buffer_pool.c:166-182 | reusing a clean slot changes no page of the pool, whether or not the read succeeds |
| BufferPool.BufferPool.LoadPage | buffer_pool.c:105-183 | never changes the contents; success yields the page's current bytes; without a fault it succeeds exactly for an existing page that is loaded or for which there is room, for any number of pages |
| BufferPool.SentinelInput | buffer_pool.c:125-164 | two pools for which there is room with 65535 pages in the file and none with 65536 |
| BufferPool.StuckHasNoRoom | buffer_pool.c:125-164 | a pool of dirty slots without the sentinel's page has no room |
| BufferPool.BufferPool.MarkPageDirty | buffer_pool.c:185-192 | sets the dirty flag of the page's slot and nothing else |
| BufferPool.BufferPool.ClientWrite | buffer_pool.c:185-192 | a client write to a loaded page changes exactly those bytes of that page |
| BufferPool.BufferPool.GrowFile | buffer_pool.c:196-199 | the file grows by a page and the pool stays consistent exactly below 2^20 pages; from there on the file is cut |
| BufferPool.BufferPool.AllocPage | buffer_pool.c:194-206 | the contents grow by one page, the old tail followed by zeros, or stay as they were after a fault; without a fault the new page is loaded exactly when its truncated id is loaded already or there is room |
| BufferPool.BufferPool.Flush | buffer_pool.c:86-95 | contents unchanged; without a fault nothing is dirty and the file alone holds the contents |
| BufferPool.BufferPool.Truncate | buffer_pool.c:208-217 | the page count counts modulo 2^20; the pool stays consistent exactly when no loaded page is cut off, and then the remaining pages keep their bytes |
| BufferPool.Reopen | buffer_pool.c:55-103 | after a flush without fault a later session on the file starts from what the earlier one held |
| BufferPoolSpec.WriteBack | buffer_pool.c:39-49 | a complete or partial write-back keeps invariant and view |
| BufferPoolSpec.FileLayout | buffer_pool.c:22-30 | page p is the 4096 bytes of the file from 4096 * p on, and every byte is in a page or in the tail |
| BufferPoolSpec.Evict | buffer_pool.c:166-180 | a clean slot can be given up whatever happens to its frame |
| BufferPoolSpec.Install | buffer_pool.c:171-178 | installing a page that is not loaded keeps page ids distinct and the view |
| BufferPoolSpec.ClientChange | buffer_pool.c:185-192 | changing a frame and marking it dirty updates exactly one page of the view |
| BufferPoolSpec.Grow | buffer_pool.c:194-199 | extending the file by a page keeps all others, cached or not |
| BufferPoolSpec.OutOfRoomStep | buffer_pool.c:152-161 | a fruitless turn and one write-back do not change whether the load can succeed |
| BufferPoolSpec.SentinelStep | buffer_pool.c:152-161 | nor does the write-back of the page that the sentinel names |
| BufferPoolRuns.Call | buffer_pool.c:86-206 | every client call answers as a plain array of pages would; without a fault it is refused, or a new page left unloaded, exactly for lack of room |
| BufferPoolRuns.Session | buffer_pool.c:55-206 | every session of loads, writes, allocations and flushes, with any faults, is a session of a plain array of pages, and every answer in it has its cause |
| BufferPoolRuns.LoadTwice | buffer_pool.c:124-182 | after a load that gives up without a fault the next load of any existing page succeeds, for any number of slots, if the wrap-around of the clock counter cuts none of their turns short |
| BufferPoolRuns.Untouched | buffer_pool.c:105-206 | nothing but a write to it changes a page |
| BufferPoolRuns.ReadsLastWrite | buffer_pool.c:105-206 | in every session a load returns the bytes of the last write to its page |
| TimerQueue.TimerQueue.constructor | u_timer.c:187-196 | the queue starts empty at time 0 |
| TimerQueue.TimerQueue.FindInsertPoint | u_timer.c:54-64 | the search stops in front of the first timer that is not due earlier |
| TimerQueue.TimerQueue.InsertTimer | u_timer.c:42-70 | the list stays acyclic and gains exactly this node at the sorted place, in front of timers with the same due time |
| TimerQueue.TimerQueue.ReleaseTimer | u_timer.c:72-95 | exactly the first matching node moves to the front of the free list |
| TimerQueue.TimerQueue.StartTimerRequest | u_timer.c:116-154 | one node more is active, reused or new; both lists stay acyclic, disjoint and complete |
| TimerQueue.TimerQueue.StopTimerRequest | u_timer.c:156-173 | refines the abstract stop and reports whether a timer matched |
| TimerQueue.TimerQueue.Tick | u_timer.c:198-232 | at most the head fires; a repeating timer is queued again, a spent one is freed for reuse |
| TimerQueue.TimerQueue.Destroy | u_timer.c:234-252 | every node ever allocated is freed exactly once |
| TimerQueue.Drive | u_timer.c:116-232 | any run of requests and ticks on the linked lists is the run of the specification |
| TimerSpec.StartKeeps | u_timer.c:116-154 | a start keeps the invariant: sorted, distinct, remaining repeats plus timeouts sent equal the requested count |
| TimerSpec.StopKeeps | u_timer.c:156-173 | a stop keeps the invariant |
| TimerSpec.TickKeeps | u_timer.c:198-232 | a tick keeps the invariant |
| TimerSpec.RunKeeps | u_timer.c:116-232 | every run keeps the invariant |
| TimerRuns.ExactFirings | u_timer.c:213-230 | a timer with finite repeat r that is gone and was not stopped has fired exactly r + 1 times; an infinite one never goes by itself |
| TimerRuns.NeverEarly | u_timer.c:149-207 | no timeout comes before the requested time |
| TimerRuns.PeriodKept | u_timer.c:222-226 | two timeouts of one timer are at least its timeout apart |
| TimerRuns.OverdueStep | u_timer.c:42-70 | no start, stop or repeat moves an overdue timer back |
| TimerRuns.OverduePosition | u_timer.c:198-232 | after any run an overdue timer has fired or has moved forward once a tick |
| TimerRuns.BoundedResponse | u_timer.c:198-232 | an overdue timer at position k fires within k + 1 ticks unless stopped, whatever else happens |
| TimerRuns.Starved | u_timer.c:54-61 | in any state, a timer that is not yet overdue stays unfired through any number of ticks on a standing clock once a timer with timeout 0 that repeats for ever is started |
| TimerRuns.BoundedExactlyWhenOverdue | u_timer.c:42-70 | a timer has a bound on the ticks until it fires, whatever else is started, stopped and repeated, exactly when it is overdue |
| TimerRuns.Standoff | u_timer.c:56-61 | a timer started with timeout 0 is passed for ever by a second one started before the clock moves |
| TimerTime.ClockIsElapsed | u_timer.c:203-207 | over every run the clock advances by the sum of the positive ticks and by nothing else |
| TimerTime.RequestRecorded | u_timer.c:143-149 | a start request is kept as made, due its timeout after the clock of that moment, whatever follows |
| TimerTime.Addressed | u_timer.c:97-114 | every timeout goes to the actor and names the timer of its start request |
| TimerTime.NotBeforeTimeout | u_timer.c:149-207 | in every run a started timer fires only after ticks that sum to its timeout |
| TimerTime.NotAgainBeforeTimeout | u_timer.c:222-226 | between two timeouts of a timer lie ticks that sum to its timeout |
| TimerTime.TickFires | u_timer.c:209-230 | a tick sends at most one timeout, that of the head, and only when it is due |
| TimerTime.OverdueAfter | u_timer.c:198-232 | a timer due within T that is not stopped has fired or is overdue after ticks that sum to more than T |
| TimerTime.FiresOnceElapsed | u_timer.c:116-232 | a started timer that is not stopped fires: after ticks that sum to more than its timeout, within as many further ticks as there are timers, whatever else happens |
| TimerTime.FiresAgainOnceElapsed | u_timer.c:198-232 | the same again after each of its timeouts until its repeats are used up |
| TimerTime.StopRemoves | u_timer.c:72-95 | a stop takes exactly the first match off the list; the others keep their order |
| TimerTime.StoppedForGood | u_timer.c:156-173 | a stopped timer never fires again, whatever follows |
| AtomTable.HashOf | atom_table.c:42-56 | computes the PJW hash of the specification |
| AtomSpec.KnownHashes | atom_table.c:42-56 | the hashes of "NUL" and, with bits folded back, of "state/on" as numbers |
| AtomTable.AtomTable.constructor | atom_table.c:102-127 | an empty table with "NUL" in slot 0 |
| AtomTable.AtomTable.AllocPageData | atom_table.c:84-100 | room for the bytes and a terminator that no earlier entry uses, on a new page when the newest is full |
| AtomTable.AtomTable.ProbeTable | atom_table.c:175-209 | the probe stops at the atom or at the first free slot of its cyclic path |
| AtomTable.AtomTable.GetAtomIndex | atom_table.c:218-252 | refines lookup in the abstract table |
| AtomTable.AtomTable.GetAtomByIndex | atom_table.c:254-265 | returns the bytes behind an index |
| AtomTable.AtomTable.WriteAtom | atom_table.c:191-199 | writing an atom into a shared page disturbs no other atom |
| AtomTable.AtomTable.AddAtom | atom_table.c:163-216 | refines adding to the abstract table; all atoms keep their bytes and their place in memory |
| AtomSpec.InitialInv | atom_table.c:102-127 | the initial table satisfies the invariant |
| AtomSpec.HitStable | atom_table.c:229-245 | filling a free slot disturbs no successful probe |
| AtomSpec.AddHits | atom_table.c:163-216 | what was added is found at the reported index |
| AtomSpec.AddKeeps | atom_table.c:163-216 | adding keeps every added atom findable at its own slot and the count right |
| AtomSpec.AddSucceeds | atom_table.c:171-215 | adding succeeds exactly for an atom of 1 to 384 bytes that is known or for which a slot is free |
| AtomSpec.FindsExactlyAdded | atom_table.c:218-252 | lookup leads behind slot 0 exactly for the atoms that were added, and to slot 0 for "NUL" only |
| AtomSpec.PresetLookup | atom_table.c:121-126 | "NUL", never added, is found exactly when every slot of its probe before slot 0 is in use |
| AtomSpec.PresetInitially | atom_table.c:102-127 | in the initial table exactly when its hash leads to slot 0 |
| AtomSpec.Injective | atom_table.c:175-209 | no two added slots hold the same atom |
| AtomSpec.AppendOnly | atom_table.c:163-265 | over any additions, found indices and the bytes behind indices never change |
| AtomSpec.AddedStaysFound | atom_table.c:163-252 | an added atom is found ever after at the index first reported |
| NanBox.OrIsSum | deconz/nanbox.h:94 | the or of the four shifted fields is their sum, the length modulo 256 |
| NanBox.BitsRoundTrip | deconz/nanbox.h:94 | the shifts and masks of the readers take type, index and low length byte out of the word |
| NanBox.AtomRoundTrip | deconz/nanbox.h:94 | the packed word is an atom pointer and decodes to its index and to the length modulo 256 |
| NanBox.AtomValueInjective | deconz/nanbox.h:94 | two words are equal exactly when index and low length byte are |
| NanBox.WordLayout | deconz/nanbox.h:36-94 | the words of atoms and of pointers as literal sums, and which words count as either |
| NanBox.PtrRoundTrip | ustring.cpp:57-87 | a boxed header pointer is recognised and decodes to itself |
| UString.UString.FromCString | ustring.cpp:274-304 | a non-empty C string becomes a heap string with its bytes, anything else the boxed null |
| UString.UString.FromAtom | ustring.cpp:498-524 | the word is that of the looked-up index, or the boxed null for an unknown atom |
| UString.UString.Equals | ustring.cpp:225-246 | the byte loop computes the equality of the specification |
| UString.Chars | ustring.cpp:306-334 | the characters a word stands for |
| UString.AtomsEqual | ustring.cpp:227-229 | comparing two atoms by their words alone is exact for every length |
| UString.AtomAndHeapEqual | ustring.cpp:231-245 | an atom equals a heap string exactly when that is the atom's first (length modulo 256) bytes |
| UString.EqualIsByteEquality | ustring.cpp:225-246 | equality is byte equality for every mix of atoms and heap strings, unless an atom of 256 or more bytes meets a heap string |
| UString.EqualsItsCopy | ustring.cpp:225-246 | an atom equals a heap copy of itself exactly when it has at most 255 bytes |
| UString.LongAtomInput | ustring.cpp:225-246 | an atom of 256 bytes in a fresh table that differs from a heap copy of itself |
| UString.LongAtomEquality | ustring.cpp:225-246 | for an atom of 256 or more bytes, equality is wrong against exactly two heap strings: its own bytes and their first (length modulo 256) |
| UString.AtomStringStable | ustring.cpp:498-519 | atom strings keep their meaning while the table grows |
| Downloader.FindHeaderEnd | n_downloader.c:232-236 | finds the first empty line, if something follows it |
| Downloader.ParseHeaderText | n_downloader.c:242-262 | string stream calls on the header compute its status and Content-Length |
| Downloader.ReadResponse | n_downloader.c:200-289 | refines the abstract read step |
| Downloader.Downloader.Init | n_downloader.c:352-365 | refines the protocol step |
| Downloader.Downloader.BeginShutDown | n_downloader.c:367-375 | refines the protocol step |
| Downloader.Downloader.Admit | n_downloader.c:431-432 | the state test refines its own protocol step, as it comes before the mutex |
| Downloader.Downloader.Submit | n_downloader.c:444-473 | the locked section queues the download at the end and returns its positive handle |
| Downloader.Downloader.Download | n_downloader.c:425-476 | an uninterrupted call is both steps, or is refused and changes nothing |
| Downloader.Connect | n_downloader.c:72-134 | the scheme of the URL and the answer of the network decide state and status; the entry stays good |
| Downloader.Handshake | n_downloader.c:136-155 | goes on, waits, or fails with its own status; the entry stays good |
| Downloader.SendRequest | n_downloader.c:157-198 | waits for a reply with status Running and a cleared buffer, or fails with its own status; the entry stays good |
| Downloader.Downloader.ThreadPass | n_downloader.c:300-346 | one pass of the worker refines the protocol step |
| Downloader.Downloader.Take | n_downloader.c:382-397 | takes at most one finished download |
| Downloader.Downloader.Deliver | n_downloader.c:399-422 | the callback gets the final status, the header as it lies in the buffer and the payload of the specification |
| DownloaderSpec.StepKeeps | n_downloader.c:300-340 | no step lets the buffer position leave the buffer or the fields disagree with the bytes received |
| DownloaderSpec.ScanKeeps | n_downloader.c:230-265 | storing a piece and looking for the header leaves the entry a function of the bytes received so far |
| DownloaderSpec.SplitIndependent | n_downloader.c:200-265 | however a reply is split into reads, the entry ends up the same |
| DownloaderSpec.WholeReply | n_downloader.c:200-289 | for a reply of any length, split in any way, the final status is a function of the bytes that fit the buffer |
| DownloaderSpec.CompleteReply | n_downloader.c:234-285 | a complete 200 reply that fits ends as Done exactly when its body is not empty |
| DownloaderSpec.EmptyBodyReply | n_downloader.c:234-285 | a 200 reply with Content-Length 0, written out, meets the conditions of the former and ends as a size mismatch |
| DownloaderSpec.OversizedReply | n_downloader.c:258-261 | a 200 reply longer than the buffer whose header fits ends as too large |
| DownloaderSpec.RefusedReply | n_downloader.c:244-250 | a complete reply of another status ends as not found for 404 and as failed otherwise, unless nothing is behind its header |
| DownloaderSpec.UnannouncedReply | n_downloader.c:252-285 | a complete 200 reply without Content-Length ends as a size mismatch |
| DownloaderSpec.PayloadInBuffer | n_downloader.c:414-418 | the delivered bytes lie inside the received part of the buffer |
| DownloaderSpec.DeliversTheBody | n_downloader.c:401-420 | a callback with data delivers exactly the bytes behind the first empty line, as many as Content-Length, under status 200 |
| DownloaderProtocol.ExecKeeps | n_downloader.c:291-476 | every step of every thread keeps the protocol invariant |
| DownloaderProtocol.RunKeeps | n_downloader.c:291-476 | every interleaving keeps it |
| DownloaderProtocol.ExactlyOnePlace | n_downloader.c:291-476 | every accepted download is in exactly one of busy, done, in hand and delivered; its callback runs at most once |
| DownloaderProtocol.FirstInFirstOut | n_downloader.c:329-346 | downloads leave the busy list in the order they were accepted, one at a time, only by a worker pass |
| DownloaderProtocol.OneDownloadAtATime | n_downloader.c:308-346 | every busy entry behind the head is untouched, so the shared socket serves one download |
| DownloaderProtocol.DeliveredIsFinal | n_downloader.c:382-423 | no delivered status is Starting or Running, and delivered data is the body of a complete reply |
| DownloaderProtocol.HandlePositive | n_downloader.c:449-452 | a positive handle is returned exactly for an accepted download |
| DownloaderProtocol.HandlesDistinct | n_downloader.c:449-452 | without a completed shutdown and with at most 2^31 - 1 downloads, different downloads have different handles |
| DownloaderProtocol.HandleReused | n_downloader.c:352-380 | after a shutdown and a second start two pending downloads share handle 1 |
| DownloaderProgress.FinishedHeadMoves | n_downloader.c:329-346 | in every reachable state a pass of the worker moves a finished head to the front of the done list |
| DownloaderProgress.FinishedHeadDelivered | n_downloader.c:329-423 | a pass of the worker and a call of the pump then deliver exactly this entry |
| DownloaderProgress.HeadFollowsPasses | n_downloader.c:308-346 | whatever clients and pump do meanwhile, the head goes through the passes of the worker and nothing else |
| DownloaderProgress.Connected | n_downloader.c:72-134 | a connected http URL goes on without TLS and a connected https URL with it; anything else has failed |
| DownloaderProgress.Schemes | n_downloader.c:80-93 | the bytes of the two schemes |
| DownloaderProgress.Answered | n_downloader.c:291-350 | with a server that answers, an entry goes from its start to Finished with the reply's status, and not before the stream ends |
| DownloaderProgress.DeliveredWithin | n_downloader.c:291-423 | in every reachable state, a head whose connection and request succeed and whose reply comes in n pieces is called back after n + 4 passes of the worker, n + 5 with TLS, in every interleaving without a shutdown |
| DownloaderProgress.FirstDownload | n_downloader.c:352-476 | from the very start, the first download is called back as it was submitted, with the handle 1 that was returned |
| DownloaderProgress.DonePosition | n_downloader.c:344-397 | the done list is a stack: a take brings an entry forward, a download that finishes puts it back |
| DownloaderProgress.TakenWithin | n_downloader.c:382-397 | a finished download is taken once the pump was called more often than downloads stood in front of it, those that finish meanwhile included |
| DownloaderProgress.ShutdownHalts | n_downloader.c:306-309 | a shutdown stops admissions and the worker |
| Sha256Impl.ChoiceRewritten | lonesha256.h:55 | the rewritten choice function is that of the standard |
| Sha256Impl.MajorityRewritten | lonesha256.h:56 | the rewritten majority function is that of the standard |
| Sha256Impl.RoundInPlace | lonesha256.h:54-77 | the macro and the array rotation perform one round of section 6.2.2 of FIPS 180-4 |
| Sha256Impl.Expand | lonesha256.h:71-72 | the message schedule of section 6.2.2 |
| Sha256Impl.CompressInto | lonesha256.h:69-78 | the compression function of section 6.2.2 |
| Sha256Impl.PadInOneBlock | lonesha256.h:120-133 | padding the tail in one block is the padding of section 5.1.1 |
| Sha256Impl.PadInTwoBlocks | lonesha256.h:120-133 | padding the tail over two blocks is the padding of section 5.1.1 |
| Sha256Impl.Finish | lonesha256.h:119-134 | from the last whole block on, the state becomes that of the padded message |
| Sha256Impl.LoneSha256 | lonesha256.h:85-141 | for every message below 2^61 bytes the digest is SHA-256 of FIPS 180-4 |
| Sha256Spec.RoundConstants | lonesha256.h:88-105 | the 64 constants are the first 32 fractional bits of the cube roots of the first 64 primes |
| Sha256Spec.InitialValue | lonesha256.h:107-110 | the initial state is made from the square roots of the first eight primes |
| Sha256Spec.BlocksAbsorb | lonesha256.h:113-118 | the hash value is that of compressing block after block from the front, each into the value before it |
| Sha256Example.ScheduleAt | lonesha256.h:71-72 | the recurrence of the message schedule, section 6.2.2 of FIPS 180-4 |
| Sha256Example.HashOfAbc | lonesha256.h:85-141 | the eight words of the hash of the padded message "abc", followed through the schedule and all 64 rounds |
| Sha256Example.Abc | lonesha256.h:85-141 | the digest of "abc" is the 32 octets that FIPS 180-4 gives |
| Hmac.PrepareKey | u_hmac_sha256.c:232-249 | shorter, equal and longer keys all become the key block of RFC 2104 |
| Hmac.InnerHash | u_hmac_sha256.c:251-266 | the inner hash lands behind the text and the key block survives |
| Hmac.OuterHash | u_hmac_sha256.c:268-284 | the outer hash is taken over the padded key and the inner hash |
| Hmac.CheckTooWeak | u_hmac_sha256.c:224-263 | the check lets exactly 64 buffer sizes pass that the layout does not fit in |
| Hmac.HmacOfBytes | u_hmac_sha256.c:232-284 | the HMAC byte by byte as section 2 of RFC 2104 describes it: blocks of 64, pads 0x36 and 0x5c, long keys hashed |
| Hmac.UHmacSha256 | u_hmac_sha256.c:204-285 | with 192 bytes more than the message the overlapping buffer yields the HMAC of section 2 of RFC 2104 |
| SStream.Strtol | u_sstream.c:719-822 | accepts exactly the numerals whose value is in the range of long, with value and end; otherwise it stops where digits should start, or at the first digit with which the number leaves the range |
| SStream.ParseDigits | u_sstream.c:784-812 | the test before the multiplication rejects precisely the overflows |
| SStream.SStream.PutStr | u_sstream.c:290-330 | appends the text and a terminator, or reports lack of space and changes nothing |
| SStream.SStream.PutLong | u_sstream.c:342-384 | appends the decimal numeral of any long including the least |
| SStream.SStream.PutULongLong | u_sstream.c:443-482 | the same for unsigned numbers |
| SStream.SStream.GetLong | u_sstream.c:72-107 | value, position and status as the grammar of numbers prescribes |
| SStream.SStream.Find | u_sstream.c:213-258 | moves to the first occurrence, or reports that there is none, as for an empty pattern |
| SStream.SStream.PrintAndReadBack | u_sstream.c:342-384 | printing any long, seeking back and reading is the identity |
| SStream.SStream.PrintUnsignedAndReadBack | u_sstream.c:443-482 | a printed unsigned number reads back exactly when it is in the range of long |
| SStreamSpec.DigitsValue | u_sstream.c:359-367 | the digits of a number denote it |
| SStreamSpec.AtMostTwentyDigits | u_sstream.c:348-367 | a number of 64 bits has at most 20 digits |
| SStream.ReversedDigits | u_sstream.c:357-367 | the loop collects the digits of any long, the least included, within the 24 bytes of its buffer |
| SStream.ReversedUnsigned | u_sstream.c:458-465 | so does the loop for unsigned numbers |
| SStreamSpec.DecimalIsNumeral | u_sstream.c:342-384 | a printed number is a numeral for itself |
| SStreamSpec.NumeralExamples | u_sstream.c:719-822 | a printed and a read number as literal bytes |
| SStreamSpec.StrtolDetermined | u_sstream.c:719-822 | the meaning leaves no choice: value, end and error are determined by the text |
| SStreamSpec.ReadsWhatWasPrinted | u_sstream.c:719-822 | a printed integer reads back exactly when it is in the range of long |
| SStreamSpec.StrtolIsLongAt | u_sstream.c:719-822 | the grammar of numbers determines the result |
| ZclSpec.AttrRoundTrip | zcl.cpp:463-653 | an attribute reads back as what was written, and the reader stands behind it, exactly when a condition on its type and value holds, for every supported type |
| ZclSpec.OddIntegerReadsBack | zcl.cpp:553-577 | a 24, 40, 48 or 56-bit integer never reads back, since the reader stops after a quarter of the bytes; the number arrives exactly below 256 |
| ZclSpec.OddIntegerArrives | zcl.cpp:927-945 | what arrives is the first byte and, beyond 24 bits, the second in the place of the fifth |
| ZclSpec.NegativeInt24 | zcl.cpp:553-577 | -1 as a 24-bit integer does not come back: 255 arrives if it was set with setValue, 1 with setNumericValue |
| ZclSpec.MinusOneOnTheAir | zcl.cpp:553-577 | the twelve bytes written for -1 as a 24-bit integer |
| ZclSpec.WireForm | zcl.cpp:463-653 | how many octets each data type writes and which number they carry, the lowest first; string lengths and keys |
| ZclSpec.ParametersRoundTrip | zcl.cpp:2274-2321 | any list of portable parameters reads back in order, wherever it lies in the stream |
| ZclSpec.FrameRoundTrip | zcl.cpp:2704-2751 | reading a written frame gives the frame, with manufacturer code 0 if it is not manufacturer specific |
| ZclSpec.FrameDetermined | zcl.cpp:2704-2751 | writing what was read gives the bytes that were read |
| ZclSpec.FrameLayout | zcl.cpp:2704-2718 | the octets on the air: bit 2 of the frame control puts the manufacturer code, low octet first, in front of sequence number, command id and payload |
| ZclSpec.FrameTaken | zcl.cpp:2720-2751 | the same positions on reading, and that a frame is valid exactly when its header is complete |
| ZclSpec.DirectionOnTheAir | zcl.cpp:2529-2559 | bit 3 of the frame control is the direction: which commands a server and a client take |
| ZclSpec.FirstCarried | zcl.cpp:2529-2559 | the first command with the frame's id and direction, none before it |
| ZclSpec.CommandRoundTrip | zcl.cpp:2518-2562 | parameters to payload to frame to bytes to frame to command restores every parameter and changes no other command |
| Zcl.DataStream.Put | zcl.cpp:483-487 | the shifting loop emits the number in little-endian order |
| Zcl.ZclAttribute.WriteSigned | zcl.cpp:553-577 | the loop writes the magnitude with the sign in the top bit, each byte as an int of four |
| Zcl.ZclAttribute.WriteToStream | zcl.cpp:463-653 | appends exactly the bytes of the specification, or nothing when it returns false |
| Zcl.ZclAttribute.ReadFromStream | zcl.cpp:716-1093 | succeeds exactly when enough bytes are left, with the value and position of the specification |
| Zcl.ZclCommand.WriteToStream | zcl.cpp:2299-2321 | parameters in order up to the first that cannot be written |
| Zcl.ZclCommand.ReadFromStream | zcl.cpp:2274-2297 | reads in order; after the first failure no later parameter changes |
| Zcl.ZclFrame.WriteToStream | zcl.cpp:2704-2718 | appends the bytes of the frame |
| Zcl.ZclFrame.ReadFromStream | zcl.cpp:2720-2751 | valid exactly when the header is complete, then with the fields of the specification |
| Zcl.ZclCluster.FindCommand | zcl.cpp:2529-2559 | the nested direction tests select the first command the frame carries |
| Zcl.ZclCluster.ReadCommand | zcl.cpp:2518-2562 | reads into the first matching command and leaves the others alone |
| Endian.LittleEndianValue | zcl.cpp:483-487 | n bytes carry a number modulo 256^n |
| Endian.LittleEndianOf | zcl.cpp:989-1003 | n bytes are determined by the number they carry |
| Endian.FirstOctetLowest | zcl.cpp:483-487 | octet i weighs 256^i |
| Utf8.Codepoint | util.cpp:361-413 | reads only bytes up to the terminator and returns code point and position of the specification |
| Utf8Spec.CodepointInvertsEncode | util.cpp:361-413 | every code point is read back from its encoding in section 3 of RFC 3629, passed exactly |
| Utf8Spec.EncodeExamples | util.cpp:361-413 | the examples of section 7 of RFC 3629 and both ends of every range |
| Utf8Spec.Latin1Example | zcl.cpp:681-714 | a Latin-1 string with both special characters as UTF-8 octets |
| Utf8Spec.ReadCharacterIsEncoded | util.cpp:361-413 | what is read is the encoded character exactly for the sequences of section 4 of RFC 3629 |
| Utf8Spec.OverlongInput | util.cpp:361-413 | an overlong form of NUL is read as the character 0 |
| Utf8Spec.DecodeInvertsEncodeAll | zcl.cpp:815-824 | the loop over a string reads any text back from its UTF-8 form |
| Utf8Spec.LikelyLatin1Converts | zcl.cpp:659-714 | whatever looks like Latin-1 converts into twice its length plus one byte, and the result decodes to the input but for 0xA0 and 0xAD |
| Utf8Spec.Utf8IsKept | zcl.cpp:768-858 | text without NUL in UTF-8, with any padding of NULs, is taken as that text |
| Utf8Spec.Latin1IsConverted | zcl.cpp:826-836 | printable Latin-1 that is not UTF-8 is taken as its characters |
| Utf8.IsLikelyLatin1String | zcl.cpp:659-679 | accepts exactly strings of printable characters and three control characters |
| Utf8.Latin1ToUtf8Opinionated | zcl.cpp:681-714 | succeeds exactly without a byte 0x80 and with room for the encoding and a terminator |
| Utf8.Scan | zcl.cpp:811-824 | whether all code points are valid, and whether a NUL comes before the last one |
| Utf8.ReadCharacterString | zcl.cpp:768-858 | chooses between text, converted Latin-1 and raw bytes as specified; the conversion buffer always suffices |
| ArenaSpec.Memalign | u_memory.c:18-33 | the least aligned address that is not below |
| ArenaSpec.SlackSuffices | u_arena.c:56-74 | up to alignment 16 the 32 bytes of slack alone make the end check succeed |
| ArenaSpec.SlackTooSmallFor32 | u_arena.c:54-74 | after one allocation in an aligned buffer of 59 bytes, a request that passes the strict assertion too gets a block behind the end at alignment 32 |
| ArenaSpec.InsideIffStartInside | u_arena.c:74 | a returned block lies inside the arena exactly when its aligned start does |
| ArenaSpec.AllocKeeps | u_arena.c:41-84 | allocation keeps blocks and headers aligned, ordered and inside, and all contents |
| ArenaSpec.BlockRecorded | u_arena.c:41-84 | the offset returned is that of a new block of the size and alignment asked for, behind all others and up to alignment 16 at most 24 bytes behind them |
| ArenaSpec.WriteKeeps | u_arena.c:41-84 | a store changes exactly those bytes of its own block and no header |
| ArenaSpec.SmallIsInside | u_arena.c:41-84 | alignments up to 16 always meet the condition of the runs below |
| ArenaSpec.RunKeeps | u_arena.c:41-84 | so does every run of allocations and stores in which each aligned start lies inside |
| ArenaSpec.BlocksAreSeparate | u_arena.c:41-84 | after any run blocks and headers are pairwise disjoint, aligned and inside, and each header holds its size |
| ArenaSpec.OnlyOwnStores | u_arena.c:41-84 | nothing but its owner's stores changes a block |
| Arena.UArena.constructor | u_arena.c:24-30 | an arena over new memory |
| Arena.UArena.Static | u_arena.c:32-39 | an arena over given memory, whatever its alignment |
| Arena.UArena.Alloc | u_arena.c:41-84 | refines the specification; up to alignment 16 it succeeds exactly when the slack test does |

## Left out

- BufferPool.BufferPool.LoadPage: which loads succeed without a fault is stated as long as the 32-bit clock counter wraps at most at a multiple of the slot count; that contents never change is stated for all.
- BufferPool.BufferPool.AllocPage: the file must stay below 4 GiB; beyond, `GrowFile` states what becomes of the file, but not what a load does to the inconsistent pool.
- BufferPool.BufferPool.constructor: opening the file is assumed to have succeeded, and there are at most 65536 frames.
- BufferPool.BufferPool.Truncate: what calls on a pool do that was shrunk below a loaded page; the contract only says that it is then inconsistent.
- BufferPoolRuns.LoadTwice: loads during which the 32-bit clock counter wraps inside a turn, with a slot count that does not divide 2^32.
- TimerQueue.TimerQueue.Tick: `t_total` and due times are unbounded integers; a 64-bit overflow takes longer than any uptime. The message itself is reduced to whether it could be allocated.
- TimerQueue.TimerQueue.StartTimerRequest: allocation of a node is assumed to succeed, as in the program, which does not check it.
- AtomTable.AtomTable.AddAtom: page allocation is assumed to succeed, the out pointer to be given, and data not to be null.
- UString.UString.FromCString: copying, moving and assigning strings, the UTF-8 flag, and `UString::number` are not modelled.
- Downloader.Downloader.Submit: entries are values in lists, so relinking and freeing of entries is not modelled; the proxy and the user pointer are left out; the allocated size, a sum of `unsigned` numbers that can wrap, is taken to hold `maxsize` bytes.
- NanBox.AtomRoundTrip: words are numbers; that the or of the fields is their sum is stated on bit vectors, and the step from these to numbers is not.
- Downloader.ReadResponse: sockets are nondeterministic answers that never return more bytes than asked for; host name and request text of ndl_connect and ndl_send_request are not modelled.
- Hmac.UHmacSha256: key and message do not overlap the work buffer; the OpenSSL variant of U_Sha256 is not part of this model; a work buffer of fewer than 192 + |msg| bytes is excluded although the program's check would let it pass.
- ZclSpec.AttrRoundTrip: list attributes, arrays and character strings are not part of the round trip; the numeric copies kept in the variant of an attribute and its format hints are not modelled; every data type counts as known with its length in bytes.
- Zcl.ZclAttribute.ReadFromStream: the fields of an attribute after a failed read are unspecified.
- Utf8.Codepoint: U_INVALID_UNICODE_CODEPOINT is an absent value; its number is not part of this model.
- Arena.UArena.Alloc: sizes for which the sum of the space test exceeds an unsigned long are excluded; addresses do not wrap.
- Floating point printing and parsing (`U_sstream_put_double`, `U_strtod`): no exact specification.
- Device database loading, network back ends, threads, APS, ZDP and node classes: glue around foreign calls or field-by-field codecs that would only add easy members.
