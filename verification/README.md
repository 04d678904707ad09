# Verified model of a reactor network library

This project models the stateful core of the library in Dafny and proves what each part is
for. `dafny verify dfyconfig.toml` checks all of it.

Most parts come in two layers. The state-changing code is a class whose fields are those of
the C++ object, with the same branches and loops; each of its methods is proved to change
the state exactly as a function of the old state does. About those functions the properties
of whole runs are proved: what every operation keeps, and what therefore holds in every
state that any sequence of operations can reach. Where several threads are involved, the
functions are the steps of an interleaved system, and a run is any sequence of enabled steps.

| files | subject |
|---|---|
| `PoolSpec`, `PoolInvariant`, `PoolRuns`, `PoolSkip`, `PoolSearch`, `PoolExact`, `MemoryPool` | the memory pool: linked pages with reference counts, rewinding, the skip pointer, and large blocks whose records live in the pages |
| `EventLoopSpec`, `EventLoop` | pending functors and the eventfd wake-up, over all interleavings |
| `TcpSpec`, `TcpConnection` | the sending side of a connection under partial writes, and its half-close |
| `PollerSpec`, `Poller` | registration of channels: channel, table and kernel in agreement |
| `TimerSpec`, `TimerProofs`, `TimerBirth`, `TimerQueue` | the timer set, re-entrant callbacks, and arming of the kernel timer |
| `Buffer` | the growing byte buffer as a queue |
| `HttpSpec`, `HttpProofs`, `HttpLanguage`, `HttpContext` | the resumable request parser |
| `FixedBuffer`, `LogStream`, `AsyncLoggingSpec`, `AsyncLogging` | integers as text, and the double-buffered log |
| `ThreadPoolSpec`, `ThreadPool` | the worker protocol |

Answers of the operating system (`posix_memalign`, `write`, `readv`, `epoll_wait`, the
timerfd and the eventfd, the clock) are parameters. The assumptions about them are:
`posix_memalign` fails or returns a 16-aligned piece below half of the address space that
overlaps nothing outstanding; a write takes at most what it is given; the timerfd does not
expire before its deadline on the clock of the queue, which does not go back; `epoll_ctl` refuses only to add a
descriptor that is present or to change one that is not. Fields that the pool's code never
initialises (`next_` and `quote_` of the first page, `quote_` and `failed_` of later ones)
start at zero.

## What turned out differently

The code is modelled as it is. Where it does not do what its comments or names promise,
the project states exactly when it does:

- `ensureWritableBytes` passes its length on as an `int`. `Buffers.RoomExactly` says for
  which lengths the promised room is there afterwards; 4 GiB into a fresh buffer is a case
  where it is not (`Buffers.FourGigabytesDoNotFit`).
- A functor queued by the loop's own thread before `loop()` does not wake the loop.
  `EventLoopSpec.StrandedExactly` gives the states of entry into `loop()` from which
  functors can be left waiting.
- `reset` arms the timerfd only in its loop over expired timers. `handleRead` reads the
  clock before it reads the timerfd, so an expiry in between can be consumed by a round that
  finds nothing due, and a pending timer then waits for ever. `TimerProofs.StrandedExactly`
  says in which runs this happens, `TimerProofs.HandleStrandsExactly` in which states of any
  kind, and `TimerProofs.LateExpiryStrands` gives a run; `TimerProofs.EarlyExpiryStrands`
  shows the same for a timerfd that is early.
- The comment on the pool's `failed_` counter promises short searches. They visit at most
  seven pages (`PoolSkip.SearchIsShort`) until a page is rewound. `PoolSearch.StaysShortExactly`
  gives the counters from which searches stay within seven pages, for every state;
  `PoolSearch.ResetStretches` and `PoolSearch.RewoundStretches` say what that means after
  `resetPool` and after a free that empties a page, and `PoolSearch.ResetLengthensSearch` and
  `PoolSearch.FreeLengthensSearch` give runs with longer searches.
- The header parser ends at the first line without a colon, not at the first empty line
  (`HttpProofs.ColonlessLineEnds`).
- `disableAll` on a channel that is already out of the kernel's set puts it back with an
  empty mask (`PollerSpec.DisableAllToggles`).
- `poll` keeps the result of `epoll_wait` in a `size_t`, so the branch for errors is never
  taken; `Poller.EPollPoller.Poll` proves that an error still reports no channel.

## Model

| member | source | states |
|---|---|---|
| PoolRuns.PoolIsSafe | src/memory/MemoryPool.cc:6-259 | After any run of allocations, frees of what is held and resets, live allocations (the pool's own records included) are 16-aligned and disjoint from each other, from all large blocks and from every page header; every small one lies in a page, behind its header and below its `last_`, which is not beyond its end; every page counts what is live in it; the signed/unsigned room test is exact and no counter wraps |
| PoolRuns.StepKeeps | src/memory/MemoryPool.cc:61-259 | Every operation, whatever the system answers, keeps pages, counters, records and the ledger of live allocations in agreement |
| PoolRuns.AllocateKeeps | src/memory/MemoryPool.cc:146-180 | An allocation of any size keeps that agreement, with the returned address entered in the ledger, or nothing when it returns null |
| PoolRuns.MallocSmallKeeps | src/memory/MemoryPool.cc:160-179 | A small allocation is placed in free room of exactly one page, overlaps nothing live and raises that page's counter |
| PoolRuns.AllocateReusing | src/memory/MemoryPool.cc:71-87 | A large block entered in a free record keeps records and live large blocks in one-to-one correspondence |
| PoolRuns.AllocateRecording | src/memory/MemoryPool.cc:89-103 | A large block that needs a new record, itself a small allocation of the pool, keeps records and live large blocks in one-to-one correspondence |
| PoolRuns.MallocFailsExactly | src/memory/MemoryPool.cc:62-180 | An allocation returns null if and only if its size is zero, the system gives no large block, or no visited page has room and the system gives no new one; a large block is handed out as the system gave it |
| PoolExact.MallocCutsExactly | src/memory/MemoryPool.cc:160-177 | In every state a request of up to 4064 bytes is answered with the least multiple of 16 from `last_` on in the first visited page that has room for it there; that page then ends in use exactly behind it and counts one more, and nothing else changes |
| PoolExact.MallocMapsExactly | src/memory/MemoryPool.cc:107-144 | With no such page the request is put 32 bytes into a new page at the end of the list, every page visited short of the tail has failed once more, the current page is the one behind the last of them that had failed five times, and without a new page nothing changes |
| PoolExact.MallocReusesExactly | src/memory/MemoryPool.cc:71-87 | A large block is entered, with its size cut to an unsigned int, in the first free one of the first five records |
| PoolExact.MallocRecordsExactly | src/memory/MemoryPool.cc:89-103 | With none free, the pool serves a request for 24 bytes and what it gives is the new first record |
| PoolExact.TwoRequests | src/memory/MemoryPool.cc:166-173 | Two requests for 16 bytes to a pool at 4096 are answered with 4160 and 4176 |
| PoolExact.CreatedExactly | src/memory/MemoryPool.cc:25-31 | A new pool is one page in use up to 56 bytes |
| PoolExact.ResetExactly | src/memory/MemoryPool.cc:250-258 | After a reset every page is in use up to 32 bytes behind its header's start, with no counts, the first page is current, and there are no records |
| PoolRuns.FreeIsExact | src/memory/MemoryPool.cc:208-233 | Freeing a small allocation drops the count of the one page that holds it and changes no other, in spite of the inclusive address test; the page is rewound and the search restarted exactly when nothing else in it is live |
| PoolRuns.FreeLargeIsExact | src/memory/MemoryPool.cc:195-206 | Freeing a large block clears its own record and changes no page |
| PoolRuns.FreeNull | src/memory/MemoryPool.cc:193-234 | Freeing null changes nothing, although the list search may stop at a cleared record |
| PoolRuns.RecordBlockStays | src/memory/MemoryPool.cc:208-233 | No free ever rewinds a page that holds a record of the pool's own |
| PoolRuns.ResetKeeps | src/memory/MemoryPool.cc:236-259 | A reset leaves a consistent pool that holds nothing, with all its pages |
| PoolInvariant.HomeIsUnique | src/memory/MemoryPool.cc:211-212 | The inclusive address test holds for the page that holds an allocation and for no other |
| PoolInvariant.FitsIsExact | src/memory/MemoryPool.cc:166-169 | The unsigned comparison never wraps: it says that the aligned piece ends inside the page |
| PoolInvariant.QuoteIsSmall | src/memory/MemoryPool.h:9-16 | A page never counts more than 256 live allocations, so its counter cannot overflow |
| PoolInvariant.FirstFitFinds | src/memory/MemoryPool.cc:161-177 | The search ends at the first page from the current one on that has room, if any has |
| PoolInvariant.TakeKeepsSmall | src/memory/MemoryPool.cc:166-173 | Bumping a page with room keeps placement, disjointness and counts |
| PoolInvariant.NewBlockKeepsSmall | src/memory/MemoryPool.cc:107-144 | A new page with its first allocation keeps placement, disjointness and counts |
| PoolSkip.SearchIsShort | src/memory/MemoryPool.cc:126-142 | In any run in which no page is rewound, a search for room visits at most seven pages, and each page it skips has failed six times |
| PoolSkip.NewBlockAges | src/memory/MemoryPool.cc:126-142 | A new page moves the skip pointer so that the number of failures of every page stays a function of its distance from the tail |
| PoolSearch.SearchIsBounded | src/memory/MemoryPool.cc:126-142 | From any state, in any run in which no page is rewound, a search visits at most seven pages, or five more than it would have visited at first |
| PoolSearch.StaysShortExactly | src/memory/MemoryPool.cc:126-142 | From any state, provided the system has five pages left, all searches of all such runs stay within seven pages if and only if the failure counters satisfy a stated condition |
| PoolSearch.ResetStretches | src/memory/MemoryPool.cc:250-258 | After a reset of n pages, searches visit up to the larger of seven and n + 5 pages before the next rewind, some run gets there, and they stay within seven if and only if n is at most two |
| PoolSearch.RewoundStretches | src/memory/MemoryPool.cc:214-229 | After page i of n is rewound, none having been before, the next search visits all n pages, and searches stay within seven if and only if n is at most seven and i is one of the last two |
| PoolSearch.FreeRewinds | src/memory/MemoryPool.cc:208-233 | A free that empties a page of such a pool puts it into that state |
| PoolSearch.ResetLengthensSearch | src/memory/MemoryPool.cc:236-259 | A run with a reset of three pages in which a search visits eight |
| PoolSearch.FreeLengthensSearch | src/memory/MemoryPool.cc:208-233 | A run with no rewind but its last step, a free, after which a search visits eight pages |
| MemoryPool.MemoryPool.CreatePool | src/memory/MemoryPool.cc:6-34 | When the system gives a page, the pool is that page with room behind both headers and no records; otherwise the handle stays as it was |
| MemoryPool.Allocator.Malloc | src/memory/MemoryPool.cc:146-180 | On the linked lists, allocation refines the value-level operation, in state and returned address |
| MemoryPool.Allocator.MallocSmallBlock | src/memory/MemoryPool.cc:160-179 | The walk over the linked pages finds the first page with room and bumps only that one |
| MemoryPool.Allocator.MallocSmallNode | src/memory/MemoryPool.cc:107-144 | The walk to the tail ages the pages it leaves, moves the current pointer and links the new page last |
| MemoryPool.Allocator.MallocLargeNode | src/memory/MemoryPool.cc:62-104 | Large allocation refines the value-level operation, with each of its three failures |
| MemoryPool.Allocator.ReuseRecord | src/memory/MemoryPool.cc:71-87 | The bounded walk over the linked records fills the first free one among the first five |
| MemoryPool.Allocator.FreeMemory | src/memory/MemoryPool.cc:193-234 | Freeing on the linked lists refines the value-level operation |
| MemoryPool.Allocator.ResetPool | src/memory/MemoryPool.cc:236-259 | A reset of the linked lists refines the value-level operation |
| EventLoopSpec.NoLostWakeup | src/net/EventLoop.cc:72-89 | Over all interleavings, when the loop is in poll with functors pending and none was queued early, the eventfd is readable or some thread is between its push and its write |
| EventLoopSpec.StrandedExactly | src/net/EventLoop.cc:125-144 | From a state in which loop() is entered, functors can be left waiting in poll if and only if functors are pending, the eventfd is unreadable and no thread is about to write it |
| EventLoopSpec.EarlyFunctorWaits | src/net/EventLoop.cc:139-143 | One functor queued by the owner before loop() is left waiting |
| EventLoopSpec.FunctorsRunInOrder | src/net/EventLoop.cc:181-203 | At every step the functors that the steps have queued are those run, then the rest of the batch, then those pending; back in poll, everything queued before the last return of poll has run |
| EventLoopSpec.WakeupIsExact | src/net/EventLoop.cc:139-164 | A wake-up makes the eventfd readable, handling it empties it, and poll reports it exactly while it is readable |
| EventLoopSpec.QuitLeaves | src/net/EventLoop.cc:72-107 | A loop that has been told to quit never goes to poll again, and at its next test leaves for good |
| EventLoopSpec.QuitIsExact | src/net/EventLoop.cc:65-107 | Whoever quits sets the flag, the owner also wakes the loop, the test leaves exactly if the flag is set, and entering loop() clears it |
| EventLoopSpec.StepKeeps | src/net/EventLoop.cc:65-203 | Every step of every thread keeps order, coverage by a wake-up, and progress |
| EventLoop.EventLoop.QueueInLoop | src/net/EventLoop.cc:125-144 | A functor queued by the loop's thread joins the end, and while the batch runs the eventfd is readable afterwards, whatever others do meanwhile |
| EventLoop.EventLoop.DoPendingFunctors | src/net/EventLoop.cc:181-203 | Everything pending runs in order; what the functors queue waits for the next round, with the loop woken |
| EventLoop.EventLoop.RunFunctors | src/net/EventLoop.cc:197-200 | The batch runs to its end in order, while functors queue others and other threads interfere |
| EventLoop.EventLoop.Loop | src/net/EventLoop.cc:65-91 | After any number of rounds, all that was queued when poll last returned has run, and what is pending has woken the loop |
| EventLoop.EventLoop.Quit | src/net/EventLoop.cc:93-107 | Quitting from the loop's thread makes poll return |
| TcpSpec.StreamIsConserved | src/net/TcpConnection.cc:61-284 | Under any partial writes, failures and write events, the bytes on the wire followed by the output buffer are the accepted sends in order; write interest is exactly pending output; the half-close happens at most once, with nothing pending, and no byte follows it; once it has happened everything is on the wire |
| TcpSpec.StreamOfSends | src/net/TcpConnection.cc:61-206 | Told by the operations alone: from the establishment on, as long as there are only sends that find the connection whole and write events, wire plus output is the concatenation of all that was sent |
| TcpSpec.StreamIsFinal | src/net/TcpConnection.cc:174-294 | Once such a connection is shut down, closed or destroyed, wire plus output stays that, whatever comes after |
| TcpSpec.SendIsExact | src/net/TcpConnection.cc:109-171 | A send while connected puts on the wire what the socket takes, keeps the rest, waits for write events exactly if there is a rest, and queues completion and high-water callbacks exactly when due; a broken connection takes nothing |
| TcpSpec.EstablishIsExact | src/net/TcpConnection.cc:193-206 | Establishing makes the connection connected and reading, and changes nothing else |
| TcpSpec.CloseIsExact | src/net/TcpConnection.cc:211-294 | Closing, or destroying while connected, ends the connection and all its interests, and nothing is taken afterwards |
| TcpSpec.SendKeeps | src/net/TcpConnection.cc:109-171 | A send keeps the stream, the write interest and the half-close conditions for every outcome of the write |
| TcpSpec.HandleWriteKeeps | src/net/TcpConnection.cc:247-284 | A write event, with the half-close when the output drains, keeps the stream, the write interest and the half-close conditions |
| TcpSpec.DrainIsExact | src/net/TcpConnection.cc:249-283 | A write event moves exactly what the socket takes to the wire; completion is reported and the interest in writing ends if and only if that was the last of the output, the half-close follows if and only if a shutdown was waiting, and without interest in writing nothing happens |
| TcpSpec.ShutdownIsExact | src/net/TcpConnection.cc:174-190 | A shutdown makes a connected connection disconnecting and half-closes at once if and only if no output is pending; other connections are touched neither by it nor by a send |
| TcpSpec.HighWaterIsCrossing | src/net/TcpConnection.cc:156-164 | The high-water callback is queued if and only if the send takes the pending output from below the mark to it or beyond, and carries the new size |
| TcpConnection.Connection.SendInLoop | src/net/TcpConnection.cc:109-171 | The object's send refines the value-level one over the real output buffer |
| TcpConnection.Connection.SendBuffer | src/net/TcpConnection.cc:83-99 | Sending a buffer sends its readable bytes and empties it only while connected |
| TcpConnection.Connection.HandleWrite | src/net/TcpConnection.cc:247-284 | The object's write handler refines the value-level one |
| TcpConnection.Connection.Shutdown | src/net/TcpConnection.cc:174-190 | A shutdown half-closes at once or leaves that to the drain |
| PollerSpec.EveryRunAgrees | src/net/poller/EPollPoller.cc:66-156 | For every sequence of interest changes and removals on distinct descriptors, a channel is in the kernel's set exactly while marked as added and with its own mask, in the table exactly while not new, and the kernel never refuses a request |
| PollerSpec.StepAgrees | src/net/poller/EPollPoller.cc:66-133 | Each operation keeps the three views in agreement |
| PollerSpec.RunFollows | src/net/Channel.h:47-51 | In every run a descriptor is in the kernel's set exactly when its operations say, and the kernel's mask has 3 for reading and 4 for writing exactly as the last operation on that interest says |
| PollerSpec.MasksAreExact | src/net/Channel.h:47-51 | Each operation turns the mask of two interests into the mask of the new ones, as plain numbers |
| PollerSpec.EnableReadingIsExact | src/net/Channel.h:47 | Enabling reading sets the bits of 3 and keeps all others, for every mask |
| PollerSpec.EnableWritingIsExact | src/net/Channel.h:49 | Enabling writing sets the bit of 4 and keeps all others, for every mask |
| PollerSpec.DisableReadingIsExact | src/net/Channel.h:48 | Disabling reading clears the bits of 3 and keeps all others, for every mask |
| PollerSpec.DisableWritingIsExact | src/net/Channel.h:50 | Disabling writing clears the bit of 4 and keeps all others, for every mask |
| PollerSpec.InterestIsRegistered | src/net/Channel.h:47-51 | After an operation a descriptor is in the kernel's set, with its new mask, if and only if it was not a removal and either interest is left or the descriptor was out of the set before |
| PollerSpec.DisableAllToggles | src/net/Channel.h:51 | disableAll takes a descriptor out of the kernel's set if and only if it is in it; repeated, it puts the descriptor back with an empty mask |
| Poller.EPollPoller.Perform | src/net/Channel.h:47-51 | Each channel operation on the objects refines the step on the registry |
| Poller.EPollPoller.UpdateChannel | src/net/poller/EPollPoller.cc:66-104 | Updating on the objects refines the value-level update |
| Poller.EPollPoller.RemoveChannel | src/net/poller/EPollPoller.cc:118-133 | Removing on the objects refines the value-level removal |
| Poller.EPollPoller.Poll | src/net/poller/EPollPoller.cc:25-60 | The active channels are the reported ones in order with what was reported, all of them registered; an error reports none; a full list doubles; registration is untouched |
| TimerProofs.TimersAreConserved | src/timer/TimerQueue.cc:58-181 | In every run, with callbacks that add timers, the set holds exactly the live timers under their expirations and in order; a repeating timer is always in it; a one-shot timer is in it or has run exactly once; nothing runs early |
| TimerBirth.FirstRunIsAsAsked | src/timer/TimerQueue.cc:58-181 | In every run a timer that has not run is in the set under the expiration it was created with, and the first callback of one that has was due then |
| TimerBirth.AddIsExact | src/timer/TimerQueue.cc:58-68 | Adding a timer files it under the expiration it was created with next to what is there, and sets the timerfd for it exactly if it comes first |
| TimerBirth.RoundAdds | src/timer/TimerQueue.cc:128-134 | After a round the timers there have ever been are those before and exactly what its callbacks have added, as created |
| TimerProofs.StrandedExactly | src/timer/TimerQueue.cc:121-164 | No state of a run has a pending timer, an unset timerfd and nothing under way to set it, if and only if in no round the timerfd expires between the reading of the clock and the reading of the timerfd while nothing is due |
| TimerProofs.NoneStranded | src/timer/TimerQueue.cc:58-96 | In such a run, between rounds, if a timer is pending, the timerfd is armed for the earliest expiration or 100 microseconds after arming, whichever is later |
| TimerProofs.HandleStrandsExactly | src/timer/TimerQueue.cc:121-164 | In any state, a round leaves a timer stranded if and only if timers are pending, none is due at its reading of the clock, and the timerfd is unset when it is read |
| TimerProofs.LateExpiryStrands | src/timer/TimerQueue.cc:121-126 | A run with a timerfd that is never early leaves a timer stranded |
| TimerProofs.EarlyExpiryStrands | src/timer/TimerQueue.cc:141-164 | An expiry one microsecond early strands the timer it was set for |
| TimerProofs.ExpiredIsDue | src/timer/TimerQueue.cc:109-119 | The entries taken are exactly those due, in order, and the rest keeps its order |
| TimerProofs.RoundRunsDue | src/timer/TimerQueue.cc:121-139 | A round runs the callbacks of exactly the entries that are due, each once, in order of expiration |
| TimerProofs.ResetRestarts | src/timer/TimerQueue.cc:141-164 | A repeating timer that has run is due again one interval after the time of its restart; a one-shot timer is gone |
| TimerProofs.InsertAt | src/timer/TimerQueue.cc:166-181 | Insertion adds exactly one entry, keeps the order, and changes the first exactly when the entry precedes it |
| TimerProofs.RunCallbacksKeeps | src/timer/TimerQueue.cc:128-134 | Running callbacks that add timers keeps entries and runs in agreement |
| TimerProofs.ResetKeeps | src/timer/TimerQueue.cc:141-164 | Restarting or deleting the expired timers one by one brings every live timer back into the set |
| TimerProofs.HandleArms | src/timer/TimerQueue.cc:121-164 | A round with an expired timer arms for exactly what is first afterwards |
| TimerProofs.StepArmed | src/timer/TimerQueue.cc:58-164 | Every step keeps the timerfd armed for the earliest timer, or an expiry waiting that it does not outlast, except exactly the rounds that strand |
| TimerSpec.DelayIsExact | src/timer/TimerQueue.cc:71-96 | Seconds and nanoseconds under truncating division add up to the time that is left in nanoseconds, at least 100 microseconds, and form a valid timespec |
| TimerQueue.LoopTimers.AddTimerInLoop | src/timer/TimerQueue.cc:58-68 | Adding on the objects refines the value-level step, arming included |
| TimerQueue.LoopTimers.GetExpired | src/timer/TimerQueue.cc:109-119 | The due entries are returned and erased, and nothing else changes |
| TimerQueue.LoopTimers.HandleRead | src/timer/TimerQueue.cc:121-139 | A whole round on the timer objects, with an expiry possible between its two readings, before each callback and before each restart, refines the value-level round |
| TimerQueue.LoopTimers.ResetExpired | src/timer/TimerQueue.cc:141-164 | The loop over the expired entries restarts or deletes each timer and arms after each |
| TimerQueue.TimerObject.Restart | src/timer/Timer.cc:3-14 | A repeating timer is due one interval after now; another loses its expiration |
| Buffers.RoomExactly | src/net/Buffer.h:105-112 | After ensuring room for a length, that room is there if and only if the length survives the conversion to int in the way the branch needs |
| Buffers.FourGigabytesDoNotFit | src/net/Buffer.h:168-188 | A fresh buffer asked for 4 GiB compacts and has no room |
| Buffers.CompactMovesForward | src/net/Buffer.h:168-188 | For every length below 2 GiB the compacting branch is reached only with readable bytes behind their final place, and leaves the room asked for; with nothing read yet it is reached if and only if the length as an int is from -8 to the free room |
| Buffers.FindCRLFEnds | src/net/Buffer.h:133-138 | What is found is the first CRLF, inside the readable bytes, and nothing is found only if there is none |
| Buffers.Buffer.MoveToFront | src/net/Buffer.h:179-187 | Copying upwards byte by byte over an overlapping range keeps the readable bytes |
| Buffers.Buffer.MakeSpace | src/net/Buffer.h:168-188 | Either branch keeps the readable bytes and makes the room |
| Buffers.Buffer.Append | src/net/Buffer.h:126-131 | The bytes join the queue at its end |
| Buffers.Buffer.Retrieve | src/net/Buffer.h:58-71 | The first bytes leave the queue, all of them when more are asked for |
| Buffers.Buffer.RetrieveAsString | src/net/Buffer.h:95-102 | What is returned, followed by what remains, is what there was; when more is asked for, what there was comes first and nothing remains |
| Buffers.Buffer.ReadFd | src/net/Buffer.cc:18-62 | What arrived joins the queue in order, across the overflow array |
| HttpProofs.Fragmentation | src/http/HttpContext.cc:57-125 | Parsing a text and then the rest with more bytes behind it ends where parsing all at once ends, in state, request and unread bytes, for every cut and every state; a completed request leaves later bytes unread |
| HttpProofs.FeedIsParse | src/http/HttpContext.cc:57-125 | A text fed to a fresh parser in any number of pieces ends where parsing it at once ends |
| HttpProofs.RejectedTwice | src/http/HttpContext.cc:5-54 | A rejected request line, parsed again, is rejected again and sets the same fields |
| HttpProofs.PrintParses | src/http/HttpContext.cc:5-125 | A request printed as sections 3.1.1 and 3.2 of RFC 7230 define it parses back to exactly its fields, with the bytes behind it left unread |
| HttpProofs.PrintFeeds | src/http/HttpContext.cc:57-125 | A printed request that arrives in any pieces is parsed back to exactly its fields |
| HttpProofs.RequestLineParses | src/http/HttpContext.cc:5-54 | Method, path, query with its question mark, and version are read back from their printed line |
| HttpProofs.FieldLineParses | src/http/HttpRequest.h:107-123 | Name and value are read back from a printed field, without the whitespace around the value |
| HttpProofs.LastValueWins | src/http/HttpRequest.h:122 | Of several fields with one name the last value is kept |
| HttpProofs.DistinctNames | src/http/HttpRequest.h:107-135 | With distinct names the parsed table holds exactly the printed fields |
| HttpProofs.ColonlessLineEnds | src/http/HttpContext.cc:98-111 | A line ends the headers if and only if it has no colon |
| HttpLanguage.LanguageExactly | src/http/HttpContext.cc:57-125 | A text takes a fresh parser to a complete request if and only if it is a valid request line, lines with a colon, a line without one, and anything behind |
| HttpLanguage.LanguageFeeds | src/http/HttpContext.cc:57-125 | The same holds of a text that arrives in any pieces |
| HttpLanguage.AcceptedParses | src/http/HttpContext.cc:57-125 | Of such a text exactly what is behind is left unread, and the table is made of its header lines in order |
| HttpLanguage.RequestLineExactly | src/http/HttpContext.cc:5-54 | A request line is accepted if and only if it is one of five methods, a target without spaces and one of two versions, separated by single spaces |
| HttpLanguage.RequestLineReads | src/http/HttpContext.cc:5-54 | An accepted line sets the method it names, the path and query of its target and its version, and nothing else |
| HttpLanguage.HeaderReads | src/http/HttpRequest.h:107-123 | A header is stored under the text before its first colon, with the text behind it without the blanks around, and no other header changes |
| HttpLanguage.FirstCallExactly | src/http/HttpContext.cc:57-125 | A first call returns true if and only if the text starts with a valid request line and its CRLF |
| HttpLanguage.FirstCallRejects | src/http/HttpContext.cc:72-84 | A first call on any other complete line returns false, leaves everything unread and still expects a request line |
| HttpProofs.ParseConsumes | src/http/HttpContext.cc:61-123 | A completed parse has consumed at least one byte |
| HttpContext.HttpContext.ParseRequest | src/http/HttpContext.cc:57-125 | The loop over the input buffer ends, and leaves state, request, buffer and result as the parse of its bytes |
| HttpContext.HttpContext.ProcessRequestLine | src/http/HttpContext.cc:5-54 | The request line sets the fields that the value-level reading gives, also when it is rejected |
| HttpContext.HttpRequest.SetMethod | src/http/HttpRequest.h:27-56 | The five methods are recognised and everything else is invalid |
| HttpContext.HttpRequest.AddHeader | src/http/HttpRequest.h:107-123 | The two trimming loops store the value without surrounding whitespace under its name |
| HttpContext.HttpContext.Reset | src/http/HttpContext.h:30-39 | The context is as new |
| LogStream.DecimalReads | src/logger/LogStream.cc:8-32 | The decimal reads back to its number, has no leading zero, and a sign exactly for negative numbers |
| LogStream.DecimalFits | src/logger/LogStream.cc:10 | Twenty characters are enough for every 64-bit number, signed or not, the least included |
| LogStream.TableDigit | src/logger/LogStream.cc:14-21 | Truncating remainders of either sign index the table in range and give the digit |
| LogStream.BackwardsReads | src/logger/LogStream.cc:18-29 | The digits written last to first read back to the number once reversed |
| LogStream.ReversedAt | src/logger/LogStream.cc:29 | Reversal takes each position to its mirror |
| LogStream.ReverseRange | src/logger/LogStream.cc:29 | In-place reversal of a range reverses it and keeps what is before it |
| LogStream.WriteDigits | src/logger/LogStream.cc:18-22 | The loop writes the digits last to first behind the text in the buffer |
| LogStream.FormatInteger | src/logger/LogStream.cc:7-32 | The decimal of any 64-bit number is appended if the buffer has 48 bytes left, and nothing otherwise |
| FixedBuffers.FixedBuffer.Append | src/logger/FixedBuffer.h:22-29 | A text is appended exactly when it leaves at least one byte free |
| AsyncLoggingSpec.LogIsConserved | src/logger/AsyncLogging.cc:25-117 | Over all interleavings no null pointer or empty vector is used, no buffer has two owners, and the bytes written, being written, queued and being filled are together all lines shorter than a buffer, in order |
| AsyncLoggingSpec.StepKeeps | src/logger/AsyncLogging.cc:25-117 | Each locked section, the writing section and a stop keep pointers, ownership and bytes in order |
| AsyncLoggingSpec.AppendIsExact | src/logger/AsyncLogging.cc:25-51 | A line goes into the current buffer if and only if it leaves room there; otherwise that buffer is queued and the spare or else a new one takes the line, unless it would fill it |
| AsyncLoggingSpec.SwapIsExact | src/logger/AsyncLogging.cc:67-86 | The back end takes all queued buffers and the current one, leaves a fresh one, and replaces the spare exactly if it is gone |
| AsyncLoggingSpec.WriteIsExact | src/logger/AsyncLogging.cc:88-116 | What was taken is written in order, and the back end has two empty buffers again |
| AsyncLoggingSpec.StopEnds | src/logger/AsyncLogging.cc:65-119 | After a stop the back end takes buffers at most once more, writes them, and is done |
| AsyncLoggingSpec.AppendOwners | src/logger/AsyncLogging.cc:25-51 | An append moves buffers without giving one two owners |
| AsyncLoggingSpec.SwapBytes | src/logger/AsyncLogging.cc:67-86 | The exchange keeps every byte in order and leaves the front end a buffer |
| AsyncLoggingSpec.WriteOwners | src/logger/AsyncLogging.cc:94-116 | Both refills find a buffer, and none is given out twice |
| AsyncLogging.AsyncLogging.Append | src/logger/AsyncLogging.cc:25-51 | The object's append is the step of the system and keeps its invariant |
| AsyncLogging.AsyncLogging.Exchange | src/logger/AsyncLogging.cc:67-86 | The locked half of a round is the step of the system: the back end takes all buffers and leaves a fresh one |
| AsyncLogging.AsyncLogging.WriteAndGiveBack | src/logger/AsyncLogging.cc:88-116 | The unlocked half is the step of the system: everything taken is written in order and two buffers are given back |
| AsyncLogging.AsyncLogging.Round | src/logger/AsyncLogging.cc:65-118 | After a round all that was accepted before its lock is in the file, and the lines appended during it are in the buffers, in order |
| ThreadPoolSpec.WorkersDrain | src/base/ThreadPool.cc:40-95 | Over all interleavings tasks are popped once each, in queue order; a task never waits with all workers asleep while the pool runs; once all workers have returned, every task added before stop() has been popped |
| ThreadPoolSpec.StopDrains | src/base/ThreadPool.cc:40-95 | However threads interleave around the first stop(), the workers take a bounded number of steps after it, and when none can take another, all have returned and every task added before it has been popped, in order |
| ThreadPoolSpec.StopIsExact | src/base/ThreadPool.cc:40-45 | From any state a stop ends the running, wakes every worker that waits, and leaves tasks and other workers alone |
| ThreadPoolSpec.AddIsExact | src/base/ThreadPool.cc:53-58 | An added task goes to the end of the queue and wakes one waiting worker if there is any |
| ThreadPoolSpec.EnterIsExact | src/base/ThreadPool.cc:70-84 | A worker under the mutex takes the first task if there is one, and otherwise returns if and only if the pool has been stopped |
| ThreadPoolSpec.WorkersReturn | src/base/ThreadPool.cc:70-89 | After stop() a worker that has not returned can go on, and each step of a worker brings the end nearer |
| ThreadPoolSpec.WorkersTerminate | src/base/ThreadPool.cc:53-89 | After stop(), whatever tasks are still added, by tasks or other threads, the workers take a bounded number of steps, three more per added task, and when none can take another all have returned |
| ThreadPoolSpec.StepKeeps | src/base/ThreadPool.cc:40-89 | Every step of every thread keeps order and liveness of the pool |
| ThreadPool.ThreadPool.Add | src/base/ThreadPool.cc:53-58 | Adding is the step of the system that wakes one waiting worker if there is one |
| ThreadPool.ThreadPool.Stop | src/base/ThreadPool.cc:40-45 | Stopping wakes all that wait |
| ThreadPool.ThreadPool.Enter | src/base/ThreadPool.cc:72-84 | The locked section takes the first task, returns after a stop, or waits |
| ThreadPool.ThreadPool.RunInThread | src/base/ThreadPool.cc:60-95 | Whatever other threads do meanwhile, a worker runs exactly what it pops, waits only while the pool runs without tasks, and returns only when all tasks added so far have been popped in order |

## Left out

- `destroyPool`: it reads a page after freeing it; nothing can be proved of what it does then.
- A failed first `createPool` leaves a null pool, which no other operation tests for; they are modelled on a pool that exists.
- `calloc`: it only adds a `memset` to `malloc`; the contents of user memory are not modelled.
- Buffers.Buffer.Append: asks that the buffer has or makes the room; for the other lengths, which `Buffers.RoomExactly` characterises, the original writes outside its array.
- Buffers.Buffer.MakeSpace: asks for the same; a size beyond what a vector can hold throws in the original.
- Buffers.Buffer.RetrieveAsString: asks that the text ends inside the array, which the original reads beyond otherwise.
- TcpConnection.Connection.SendInLoop: asks that the buffer has or makes room for the part of the data it is to keep, as `Buffers.Buffer.Append` does.
- TcpConnection.Connection.SendBuffer: asks for the same.
- TcpConnection.Connection.Send: calls from the loop's own thread only; a send from another thread keeps a raw pointer to its text, and a shutdown from another thread can overtake it.
- The channel inside a connection is its two interests as booleans; masks and registration are modelled in `Poller`.
- EventLoop.EventLoop.Quit: a quit from another thread does not wake the loop; how long it then takes to stop is not stated.
- EventLoop.EventLoop.Loop: runs for a given number of rounds, since the original need not end; `runInLoop` from the loop's own thread calls the functor directly and is not a member.
- Poller.EPollPoller.Poll: the number of reported events fits an int, as the result of `epoll_wait` does, and the event list is no longer than a vector can be.
- HttpContext.HttpContext.ParseRequest: entry in the two states that make progress; in the others the original loop does not end. The value returned on a resumed call is computed, but only that of a first call is characterised, and `HttpServer` parses every message with a new context, so fragmentation does not carry over to the server.
- HttpProofs.Fragmentation: receive times and the returned value are set aside, since both depend on the call.
- TimerQueue.LoopTimers.HandleRead: times are integers of microseconds; intervals given as doubles and overflow of 64-bit times are not modelled, nor a timer whose address is the largest one. Inside a round the timerfd may expire before each callback and each restart, not between two timers that one callback adds; the arming at the end of such a round covers that case; a new timer never gets the address of an earlier one.
- FixedBuffers.FixedBuffer.Append: `length()` gives the size of the whole array, so the original file also receives the stale bytes behind the part in use; the log's claims are about the parts in use.
- AsyncLogging.AsyncLogging.Append: the buffers behind unique pointers are values with a number each; what is still in the buffers when the log is stopped is not written, and no delivery is claimed for it.
- ThreadPool.ThreadPool.RunInThread: tasks that throw end their worker in the original and are not modelled.
- `EventLoop`, `ThreadPool` and `AsyncLogging` as objects take what other threads do as parameters; the statements over all interleavings are about their step systems.
- Allocation failure and growth of standard containers, which the original does not handle.
- `ConnectionPool`, `MysqlConn`, `LogFile`, `FileUtil`, the logging macros, `Timestamp`, `InetAddress`, `Socket`, `Acceptor`, `EventLoopThreadPool`, `TcpServer` and the HTTP server: calls to other systems, formatting, or thin wrappers.
