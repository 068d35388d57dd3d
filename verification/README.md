# ACPLT/KS: a verified model of its stateful components

ACPLT/KS is a C++ library for communication in process control. This project models the parts of it
that keep state over many calls, and proves what they keep:

- **Connection manager** (`Sequences`, `ConnectionState`, `Connections`, `LinkedList`, `HashIndex`,
  `TimeoutWalk`, `ReadyFds`, `ConnectionManager`). `ConnectionState` is a pure state machine: the three lists, the
  slots, the fd index, the fd sets and the counters. `KssConnectionManager` is the class with the
  intrusive circular lists and the overflow-array hash table; its methods are proved equal, step by step,
  to the pure operations (`Track`, `TrackAll`, `Add`, `Remove`, `Serve`, `Handled`), and the lemmas about
  those hold in every run. What a connection answers is open: sending, receiving, timing out and resetting
  may report any io mode, change the timeout and kill the connection; `calls` records every call with its answer.
- **Memory stream** (`Fragments`, `NetworkOrder`, `MemStream`, `StreamRuns`). The fragment pool and the
  growable byte stream over chains of pooled fragments, which refines a flat sequence of bytes
  (`Contents`, `Unread`). System calls may be short or fail. `StreamRuns` is about scripts of requests and about
  whole runs with any number of streams.
- **Server registry** (`Leases`, `Registries`). `Leases` is the registry as a map that registrations,
  unregistrations and expiries change; `KsManager` is the table of servers and expiry events that point at
  each other, with the timer queue and the `/servers` domain.
- **Timer queue** (`TimerQueue`). The heap that orders events.
- **Wildcard matcher** (`Masks`). `Matches` is the declarative relation; `Loop`, `Star` and `Search` say
  what the code answers, including "forever" and its negative codes; the methods are the code.
- **Connections between servers** (`InterServer`). The automaton that goes from the portmapper to the
  manager and on to the server, over client connections that behave like those of `ks/src/xdrtcpcon.cpp` and
  `ks/src/xdrudpcon.cpp`.
- **Paths and percent coding** (`Conversions`, `StringEncoding`, `Paths`, `PathResolution`).
- **Packages** (`Packages`, `Sorter`): deep iteration, sorting into buckets, the exchange, the results.
- **RPC header** (`RpcHeader`): the codec over the memory stream, as section 9 of RFC 5531 lays it out.

`dafny verify dfyconfig.toml` checks everything. Sockets, the clock and replies from the network are
arbitrary values; the clock never goes backwards, and characters are eight bits wide and signed.

## What was found

These are facts about the source; each is stated and proved by the members named.

- `processConnections` fetches the item of a ready fd a second time for receiving. If the connection died and
  was destroyed while sending, there is none, and a null item is dereferenced
  (`KssConnectionManager.ProcessConnections`). Some answers lead to this exactly if a ready fd is not registered,
  or is ready in both ways and its connection may be destroyed (`ReadyFds.MissingExactly`); such a state can be
  reached (`ReadyFds.GoneBeforeReceiving`). It takes a connection class of the user's: of those in the
  repository only a TCP client asks for both ways, while it connects, and that may not be destroyed
  (`ks/src/xdrtcpcon.cpp:245`, 351-358), so that with them there is always an item
  (`ReadyFds.WatchedServed`).
- `_serviceable_count` is never below the length of the list (`ConnectionState.TrackKeepsInv`), but it comes to
  exceed it, for good, for example when a connection is removed while it waits to be served
  (`ConnectionState.CountTooHigh`; `ConnectionState.CountExactly` says by how much). A connection that wants attention and newly needs a timeout is not on the serviceable list; one that was called to attention
  and keeps needing a timeout is not supervised (`TrackActive`, `TrackServiceable`).
- A percentage above 100 lets `xdrmemstream_freegarbage` run off the free list (`Fragments.GarbageCountSafe`).
- A registration that renews a server keeps the time to live of the first one (`Leases.FirstTimeToLiveStays`).
- A server that renews without any delay stays living in every run exactly if its time to live exceeds ten
  seconds (`Leases.LeaseSafety`); with five or fewer it can be removed (`Leases.PunctualRenewal`,
  `Leases.KnownThreshold`).
- The mask matcher does not advance behind a negated set that matches and never returns
  (`Masks.NegatedSetFails`), nor does it return for a malformed set (`Masks.OpenSetFails`); behind a star an
  escaped bracket, an escaped backslash and a set that ends in a backslash are taken for something else
  (`EscapedBracketFails`, `EscapedBackslashFails`, `BackslashSetFails`). On masks well-formed in this sense it
  is right (`Masks.LoopDecides`). Without escapes, and without stars, it is right for every name exactly if no
  set is malformed or negated, other than behind an empty set (`Masks.PlainExactly`, `Masks.StarFreeExactly`).
- When a datagram to the portmapper or the manager cannot be sent, the UDP connection becomes passive without a
  timeout (`ks/src/xdrudpcon.cpp:452`), and the `open()` that is pending is never told of; nor is it if the
  connection manager does not accept the connection, since the result of `addConnection` is ignored
  (`ks/src/interserver.cpp:130`). In all other cases it can be (`InterServer.LostDatagram`,
  `KssInterKsServerConnection.MayReportExactly`).
- Percent coding loses exactly the strings with characters of 128 or more (`Conversions.DecodeEncode`), and a
  lone `%` at the end makes the decoder write one character behind its buffer (`Conversions.OverrunsBuffer`).
- `findSlashes` skips dots and slashes that belong to the first component: `/.a` reads as `a`, and `/./a`
  is scanned past its end (`Paths.LeadingDots`). This is so exactly for absolute paths whose first component
  starts with a dot (`Paths.WellIndexedExactly`, `Paths.FirstComponentLost`).
- A relative path without context is refused but remains a valid context, so that the next relative path is
  accepted (`PathResolution.StrayAccepted`). `resolvePaths` agrees with the rule exactly if this does not
  happen (`PathResolution.AllAgree`).
- The priority queue finds an element by its time alone, and removing one from the middle can leave the
  heap out of order (`TimerQueue.PriorityQueue.RemoveAt`: exactly when; `TimerQueue.RemovalBreaks`).
- A long that reaches beyond its fragment is written to or read from foreign memory; the positions where it does
  are known (`MemStream.XdrStream.PutsWholeExactly`, `MemStream.XdrStream.GetsWholeExactly`).

## Model

| member | source | states |
|---|---|---|
| LinkedList.Node.AddAfter | ks/src/connectionmgr.cpp:80-84 | the list stays circular, next and prev inverse, and is the old ring with the node behind the given one |
| LinkedList.Node.AddBefore | ks/src/connectionmgr.cpp:70-74 | the same with the node in front of the given one |
| LinkedList.Node.Remove | ks/src/connectionmgr.cpp:90-94 | the node becomes a ring of its own; the others remain one ring in their old order |
| LinkedList.Detach | ks/src/connectionmgr.cpp:90-94 | taking a node off one list leaves every disjoint list a ring |
| LinkedList.Attach | ks/src/connectionmgr.cpp:80-84 | putting a node on one list leaves every disjoint list a ring |
| HashIndex.FdIndex.constructor | ks/src/connectionmgr.cpp:140-152 | a new table is well-formed and represents the empty map |
| HashIndex.FdIndex.TableSize | ks/src/connectionmgr.cpp:145-148 | the table has at least 32 buckets and as many as there are fds, and fewer than twice as many unless 32 |
| HashIndex.FdIndex.Lookup | ks/src/connectionmgr.cpp:771-791 | finds exactly the item that the represented map holds for the fd, or none |
| HashIndex.FdIndex.Reserve | ks/src/connectionmgr.cpp:827-845 | growing an overflow array keeps what is represented and makes room |
| HashIndex.FdIndex.Insert | ks/src/connectionmgr.cpp:846-855 | the represented map gains exactly this fd; no item is ever in two buckets or twice in one |
| HashIndex.FdIndex.Delete | ks/src/connectionmgr.cpp:883-920 | the represented map loses exactly this fd; the later entries of the bucket move down |
| HashIndex.Bucket.Find | ks/src/connectionmgr.cpp:783-791 | the first entry of a bucket for an fd, or that there is none |
| HashIndex.Bucket.RemoveAt | ks/src/connectionmgr.cpp:911-919 | moving the later entries down removes exactly one entry and keeps the order |
| ConnectionState.Place | ks/src/connectionmgr.cpp:257-268 | the scan from the end stops behind the last entry not due later, and all behind it are due later |
| ConnectionState.PlaceUnique | ks/src/connectionmgr.cpp:257-268 | there is only one such place, so any scan that ends properly finds it |
| ConnectionState.TrackActive | ks/src/connectionmgr.cpp:237-281 | for every slot, exactly when it is under timeout supervision after an io mode is tracked |
| ConnectionState.TrackServiceable | ks/src/connectionmgr.cpp:237-281 | for every slot, exactly when it waits to be served after an io mode is tracked |
| ConnectionState.TrackSlots | ks/src/connectionmgr.cpp:206-309 | what tracking writes into slot, fd sets and counters, and that it touches no other slot |
| ConnectionState.TrackKeepsSorted | ks/src/connectionmgr.cpp:251-272 | the timeout list stays sorted by due time, although the item inserted is relinked |
| ConnectionState.TrackKeepsTimeouts | ks/src/connectionmgr.cpp:237-281 | an item is on the timeout list only with a connection whose last io mode needs a timeout |
| ConnectionState.TrackKeepsInv | ks/src/connectionmgr.cpp:190-319 | lists disjoint and without repetition, timeout list sorted, index exact, fd sets equal to the last io modes, and `_serviceable_count` never below the list length: kept for every io mode |
| ConnectionState.FastWriteOnce | ks/src/connectionmgr.cpp:315-318 | the io mode that a fast write leaves cannot ask for another one: recursion is at most two deep |
| ConnectionState.TrackExcess | ks/src/connectionmgr.cpp:237-281 | by exactly how much tracking an io mode makes `_serviceable_count` exceed the list further |
| ConnectionState.ApplyExcess | ks/src/connectionmgr.cpp:190-926 | the same for every operation |
| ConnectionState.CountExactly | ks/src/connectionmgr.cpp:190-926 | in every run the count exceeds the list by the sum of that: from a new manager it is the length exactly if nothing leaks |
| ConnectionState.WaitingLeaks | ks/src/connectionmgr.cpp:897-904 | a connection removed while it waits to be served leaks |
| ConnectionState.CountTooHigh | ks/src/connectionmgr.cpp:897-904 | from every state with a free slot two operations make the count exceed the list by more |
| ConnectionState.TrackAllKeepsCoherent | ks/src/connectionmgr.cpp:190-319 | tracking with its fast write keeps all invariants, the index and who sits in the slot |
| ConnectionState.AddKeepsCoherent | ks/src/connectionmgr.cpp:856-865 | adding keeps all invariants, `_connection_count` equals the index size, and exactly this fd is new |
| ConnectionState.RemoveKeepsCoherent | ks/src/connectionmgr.cpp:897-922 | removing keeps all invariants and the count |
| ConnectionState.ServeKeepsCoherent | ks/src/connectionmgr.cpp:680-691 | taking the next serviceable connection keeps all invariants |
| ConnectionState.HandledKeepsCoherent | ks/src/connectionmgr.cpp:467-485 | following an io mode to its end, with removal or reset of a dead connection, keeps all invariants |
| ConnectionState.HandledIndex | ks/src/connectionmgr.cpp:467-485 | a callback unregisters its own fd exactly if it reports dead and may be destroyed, and no other |
| ConnectionState.EmptyCoherent | ks/src/connectionmgr.cpp:107-154 | the state the constructor leaves has all invariants |
| ConnectionState.ApplyKeepsCoherent | ks/src/connectionmgr.cpp:190-926 | every operation keeps all invariants and the set of slots |
| ConnectionState.Execute | ks/src/connectionmgr.cpp:190-926 | in every run of the manager every state is coherent |
| TimeoutWalk.TrackMoves | ks/src/connectionmgr.cpp:251-281 | tracking moves one item only, and if it is put in anew then to a later time |
| TimeoutWalk.HandledMoves | ks/src/connectionmgr.cpp:391-412 | the same for a whole callback with fast write, removal or reset |
| TimeoutWalk.CursorNext | ks/src/connectionmgr.cpp:384-414 | an expired entry at the walk's cursor is the next not yet served one of the list as it was |
| TimeoutWalk.CursorStep | ks/src/connectionmgr.cpp:384-414 | serving an entry that may be relinked anywhere brings the walk to the entry behind it, and nothing is lost or repeated |
| TimeoutWalk.CursorEnd | ks/src/connectionmgr.cpp:384-414 | where the walk stops, everything not served is due later |
| ConnectionManager.KssConnectionManager.constructor | ks/src/connectionmgr.cpp:107-154 | all slots are on the free list, the other lists and the index are empty, and the invariants hold |
| ConnectionManager.KssConnectionManager.UpdateFdSets | ks/src/connectionmgr.cpp:206-235 | sets and clears the bits that changed, and when a fast write is due |
| ConnectionManager.KssConnectionManager.TrackCnxIoMode | ks/src/connectionmgr.cpp:190-319 | the linked lists, fd sets and slots move as `TrackAll` says, for whatever sending reports; a due time is the time of the call and the timeout of the connection; the connection is called exactly once for a fast write, else not at all |
| ConnectionManager.KssConnectionManager.AddConnection | ks/src/connectionmgr.cpp:805-869 | fails exactly on a registered fd or an exhausted free list, and then changes nothing; otherwise the state is `Add` of the old one for the io mode the connection gives, and the connection is asked for that alone, but for a fast write; due times are those of its timeout |
| ConnectionManager.KssConnectionManager.RemoveConnection | ks/src/connectionmgr.cpp:877-926 | fails exactly on an unregistered fd; otherwise the state is `Remove` of the old one and the connection is told |
| ConnectionManager.KssConnectionManager.LookupConnection | ks/src/connectionmgr.cpp:933-940 | the connection registered for the fd, or null |
| ConnectionManager.KssConnectionManager.GetNextServiceableConnection | ks/src/connectionmgr.cpp:680-691 | null exactly if none waits; otherwise the first one, and the state is `Serve` of the old one |
| ConnectionManager.KssConnectionManager.TrackConnection | ks/src/connectionmgr.cpp:698-729 | no effect if the fd is not registered; else the io mode the connection gives is tracked in the slot registered; a dead connection is removed when that is allowed; what the connection is asked and told thereby; due times are those of its timeout |
| ConnectionManager.KssConnectionManager.ResetConnection | ks/src/connectionmgr.cpp:738-757 | the same for the io mode that resetting it answers; due times are those of its timeout |
| ConnectionManager.KssConnectionManager.Handle | ks/src/connectionmgr.cpp:467-485 | after a callback the state is `Handled` of the old one, and the connection is told exactly what follows: a fast write, its end or its reset; due times are those of its timeout |
| ConnectionManager.KssConnectionManager.GetEarliestTimeout | ks/src/connectionmgr.cpp:339-347 | the minimum due time over all supervised connections |
| ConnectionManager.KssConnectionManager.GetEarliestTimeoutSpan | ks/src/connectionmgr.cpp:354-368 | the least time left over all supervised connections, never negative |
| ConnectionManager.KssConnectionManager.WalkTold | ks/src/connectionmgr.cpp:391-412 | one round of the walk tells exactly one connection, once |
| ConnectionManager.KssConnectionManager.ProcessTimeout | ks/src/connectionmgr.cpp:376-416 | of the entries on the list at entry, exactly those due by now are served, in order; each connection is told exactly once that it has timed out, and no other is called at all; the state is that after all their answers have been followed, and each is told just what follows upon its own |
| ConnectionManager.KssConnectionManager.ServeFd | ks/src/connectionmgr.cpp:448-487 | a ready fd has an item exactly if it is registered; its connection, and no other, sends or receives once, and the state is that after its answer |
| ConnectionManager.KssConnectionManager.ServeReady | ks/src/connectionmgr.cpp:443-489 | in ascending order every connection whose fd is ready sends or receives exactly once, up to the first fd that has none; the state is that after all their answers, and each is told just what follows upon its own |
| ConnectionManager.KssConnectionManager.ProcessConnections | ks/src/connectionmgr.cpp:425-536 | every connection ready for it sends once, then every one ready for it receives once; the whole state after, and every call to every connection; a null item is met exactly if a ready fd was not registered, or was ready in both ways and its connection was destroyed after sending; never if no fd is endangered; otherwise the result is the serviceable count, no less than the list; due times are those of the timeouts answered |
| ReadyFds.ThroughLoses | ks/src/connectionmgr.cpp:443-489 | a round unregisters exactly the ready fds whose connections report dead and may be destroyed, and disturbs no slot that is not served |
| ReadyFds.StopsMissing | ks/src/connectionmgr.cpp:443-535 | the two loops meet a null item exactly if a ready fd has no connection when it is its turn |
| ReadyFds.MissingExactly | ks/src/connectionmgr.cpp:443-535 | some answers lead to a null item if and only if a ready fd is not registered, or is ready in both ways with a connection that may be destroyed |
| ReadyFds.WatchedServed | ks/src/connectionmgr.cpp:324-329 | no null item if only what is watched is ready and no connection that may be destroyed asks for both ways at once |
| ReadyFds.GoneBeforeReceiving | ks/src/connectionmgr.cpp:467-535 | from every state with a free slot: a connection added that asks for both ways, may be destroyed and reports dead when it sends is gone before it can receive |
| Connections.FollowUpExactly | ks/src/connectionmgr.cpp:467-485 | a connection is shut down exactly if it answers that it is dead and may be destroyed, reset exactly if it may not |
| ReadyFds.ServedOnce | ks/src/connectionmgr.cpp:391-412 | nothing that follows upon a timeout tells the connection of another |
| ReadyFds.PlayedRest | ks/src/connectionmgr.cpp:384-414 | what has not been served keeps its slot as it was |
| ReadyFds.RoundFirst | ks/src/connectionmgr.cpp:443-535 | a ready connection is told to send in the first round and to receive in the second, once, and before anything else |
| ConnectionState.LastCalledFirst | ks/src/connectionmgr.cpp:237-246 | what was called to attention last is served first; the others keep their order |
| ConnectionState.FastWriteExactly | ks/src/connectionmgr.cpp:220-235 | sending is tried at once exactly if the fd enters the set of those to write to and the connection does not object |
| ConnectionState.HandledMode | ks/src/connectionmgr.cpp:467-485 | which io mode a slot remembers after an answer; a slot left empty is out of all sets and used next |
| ConnectionState.AddedSlot | ks/src/connectionmgr.cpp:856-865 | a connection added takes the first free slot, and no other slot changes |
| ConnectionState.HandledSlots | ks/src/connectionmgr.cpp:467-485 | following an answer to its end writes into no other slot |
| ConnectionState.TrackAllSlots | ks/src/connectionmgr.cpp:190-319 | tracking with its fast write writes into one slot, where the last io mode reported is remembered |
| Fragments.TotalUpdate | ks/src/xdrmemstream.cpp:180-244 | moving one fragment in or out of a stream moves the sum of all streams by exactly one |
| Fragments.FragmentPool.ControlUsage | ks/src/xdrmemstream.cpp:154-173 | the fragment size changes only while no fragment exists; refused calls change nothing; an accepted one sets all limits, and the ceiling is then the quota, or the count if that is more |
| Fragments.FragmentPool.Obtain | ks/src/xdrmemstream.cpp:180-217 | fails exactly if the free list is empty and the quota used up; otherwise takes the first free one or makes a new one within the quota; total count = free + sum over the streams |
| Fragments.FragmentPool.Release | ks/src/xdrmemstream.cpp:237-244 | the fragment returns to the front of the free list, and the sum is kept |
| Fragments.FragmentPool.FreeGarbage | ks/src/xdrmemstream.cpp:251-268 | exactly the computed number of fragments leaves the free list, from its front; if there are fewer, all do, and the null behind the last one is taken for another |
| Fragments.GarbageCountWithin | ks/src/xdrmemstream.cpp:255-262 | with a percentage up to 100 no more than the free ones are freed, and at least one above the watermark |
| Fragments.GarbageCountSafe | ks/src/xdrmemstream.cpp:255-262 | the number to free is always within the free list if and only if the percentage is at most 100 |
| Fragments.GarbageCountExactly | ks/src/xdrmemstream.cpp:255-262 | the share of the surplus in 32 bits, rounded down; all of the surplus if that is nothing |
| NetworkOrder.HostNetwork | ks/src/xdrmemstream.cpp:660-692 | a long put in network order and got again is the same |
| NetworkOrder.NetworkHost | ks/src/xdrmemstream.cpp:660-692 | four bytes got as a long and put again are the same |
| NetworkOrder.NetworkBigEndian | ks/src/xdrmemstream.cpp:672-702 | a long is put with its most significant byte first, as its two's complement |
| NetworkOrder.HostBigEndian | ks/src/xdrmemstream.cpp:647-666 | four bytes are got with the most significant one first |
| NetworkOrder.OneInteger | ks/src/xdrmemstream.cpp:647-702 | four bytes stand for one long only |
| MemStream.FlatAppend | ks/src/xdrmemstream.cpp:712-768 | the bytes of two chains behind one another are their bytes behind one another |
| MemStream.XdrStream.Create | ks/src/xdrmemstream.cpp:425-468 | fails exactly if the pool has no fragment to give; otherwise an empty stream with one fragment |
| MemStream.XdrStream.Extend | ks/src/xdrmemstream.cpp:180-230 | another fragment is linked in exactly if one is to be had; the contents stay |
| MemStream.XdrStream.Advance | ks/src/xdrmemstream.cpp:277-298 | the read cursor goes on exactly if bytes are left, and skips none |
| MemStream.XdrStream.PutBytes | ks/src/xdrmemstream.cpp:741-768 | succeeds exactly if the bytes fit; the contents gain them all, or exactly as many as fit |
| MemStream.XdrStream.PutLong | ks/src/xdrmemstream.cpp:672-702 | succeeds exactly if four bytes fit, and appends the long in network order (`NetworkOrder.NetworkBigEndian`); it must not reach beyond its fragment |
| MemStream.XdrStream.PutsWholeExactly | ks/src/xdrmemstream.cpp:672-702 | whether it does is decided by the number of bytes written and the fragment size |
| MemStream.XdrStream.PutsAligned | ks/src/xdrmemstream.cpp:672-702 | at multiples of four with a fragment size divisible by four it never does |
| MemStream.XdrStream.GetBytes | ks/src/xdrmemstream.cpp:712-734 | succeeds exactly if as many are left; takes them off the front of what is unread |
| MemStream.XdrStream.GetLong | ks/src/xdrmemstream.cpp:647-666 | succeeds exactly if bytes are left; takes four off the front, the most significant first (`NetworkOrder.HostBigEndian`); they must lie in one fragment |
| MemStream.XdrStream.GetsWholeExactly | ks/src/xdrmemstream.cpp:647-666 | whether they do is decided by the numbers of bytes read and left and the fragment size |
| MemStream.XdrStream.GetsAligned | ks/src/xdrmemstream.cpp:647-666 | at multiples of four with a fragment size divisible by four they always do |
| MemStream.XdrStream.ReadFromFd | ks/src/xdrmemstream.cpp:791-909 | whatever the system calls do, every byte received is appended once, also on failure; each call but the last was complete, and it stops short exactly for lack of room or as the last call answered |
| MemStream.XdrStream.WriteToFd | ks/src/xdrmemstream.cpp:931-1060 | whatever the system calls do, the bytes sent are the next unread ones, none lost or repeated; each call but the last was complete, and it stops short exactly for lack of bytes or as the last call answered |
| MemStream.TransferMore | ks/src/xdrmemstream.cpp:791-1060 | one more round of a transfer: it goes on only after a complete call, and ends with the result of the last one, or without memory |
| MemStream.XdrStream.EncodedLength | ks/src/xdrmemstream.cpp:507-532 | while encoding, the bytes written are the fragment count times the size less what is left in the last |
| MemStream.XdrStream.Rewind | ks/src/xdrmemstream.cpp:507-532 | rewinding to decode keeps the bytes and starts at the first; `length` is their number in 32 bits; rewinding to encode clears |
| MemStream.XdrStream.Clear | ks/src/xdrmemstream.cpp:478-501 | all fragments but the first go back to the pool, and the stream is empty |
| MemStream.XdrStream.Destroy | ks/src/xdrmemstream.cpp:594-606 | all fragments go back to the pool |
| StreamRuns.ChainsApart | ks/src/xdrmemstream.cpp:425-606 | chains of different streams and the free list share no fragment |
| StreamRuns.Conservation | ks/src/xdrmemstream.cpp:180-244 | total count = free count + sum of the chain lengths, free-list length = free count, and never more than the quota or the count when it was set |
| StreamRuns.TotalChains | ks/src/xdrmemstream.cpp:180-244 | the pool's account of live fragments is the sum over the streams |
| StreamRuns.Perform | ks/src/xdrmemstream.cpp:425-1060 | what every request does to the flat contents and to the file descriptor, which system calls it makes, and what it returns, for a transfer too |
| StreamRuns.PerformAmong | ks/src/xdrmemstream.cpp:425-1060 | the same among other streams: all stay in order, and the others keep what they hold and have unread |
| StreamRuns.CreateAmong | ks/src/xdrmemstream.cpp:425-468 | a stream is made exactly if there is a fragment for it; the world stays in order and the other streams as they are |
| StreamRuns.DestroyAmong | ks/src/xdrmemstream.cpp:594-606 | a stream is given up; the world stays in order and the other streams as they are |
| StreamRuns.CollectAmong | ks/src/xdrmemstream.cpp:251-268 | garbage collection leaves the world in order and all streams as they are; it is sound exactly if it wants no more than are free |
| StreamRuns.ControlAmong | ks/src/xdrmemstream.cpp:154-173 | setting the limits leaves the world in order and all streams as they are |
| StreamRuns.NoStreams | ks/src/xdrmemstream.cpp:154-173 | while no fragment exists there is no stream, so the fragment size never changes under one |
| StreamRuns.AllowedExactly | ks/src/xdrmemstream.cpp:647-768 | which requests a stream can take is decided by its flat view |
| StreamRuns.Act | ks/src/xdrmemstream.cpp:121-606 | one move of any kind: what it does to the flat view of all streams and to the counts, what passes the file descriptor and by which calls |
| StreamRuns.Run | ks/src/xdrmemstream.cpp:121-606 | every run from a new pool, any interleaving of making, giving up and using streams, collecting and setting limits, is step by step a run of the flat view; in every state fragments are conserved, and never more than the largest quota so far |
| StreamRuns.WithinQuota | ks/src/xdrmemstream.cpp:200-204 | if the quota is set once, there are never more fragments |
| StreamRuns.WriteAll | ks/src/xdrmemstream.cpp:672-909 | the contents are the bytes of the requests in order, those received from the file descriptor among them; all are done, or the last one failed, and this exactly for lack of space, an integer across fragments, or a system call |
| StreamRuns.ReadAll | ks/src/xdrmemstream.cpp:647-1060 | the answers returned and the bytes sent to the file descriptor are taken off the front in order; all are done, or the last one failed, and this exactly for lack of bytes, an integer across fragments, or a system call |
| StreamRuns.Echo | ks/src/xdrmemstream.cpp:507-1060 | for every chunking the bytes and integers returned, and those sent to the file descriptor, are the ones put, or received from it, in order, up to the first request that fails, for its reason; no other system calls are made; `length` equals the bytes written |
| StreamRuns.ServedExactly | ks/src/xdrmemstream.cpp:647-768 | without file descriptors a script is done if and only if every request finds the space or bytes it asks for |
| StreamRuns.ReturnedExactly | ks/src/xdrmemstream.cpp:647-768 | so writing and reading back succeed if and only if all pieces fit |
| StreamRuns.RoundTrip | ks/src/xdrmemstream.cpp:425-1060 | the same from creation to destruction, after which every fragment is back; without file descriptors success is decided by pool and scripts alone |
| Leases.RunsKeepProper | ks/src/manager.cpp:786-1035 | in every run the table holds only registrable servers |
| Leases.LivingLeaves | ks/src/manager.cpp:803-1035 | a living server leaves only by unregistering or by two consecutive expiries with no registration between |
| Leases.DeadLeaves | ks/src/manager.cpp:995-1035 | a dead one leaves also by one expiry that no registration precedes |
| Leases.Survives | ks/src/manager.cpp:995-1035 | without any event of its own before its deadline a server stays |
| Leases.FirstTimeToLiveStays | ks/src/manager.cpp:822-830 | registering again does not change the time to live |
| Leases.LastRegistration | ks/src/manager.cpp:819-850 | after the last registration of a server it is known, if at all, under that port and until that time, whatever else happens |
| Leases.JustRegistered | ks/src/manager.cpp:803-850 | directly after a registration the server is living for the time asked for, and no other has changed |
| Leases.JustWithdrawn | ks/src/manager.cpp:893-922 | a withdrawal takes out this server and no other, but never the manager |
| Leases.JustExpired | ks/src/manager.cpp:995-1035 | an expiry marks a living server dead for another time to live, takes out a dead one, and concerns no other |
| Leases.UnknownStays | ks/src/manager.cpp:803-1035 | a server never registered is unknown in every run |
| Leases.NameCharacters | ks/src/manager.cpp:786-800 | names hold digits, letters and underscores |
| Leases.RenewedStaysLiving | ks/src/manager.cpp:803-887 | renewed with gaps below the time to live, a server is living in every reachable state |
| Leases.LivingThreshold | ks/src/manager.cpp:803-887 | gaps guarantee that exactly if they are below the time to live |
| Leases.RenewedStaysKnown | ks/src/manager.cpp:995-1035 | renewed with gaps below twice the time to live, a server stays registered |
| Leases.KnownThreshold | ks/src/manager.cpp:995-1035 | gaps guarantee that exactly if they are below twice the time to live |
| Leases.PunctualRenewal | ks/src/server.cpp:214-236 | the renewal delay is below the time to live exactly if that exceeds the minimum, and below twice exactly if it exceeds five |
| Leases.RenewalDelayIs | ks/src/server.cpp:214-236 | three quarters of the time to live, rounded down by quarters, but at least ten seconds, and ten after a failure |
| Leases.LeaseSafety | ks/src/server.cpp:209-242 | with punctual renewals the server is living in every state of every run if and only if its time to live exceeds the minimum |
| Leases.FailuresTolerated | ks/src/server.cpp:209-242 | the gap that failed renewals leave, and how many a server outlives |
| Registries.KsManager.constructor | ks/src/manager.cpp:281-397 | the registry starts empty |
| Registries.KsManager.RegisterServer | ks/src/manager.cpp:786-888 | refuses exactly improper names and versions; the registry is `Registered` of the old one; table, domain and timer queue agree |
| Registries.KsManager.Renew | ks/src/manager.cpp:819-850 | the new event is the active one of the entry, the old one is inactive, every other entry stays |
| Registries.KsManager.UnregisterServer | ks/src/manager.cpp:893-922 | which result exactly; the registry is `Unregistered` of the old one |
| Registries.KsManager.RemoveServer | ks/src/manager.cpp:1149-1188 | table and domain lose exactly this server, and its event becomes inactive |
| Registries.KsManager.Trigger | ks/src/manager.cpp:995-1035 | an inactive event does nothing; the active one marks its server dead and is queued again, or removes it |
| Registries.KsManager.ServePendingEvents | ks/src/manager.cpp:995-1035 | an event is served exactly if one is due, and then the one due first: an active one is a possible expiry, an inactive one only leaves the queue |
| Registries.KsManager.GetServer | ks/src/manager.cpp:932-987 | the match of the highest version, or unknown exactly if none matches; the manager itself always |
| Registries.Play | ks/src/manager.cpp:786-1035 | every run of the manager is a run of the registry: its requests in order, with possible expiries between them |
| Registries.Consult | ks/src/manager.cpp:786-987 | after a registration and anything else that concerns other servers, the manager answers with the port and the lease last asked for |
| Registries.NodeAdded | ks/src/manager.cpp:855-885 | the domain then mirrors the table with the server |
| Registries.NodeRemoved | ks/src/manager.cpp:1149-1188 | the domain then mirrors the table without the server; a name goes with its last version |
| Registries.ReregisterServerEvent.Trigger | ks/src/server.cpp:209-242 | the renewal is queued again unless the server goes down, at the computed time, before the lease ends if it worked |
| TimerQueue.TopIsFirst | plt/include/plt/priorityqueue_impl.h:86-108 | in a heap nothing is due before the top |
| TimerQueue.RiseStep | plt/include/plt/priorityqueue_impl.h:214-242 | one step up keeps the order but for the element on its way |
| TimerQueue.SinkStep | plt/include/plt/priorityqueue_impl.h:186-208 | one step down keeps the order but for the element on its way |
| TimerQueue.PriorityQueue.Add | plt/include/plt/priorityqueue_impl.h:214-242 | the heap stays in order and holds one element more |
| TimerQueue.PriorityQueue.RemoveFirst | plt/include/plt/priorityqueue_impl.h:246-262 | takes out a first element; the heap stays in order |
| TimerQueue.PriorityQueue.Locate | plt/include/plt/priorityqueue_impl.h:115-148 | finds an element of that time in the subtree exactly if there is one |
| TimerQueue.PriorityQueue.Remove | plt/include/plt/priorityqueue_impl.h:266-288 | succeeds exactly if an element of that time is there, also if the queue is empty, takes one such out, and whether the heap is in order then |
| TimerQueue.PriorityQueue.RemoveAt | plt/include/plt/priorityqueue_impl.h:266-288 | the heap is in order afterwards if and only if the last element is not due before the parent of the one removed |
| TimerQueue.RemovalBreaks | plt/include/plt/priorityqueue_impl.h:266-288 | removing an element whose parent is due after the last one leaves no heap |
| TimerQueue.RemovalCanFail | plt/include/plt/priorityqueue_impl.h:266-288 | there is a heap with such an element |
| Masks.Set | ks/src/mask.cpp:75-293 | for all masks and names: the answer of a set and where both cursors stand then |
| Masks.InRangeExactly | ks/src/mask.cpp:75-293 | a range holds what stands between its ends; from one case to the other it goes through the end of the first alphabet |
| Masks.LiteralMatches | ks/src/mask.cpp:41-60 | a mask without special characters matches itself only |
| Masks.StarBetween | ks/src/mask.cpp:310-360 | a start, a star and an end match the names that start and end so without an overlap |
| Masks.ListMatches | ks/src/mask.cpp:75-293 | a list in brackets matches one of its characters, with a caret one other character |
| Masks.RangeMatches | ks/src/mask.cpp:75-293 | so does a range |
| Masks.MatchesFirst | ks/src/mask.cpp:41-360 | what a question mark, a star and a backslash stand for |
| Masks.NeededAtMost | ks/src/mask.cpp:310-335 | a rest of the mask matches only what has at least as many characters as it needs |
| Masks.CountNeeded | ks/src/mask.cpp:305-331 | the pruning bound counts exactly the characters the rest needs |
| Masks.LengthOfRest | ks/src/mask.cpp:305-331 | the loop that counts computes that bound |
| Masks.LoopDecides | ks/src/mask.cpp:40-71 | for well-formed masks the matcher answers, and answers 1 exactly if the declarative relation holds |
| Masks.StarDecides | ks/src/mask.cpp:297-353 | behind a star it answers 1 exactly if some rest of the name matches |
| Masks.SearchDecides | ks/src/mask.cpp:327-353 | the search from the right with its bound misses no match |
| Masks.MLoop | ks/src/mask.cpp:40-71 | the loop answers, for all masks, what the verdict function says |
| Masks.Joker | ks/src/mask.cpp:297-353 | so does the treatment of a star |
| Masks.SearchBack | ks/src/mask.cpp:327-353 | so does the search from the right |
| Masks.MatchesMask | ks/src/mask.cpp:32-36 | the whole matcher decides the declarative relation on every well-formed mask |
| Masks.PlainWellFormed | ks/src/mask.cpp:40-71 | a mask without escapes and with proper positive sets is well-formed |
| Masks.StarFree | ks/src/mask.cpp:40-71 | without a star the matcher is right or never returns, and it never returns at a set that does not advance |
| Masks.StarFreeExactly | ks/src/mask.cpp:40-71 | a mask without stars is decided rightly for every name if and only if no set in it is malformed or negated, other than behind an empty set |
| Masks.PlainExactly | ks/src/mask.cpp:40-353 | a mask without escapes, stars and all, is decided rightly for every name if and only if no set in it is malformed or negated, other than behind an empty set |
| Masks.BlockedLoop | ks/src/mask.cpp:40-353 | behind an empty set nothing goes wrong any more: the answer is zero |
| Masks.NegatedForever | ks/src/mask.cpp:40-353 | where a negated set is reached, a name for which the matcher never returns |
| Masks.MalformedAnswers | ks/src/mask.cpp:40-353 | where a malformed set is reached, a name for which the answer is not zero, although nothing matches |
| Masks.SafeDecides | ks/src/mask.cpp:40-71 | the right answer without stars, from every position of mask and name |
| Masks.UnsafeForever | ks/src/mask.cpp:40-71 | without stars, escapes and all, a name for which the matcher never returns |
| Masks.NegatedSetFails | ks/src/mask.cpp:264-288 | a negated set that matches makes the matcher run forever |
| Masks.OpenSetFails | ks/src/mask.cpp:49-53 | so does a set that is not closed |
| Masks.EscapedBracketFails | ks/src/mask.cpp:332-351 | a match missed behind a star because an escaped bracket is taken for a set |
| Masks.EscapedBackslashFails | ks/src/mask.cpp:321-340 | a match missed behind a star because of an escaped backslash |
| Masks.BackslashSetFails | ks/src/mask.cpp:321-350 | a match missed because a set ends in a backslash |
| InterServer.KssInterKsServerConnection.Open | ks/src/interserver.cpp:160-227 | accepted exactly when closed, the host known and a socket to be had; at which stage it starts, and nine more reports at the most until the user is told |
| InterServer.KssInterKsServerConnection.Close | ks/src/interserver.cpp:234-237 | closed, no connection owned; a pending open counts as withdrawn |
| InterServer.KssInterKsServerConnection.CloseConnection | ks/src/interserver.cpp:140-151 | the connection is shut down and given up, which is remembered |
| InterServer.KssInterKsServerConnection.BeginSend | ks/src/interserver.cpp:272-290 | succeeds exactly when open and the request can be built; the result otherwise |
| InterServer.KssInterKsServerConnection.EndSend | ks/src/interserver.cpp:297-314 | succeeds exactly if open and under control of the connection manager, then busy with a request on its way; the result otherwise |
| InterServer.KssInterKsServerConnection.GetProtocolVersion | ks/src/interserver.cpp:257-262 | a version within its bounds exactly when open |
| InterServer.KssInterKsServerConnection.AtPortmapper | ks/src/interserver.cpp:687-781 | every report at the portmapper makes the move `Next` says, which is progress, or ends in the error it says; which error for which reply, case by case |
| InterServer.KssInterKsServerConnection.AtManager | ks/src/interserver.cpp:783-898 | so does every report at the manager, also when it steps the protocol version down; which error for which reply, case by case |
| InterServer.KssInterKsServerConnection.AskAgain | ks/src/interserver.cpp:860-879 | the version goes down by one; the manager is asked again, itself or by way of the portmapper, exactly if that is not below the minimum |
| InterServer.NextDescends | ks/src/interserver.cpp:685-898 | the lexicographic measure: a move leads to an older version or a later stage, and to the server only when it was found |
| InterServer.ToldExactly | ks/src/interserver.cpp:598-956 | which result the user is told when: that it worked only of an established connection to the server; no manager, unknown server, network error and general error each exactly in their cases |
| InterServer.AfterExactly | ks/src/interserver.cpp:598-683 | how a watched connection comes to be established, to have sent, to have an answer, and to have failed |
| InterServer.KssInterKsServerConnection.Serve | ks/src/interserver.cpp:160-375 | what each call of the user makes of the whole automaton, as `Requested` says; the user is told of nothing thereby |
| InterServer.KssInterKsServerConnection.AsyncAttention | ks/src/interserver.cpp:915-932 | whatever the user asks for when told, the automaton stays consistent and is then as the requests leave it; an open notification is one for the pending open |
| InterServer.KssInterKsServerConnection.Fail | ks/src/interserver.cpp:653-683 | a connection that failed is given up, and told of as a call result only if it had failed with a request at the server |
| InterServer.KssInterKsServerConnection.Succeed | ks/src/interserver.cpp:900-932 | at the server an established connection opens, an answer ends the call; the manager goes on watching exactly if the user has not closed meanwhile |
| InterServer.KssInterKsServerConnection.Proceed | ks/src/interserver.cpp:685-898 | at portmapper and manager a report makes the move `Next` says, or ends the open with the error it says |
| InterServer.KssInterKsServerConnection.Attention | ks/src/interserver.cpp:598-956 | the whole new state of the automaton, what the user is told in each state and whether the connection passed in is watched on, exactly; an open notification exactly for a pending open; silence only with progress |
| InterServer.KssInterKsServerConnection.Undergo | ks/src/interserver.cpp:598-956 | one event of the network or one report: the new state and what is told, exactly; a report that tells nothing is progress |
| InterServer.KssInterKsServerConnection.Establish | ks/src/interserver.cpp:598-956 | in every course of events and replies the automaton goes through exactly the states of `Established`; a pending open is told of at most once, as the last of the reports, which are never more than the measure allows; until it is told every report is progress |
| InterServer.KssInterKsServerConnection.Live | ks/src/interserver.cpp:160-956 | in every course of the whole life, with the user free to open, close and send, the automaton ends in exactly the state and with exactly the notices of `Lived`, and there are as many open notifications as accepted opens that were neither withdrawn nor are pending |
| InterServer.KssInterKsServerConnection.MayReportExactly | ks/src/interserver.cpp:126-133 | a pending open can still be told of exactly if the connection manager has accepted the connection and no datagram was lost |
| InterServer.CallsExactly | ks/src/interserver.cpp:598-683 | a connection can still come to call for attention exactly if it is not passive |
| InterServer.NeverDies | ks/src/interserver.cpp:653-683 | no event and no reset makes a client connection dead |
| InterServer.LostDatagram | ks/src/interserver.cpp:666-672 | a datagram that cannot be sent makes the connection passive |
| Conversions.PercentRoundTrip | ks/src/conversions.cpp:32-50 | an escape decodes to the character it stands for if and only if that is below 128 |
| Conversions.PercentDigits | ks/src/conversions.cpp:32-50 | the digits of an escape, most significant first and in upper case, also where they come out wrong |
| Conversions.DigitsPercent | ks/src/conversions.cpp:130-160 | two digits in either case stand for sixteen times the first and the second |
| Conversions.KeptExactly | ks/src/conversions.cpp:54-131 | letters, digits and underscores are copied, in paths slashes and dots, and nothing else |
| Conversions.ToPercentsAppend | ks/src/conversions.cpp:54-131 | encoding goes character by character |
| Conversions.DecodedEscape | ks/src/conversions.cpp:166-222 | decoding goes escape by escape |
| Conversions.ToPercentsLength | ks/src/conversions.cpp:54-91 | encoding grows the string by two for each character counted: the buffer is exactly filled |
| Conversions.StringToPercent | ks/src/conversions.cpp:54-91 | the two passes give the encoding, for names and for paths |
| Conversions.NothingToConvert | ks/src/conversions.cpp:54-91 | the string returned as it is, when nothing is to convert, is its encoding |
| Conversions.DecodeEncode | ks/src/conversions.cpp:166-222 | decoding an encoded string gives the string if and only if all its characters are below 128 |
| Conversions.DecodedLength | ks/src/conversions.cpp:166-222 | the decoded length is that of the string less two for each escape |
| Conversions.OverrunsExactly | ks/src/conversions.cpp:166-222 | a lone percent sign is met exactly in strings that end in one and are otherwise correct |
| Conversions.OverrunsBuffer | ks/src/conversions.cpp:166-222 | what is decoded before it then fills the buffer, final null character and all, so that the next one is written outside |
| Conversions.StringFromPercent | ks/src/conversions.cpp:166-222 | for all strings: the decoded string, a malformed escape, or exactly the index outside the buffer that is written to |
| StringEncoding.EncodeString | ks/src/conversions.cpp:234-354 | encodes token by token and never writes more than three times the length |
| StringEncoding.DecodeString | ks/src/conversions.cpp:366-423 | decodes escape by escape, with or without backslashes |
| StringEncoding.EncodedOne | ks/src/conversions.cpp:324-338 | what a character becomes without a backslash |
| StringEncoding.EncodedBehindBackslash | ks/src/conversions.cpp:288-306 | what a character becomes behind a backslash; a backslash at the end is an error |
| StringEncoding.EncodedEscape | ks/src/conversions.cpp:307-323 | an escape is copied if that is allowed, and must be complete |
| StringEncoding.DecodedStringEscape | ks/src/conversions.cpp:386-408 | an escape becomes its character, with a backslash in front of four special ones if wanted |
| StringEncoding.SkippedExactly | ks/src/conversions.cpp:251-284 | host and server of a resource locator are copied, or all of it if slashes are missing |
| StringEncoding.EncodedCanonical | ks/src/conversions.cpp:234-354 | what the encoder writes is canonical |
| StringEncoding.EncodeDecodeRest | ks/src/conversions.cpp:366-423 | decoding and encoding again, with backslashes, is the identity on canonical strings |
| StringEncoding.EncodeDecode | ks/src/conversions.cpp:366-423 | so it is with the treatment of leading double slashes, for all that do not start with them |
| Paths.CheckAndCount | ks/src/path.cpp:87-162 | valid exactly if well-formed; how often it goes up and how many slashes follow |
| Paths.ValidExactly | ks/src/path.cpp:87-162 | well-formed are exactly the paths that start with a slash or with a run of "./" and "../", and hold no double slash |
| Paths.ClimbsRun | ks/src/path.cpp:87-135 | such a run is passed, and goes up once more for each "../" in it |
| Paths.RunClimbed | ks/src/path.cpp:87-135 | and nothing else is |
| Paths.SlashesCount | ks/src/path.cpp:136-162 | the slashes counted are those behind the start |
| Paths.FindSlashes | ks/src/path.cpp:40-79 | the index holds where each component starts, and the final entry; the scan runs past the end exactly if a counted slash was skipped |
| Paths.FromString | ks/src/path.cpp:167-173 | for all strings: the parsed path, or that the string is read past its end |
| Paths.SplitJoin | ks/src/path.cpp:40-79 | the components joined by slashes are the path again, and none holds a slash |
| Paths.PieceIsComponent | ks/src/path.cpp:285-292 | what the index cuts out is the component |
| Paths.ParsedComponents | ks/src/path.cpp:167-173 | a parsed path has as many components as the text, and is absolute exactly if it starts with a slash |
| Paths.ComponentAt | ks/src/path.cpp:285-292 | reading component k through the index gives component k of the text |
| Paths.NoDoubleCut | ks/src/path.cpp:177-188 | cutting before a component and appending brings no double slash |
| Paths.SplitCut | ks/src/path.cpp:177-188 | the components of a cut and extended path are the first ones followed by the new ones |
| Paths.ResolvedComponents | ks/src/path.cpp:300-321 | the resolved path has the components of the context without as many as it goes up, followed by those of the relative one |
| Paths.ResolvedReparses | ks/src/path.cpp:177-188 | parsing the composed string builds the same path and index |
| Paths.Resolve | ks/src/path.cpp:300-321 | the method computes that path, and an invalid one in all other cases |
| Paths.DecodeAt | ks/src/path.cpp:410-444 | decoding commutes with cutting a string where no escape is cut |
| Paths.DecodePercents | ks/src/path.cpp:410-444 | how the string decodes decides; then string and index are replaced, else nothing changes |
| Paths.DecodedComponents | ks/src/path.cpp:410-444 | component k read through the shifted index is the decoding of component k, whatever characters come up |
| Paths.WellIndexedExactly | ks/src/path.cpp:40-79 | the index of a well-formed path is right if and only if its first component does not start with a dot |
| Paths.FirstComponentLost | ks/src/path.cpp:40-79 | if it does, the first component read is another one, or the string is read past its end |
| Paths.LeadingDots | ks/src/path.cpp:56-58 | one path for each of the two |
| PathResolution.ResolvePaths | ks/src/path.cpp:331-403 | results and paths are those of the fold over the ids, decoded at the end |
| PathResolution.ResultKinds | ks/src/path.cpp:346-402 | a bad path is what is malformed or cannot be resolved, a bad name what then cannot be decoded |
| PathResolution.AllAgree | ks/src/path.cpp:331-391 | the fold follows the rule for every id if and only if none strays; then the context stands for the components |
| PathResolution.FinalComponents | ks/src/path.cpp:331-403 | each decoded component is the decoding of the component the rule gives |
| PathResolution.StrayAccepted | ks/src/path.cpp:376-391 | a relative id without context serves as context all the same |
| Packages.SizeVariables | ks/src/package.cpp:208-224 | the number of variables in the depth-first flattening, or of its own |
| Packages.FlattenMore | ks/src/package.cpp:550-717 | one more subpackage comes behind everything else |
| Packages.DeepIterator.constructor | ks/src/package.cpp:550-557 | the iterator has the whole flattening before it |
| Packages.DeepIterator.EndReached | ks/src/package.cpp:595-612 | it is at its end exactly if nothing is left |
| Packages.DeepIterator.Current | ks/src/package.cpp:616-639 | it stands at the first variable of what is left |
| Packages.DeepIterator.Advance | ks/src/package.cpp:668-717 | exactly that one is passed |
| Packages.DeepIterator.Normalize | ks/src/package.cpp:570-591 | empty subpackages are passed without losing a variable |
| Packages.DeepIterator.ToStart | ks/src/package.cpp:769-779 | starting over puts the whole flattening before it again |
| Packages.Visit | ks/src/package.cpp:550-717 | walking with the iterator visits exactly the flattening, in order |
| Sorter.PlacesFlatten | ks/src/sorter.cpp:180-261 | sorting goes through the same variables in the same order as deep iteration |
| Sorter.NearestDefault | ks/src/sorter.cpp:180-261 | each variable inherits the default of the nearest enclosing package that has one |
| Sorter.PlacedInside | ks/src/sorter.cpp:180-261 | and nothing is placed that is not inside |
| Sorter.SpreadBucket | ks/src/sorter.cpp:180-237 | each bucket holds exactly the chosen variables of its key, in order |
| Sorter.SpreadConserves | ks/src/sorter.cpp:180-237 | spreading conserves the multiset of variables |
| Sorter.KscSorter.SortVariables | ks/src/sorter.cpp:180-237 | the table is the old one with all places spread over it |
| Sorter.KscSorter.Sort | ks/src/sorter.cpp:180-261 | each bucket as selected, none empty, and together exactly the (dirty) variables of the flattening; each wanted variable, wherever it stands, is in the bucket of its server and of the A/V module in force there: its own, that of the innermost package with one, the one from outside, that of its server, or that of the client |
| Sorter.InItsBucket | ks/src/sorter.cpp:127-144 | in terms of the table: where each wanted variable is |
| Sorter.OnlyInItsBucket | ks/src/sorter.cpp:127-144 | and nothing else is in a bucket |
| Sorter.GovernsFound | ks/src/sorter.cpp:127-144 | there is such a module for every variable |
| Sorter.KscSorter.RemoveFirst | ks/src/sorter.cpp:147-163 | takes out one bucket |
| Sorter.KscSorter.RemoveMatchingBucket | ks/src/sorter.cpp:167-176 | takes out the bucket of the key, if there is one |
| Sorter.MergeSorters | ks/src/package.cpp:861-896 | the requests made: every bucket exactly once, with the one of equal key; both sorters end empty; the result is whether all worked |
| Sorter.CopyGetVarResults | ks/src/package.cpp:1078-1144 | the result is good exactly if all are readable and taken; each variable holds what its last answers say |
| Sorter.LatestIs | ks/src/package.cpp:1094-1141 | of several answers for one variable the last that says something counts, and without any nothing changes |
| Sorter.LastAnswer | ks/src/package.cpp:1094-1141 | what a variable holds after its last answer: the error, or a mismatch without properties; the properties if taken; and it is not dirty if it was read |
| Sorter.NothingRead | ks/src/package.cpp:1094-1141 | without a readable answer it stays dirty, and without one taken it keeps its properties |
| Sorter.LastWritten | ks/src/package.cpp:1182-1210 | what it holds after writing |
| Sorter.CopySetVarResults | ks/src/package.cpp:1182-1210 | the result is good exactly if all are; each variable has its last result, and is dirty unless written |
| RpcHeader.DecodeEncode | ks/src/rpcproto.cpp:76-264 | a header that encodes decodes, into any header, to the same message, taking exactly its words and leaving the rest |
| RpcHeader.EncodeDecode | ks/src/rpcproto.cpp:76-264 | whatever decodes encodes to exactly the words taken |
| RpcHeader.EncodesExactly | ks/src/rpcproto.cpp:76-264 | the messages that can be written, by the numbers of their kinds |
| RpcHeader.Layout | ks/src/rpcproto.cpp:76-264 | where each field comes, by the numbers on the wire |
| RpcHeader.WordBigEndian | ks/src/rpcproto.cpp:76-264 | a word is written with its most significant byte first |
| RpcHeader.KsRpcHeader.constructor | ks/src/rpcproto.cpp:55-65 | the values a header starts with |
| RpcHeader.KsRpcHeader.XdrEncode | ks/src/rpcproto.cpp:177-264 | succeeds exactly if the header has an encoding and it fits; the stream gains it |
| RpcHeader.KsRpcHeader.XdrDecode | ks/src/rpcproto.cpp:76-168 | succeeds exactly if the words left decode; header and what is left of the stream then |
| RpcHeader.KsRpcHeader.SetRequest | ks/src/rpcproto.cpp:330-340 | the call that is then encoded, word by word |
| RpcHeader.KsRpcHeader.SetAccepted | ks/src/rpcproto.cpp:267-302 | the accepted reply that is then encoded |
| RpcHeader.KsRpcHeader.SetProgramVersionMismatchError | ks/src/rpcproto.cpp:304-311 | the mismatch reply that is then encoded |
| RpcHeader.KsRpcHeader.SetAuthRefusalError | ks/src/rpcproto.cpp:275-281 | the refusal that is then encoded |
| RpcHeader.KsRpcHeader.SetRpcVersionMismatchError | ks/src/rpcproto.cpp:320-327 | the version mismatch reply that is then encoded |
| RpcHeader.WordsOfBytes | ks/src/rpcproto.cpp:76-264 | words written as bytes are read as the same words |
| RpcHeader.PassHeader | ks/src/rpcproto.cpp:76-264 | through a memory stream: written exactly if it fits, then read as the same message with the payload left intact |

## Left out

- Connection callbacks do not call back into the manager, and timeouts are positive. With a timeout of zero the walk of `processTimeout` would not end at one call per connection.
- Connection manager: `shutdownConnections`, the array variant without hash table, failing allocation, and the deletion of a destroyed connection: it is shut down and no longer referred to.
- Memory stream: the bytes of a fragment are a sequence in a field, not raw memory; `malloc` succeeds; nothing is read after a failed read, when no fragment is current. `xdrmemstream_get_fragments` and the inline access are not part of the model.
- MemStream.XdrStream.PutLong: a long that would reach beyond its fragment is excluded, since writing it overruns memory; the same holds for MemStream.XdrStream.GetLong.
- Registries.KsManager.constructor: does not model transports, tickets and the manager's own registration.
- Registries.KsManager.ServePendingEvents: serves one event a call; the loop of the server base that calls it, and the requests served in between, are not part of the model. The timer queue is a set of events, of which a first one is taken: the heap of `TimerQueue` is verified by itself and not put in its place, and where `TimerQueue.RemovalBreaks` applies its order would not be that of the set.
- Masks.LoopDecides: for masks with both escapes and stars no exact condition is stated, only a sufficient one and three examples of failure. Behind a star the matcher counts an escaped bracket as a set, so by how much its bound is wrong, and whether that loses a match, depends on the names that the whole rest of the mask matches and not on a form of the mask. Without escapes or without stars the condition is exact.
- Paths.DecodePercents: paths whose index is wrong from the start are excluded.
- Registries.KsManager.GetServer: does not model the port and expiry the manager reports for itself, which are its own.
- Registry: the objects below `/servers` are a map from names to versions; transports, tickets and the manager's own registration at the portmapper are left out. A message is dispatched to it with decoded parameters.
- Masks: the case-sensitive build; masks and names hold no null characters.
- InterServer: what the user asks for within a notification is a list of requests, arbitrary but none of them notifies in turn; the RPC client connection underneath is modelled by its states and what its callbacks do to them.
- StringEncoding: names that start with two slashes are resource locators, whose host part is copied; the identity is stated for the others.
- PathResolution.ResolvePaths: ids that end in a lone percent sign are excluded, since decoding them overruns the buffer, as are absolute ids whose first component starts with a dot.
- Packages: a package occurs once, as a tree; sharing one subpackage in two places appears as two equal subpackages, and cycles are excluded. Handles are not modelled.
- Sorter: buckets are sequences in a map, so hash values and the order of buckets are open; sorting a bucket by path, the relative paths in requests and the exchange itself over the network are left out, the latter answering arbitrarily.
- RpcHeader: credentials and verifiers are of the null kind, as in the source.
- Blocking proxies, value and property codecs, histories, the object tree, service parameters and all platform code add only field-by-field members or system calls.
