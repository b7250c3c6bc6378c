# sfslite, modelled and proved

sfslite is an event-driven RPC toolkit. This project models the parts of it whose correctness is
not visible from any one function, and proves what they are for.

* **Resumable RPC** (`AsrvResumable`, `ResumableRpc`, `ResumableRpcSafety`, `ResumableRpcOrder`,
  `ResumableRpcEffects`, `ResumableRpcLiveness`). A client that sends its unanswered calls again on every new connection,
  and a server that remembers replies by transport offset and evicts them when it believes that the
  client cannot ask again. Over every sequence of steps, however often connections break and
  whatever they lose, no call is handed to the service twice, and every copy of a reply has the same
  bytes. The conditions for this are exact. And no call is stuck: on a connection that stays up
  every order of deliveries ends with all calls answered, and after any failure one reconnection
  suffices.
* **The datagram replay cache** (`AsrvUnreliable`) and **the client's calls** (`AclntFail`,
  `AclntCalls`, `AclntRuns`): the list of calls and the xid table that several clients share, of
  plain and of resumable clients, with callbacks that issue and cancel calls and fail all calls
  again from within the loop that fails them.
* **The intrusive red-black tree** (`ItreeShape`, `ItreeBalance`, `Itree`): linked nodes with parent
  pointers, updated in place by insertion, deletion and their fix-up loops; and **the timers** kept
  in it (`Timers`), with callbacks that change the tree while a pass walks through it: which timers a pass
  fires is stated exactly.
* **The buddy allocator** (`BuddyBlocks`, `Msb`, `Bbfree`, `FreeMaps`, `Bbuddy`, `BuddyRuns`): the
  bitmaps hold exactly the maximal free blocks, whatever the history.
* **The intrusive hash table** (`IhashShape`, `Ihash`): bucket chains with back links, relinked in
  place by the rehash.
* **XDR** (`BigEndian`, `Xdr`, `XdrRoundTrip`, `XdrFailures`, `XdrStreams`): independent definitions of
  the wire forms that are accepted and of the one that is written, the encoder and the decoder, that
  they agree, and what a failure leaves behind.
* **Record marking** (`StreamFraming`, `StreamLink`), **the backoff queue** (`Backoff`,
  `BackoffSafety`, `BackoffPass`, `BackoffQueue`), **the order of SRV records** (`SrvShuffle`) and **base-32 and
  base-64 armor** (`Armor`, `ArmorText`).

Operations that the source carries out by changing objects in place are methods of classes, or
methods on arrays, and their contracts tie the new state to a function of the old one or state the
property outright. Protocols are systems of steps; a theorem about them is about every sequence of
enabled steps. What a user's callback does is a parameter that the theorems quantify over.

## What was found

* The resumable server keeps at-most-once execution in every run exactly if the transport does not
  report a send-buffer size, no reply exceeds the packet size, and the service never rejects or
  ignores a call (`ResumableRpcSafety.ExactConditions`). The send-buffer estimate of
  arpc/asrv.C:744-749 forgets replies that are lost with the connection; a reply that is too long
  gets a stale offset; a rejected call is forgotten at once.
* The closing assertion of the packet reader (arpc/axprt_pipe.C:395) is stricter than the sender's
  limit: it always holds exactly if every message is nonempty and at most `pktsize - 4` bytes long
  (`StreamFraming.AssertionExact`).
* In the backoff queue, keeping an entry on from a callback that has taken time, during a pass over
  the level before the last that still has an entry to move, leaves the last level out of order
  (`BackoffSafety.LateBreaks`). This is exactly what unsorts a level: a step is no such step if and
  only if the levels can stay sorted after it (`BackoffSafety.PunctualExact`), and the runs without
  such steps are those after whose every step they can (`BackoffSafety.PunctualRuns`). With more
  than one level, "always sorted" is therefore false (`BackoffSafety.SortedExactly`).
* The loop of `aclnt::fail` keeps a pointer to the call after the one that it is failing. That
  dangles exactly if the callback cancels that call or fails all calls: by calling `fail`, or, in a
  resumable client at end of file, by issuing a call, unless the fail callback keeps the calls
  (`AclntFail.RoundExact`; for the whole loop with its nested ones, `AclntFail.FailExact`).
  `AclntRuns.CancelDangles` and `AclntRuns.IssueDangles` are instances on actual clients.
* Base-64 decoding with an explicit length looks at what follows the text when its last block is not
  whole. An unpadded armor decodes to what was encoded exactly if it consists of whole blocks or no
  digit follows it (`ArmorText.RoundTrip64`), and a result exceeds the space allotted exactly if two
  digits follow a rest of one or two characters (`ArmorText.Fits64`);
  `ArmorText.FollowedByDigits` is an instance of both.

## Assumptions

* Resumable RPC: xids are never used again; each connection is FIFO in each direction; `resume` is
  one step; the server moves to a new connection before the client does, since a transport without
  a server refuses calls; the acknowledged offset is causal, that is, the client had read that far
  before it sent a message that the server has since read; one program per transport, so that an xid
  identifies a call. Connections break on either side independently, and lose what is in flight.
* The tree orders nodes by an integer key: any total preorder is the order of some integer rank. A
  time is the rank of its `timespec`.
* The buddy allocator: the smallest block has at least two bytes, since the unsigned loop of
  async/bbuddy.C:197 does not end otherwise, and the largest at most 2^30, since `1 << log2maxalloc`
  is an `int`. `ffs (v) - 1` is some set bit of `v`, which is all that the code needs.
* Framing: `pktsize` is between 8 and 2^31 - 1, and the receive buffer has the default size of
  `pktsize + 4` bytes; the constructor takes any other size as well (arpc/axprt_pipe.C:39-41).
* Armor: lengths are given, and what memory holds behind a text is a parameter; where that ends there
  are zeros.
* XDR: sizes and bounds do not exceed `RPC_INFINITY`, the largest bound that is written into a type.
* The hash function is any function of the key. `qsort` leaves some permutation sorted by
  `srvrec_cmp`.
* A client has entries only in the xid table of its own transport.
* Backoff: `minto << (maxsend - 1)` fits an unsigned int; the clock does not go back.

## Model

| member | source | states |
|---|---|---|
| `AsrvResumable.EvictWhileKeeps` | arpc/asrv.C:751-752 | an eviction loop removes only answered calls in its range of offsets and keeps table and queue in step |
| `AsrvResumable.EvictWhileOrdered` | arpc/asrv.C:751-752 | it keeps the queue ordered: zero offsets first, then nondecreasing, none above the bytes sent |
| `AsrvResumable.EvictWhileExact` | arpc/asrv.C:751-752 | on an ordered queue it evicts exactly the answered calls below the bound, or nothing if an older one heads the queue |
| `AsrvResumable.UnknownCall` | arpc/asrv.C:708-717 | a call that is not in the table becomes pending and evicts exactly the answered calls with offset zero |
| `AsrvResumable.KnownCall` | arpc/asrv.C:719-727 | a known call evicts nothing; if answered, its cached bytes go out again, unless they are longer than a packet, and it moves to the end of the queue with the offset reached |
| `AsrvResumable.AnsweredCall` | arpc/asrv.C:730-753 | a reply is queued at the current offset, is never evicted by its own eviction loop, and the queue stays ordered; only replies below the acknowledged offset, or more than the send-buffer size before the end, are evicted; its hypothesis on acknowledgments holds in every run (`ResumableRpcOrder.AlwaysOrdered`) |
| `AsrvResumable.AnsweredCallEvicts` | arpc/asrv.C:744-753 | unless a leftover heads the queue, exactly the replies go that end before the acknowledged offset or, where the send buffer has a known size, more than that size before the bytes sent; if one does, none; likewise in every run (`ResumableRpcOrder.AnsweredInRun`) |
| `AsrvResumable.SendNullInv` | arpc/asrv.C:627-631 | a call rejected or ignored is forgotten, and nothing else changes; table and queue stay in step |
| `AsrvResumable.ResumeInv` | arpc/asrv.C:768-772 | resuming gives every entry offset zero, keeps results and queue, and takes over the offsets of the new transport |
| `AsrvResumable.ResumableServer.IsReplayCall` | arpc/asrv.C:708-728 | the method with its loop computes the replay decision, the frames and the state of the specification |
| `AsrvResumable.ResumableServer.SendReplyTo` | arpc/asrv.C:730-753 | likewise for a reply, with the watermark and the eviction loop |
| `AsrvResumable.ResumableServer.ResumeOn` | arpc/asrv.C:755-774 | the loop over the table resets exactly the offsets |
| `ResumableRpc.ApplyWf` | arpc/asrv.C:708-774 | after any step of client, server or network the queue lists exactly the answered calls of the table, once each |
| `ResumableRpcOrder.StepKeepsQueue` | arpc/asrv.C:708-774 | every step, in every configuration, keeps the queue ordered and the acknowledged offset at most the bytes sent |
| `ResumableRpcOrder.AlwaysOrdered` | arpc/asrv.C:693-753 | in every reachable state, for every send-buffer size and with oversize replies and dropped calls: zero offsets first, then nondecreasing ones, none above the bytes sent; no acknowledgment above them either |
| `ResumableRpcOrder.AnsweredInRun` | arpc/asrv.C:730-753 | in every reachable state a reply survives its own eviction loop, which evicts exactly the replies that end before the acknowledged offset or beyond the send buffer, and none if a leftover heads the queue |
| `ResumableRpcEffects.AcknowledgedGo` | arpc/asrv.C:744-753 | once an acknowledgment up to some byte has come through, the next answer makes the server forget every reply that ends before it, unless a leftover heads the queue, and no reply after it while the send buffer is unknown |
| `ResumableRpcEffects.CancelIsFinal` | arpc/aclnt.C:66-74 | no run delivers a result to a call after its cancellation, and a cancellation ends no other call |
| `ResumableRpcEffects.ServerSilent` | arpc/asrv.C:730-743 | after its end of file the server receives nothing, and what it answers is kept for later |
| `ResumableRpcEffects.ClientSilent` | arpc/aclnt.C:641-646 | after its end of file the client receives nothing, and a call made then waits for the next connection |
| `ResumableRpcSafety.ReceiveUpTo` | arpc/asrv.C:708-717 | a call that the server does not know is handed over when it arrives, whatever arrives before it |
| `ResumableRpcSafety.RecvUnknown` | arpc/asrv.C:708-717 | receiving an unknown call keeps every invariant; the leftovers it evicts are ones the client no longer waits for |
| `ResumableRpcSafety.RecvKnown` | arpc/asrv.C:719-727 | receiving a replayed call keeps every invariant |
| `ResumableRpcSafety.ReplyKeeps` | arpc/asrv.C:730-753 | replying keeps every invariant; what the watermark evicts has been read by the client |
| `ResumableRpcSafety.ServerResumeKeeps` | arpc/asrv.C:755-774 | so does the server's move to a new connection |
| `ResumableRpcSafety.ClientResumeKeeps` | arpc/aclnt.C:656-689 | so does the client's, with the retransmission of all unanswered calls in issue order |
| `ResumableRpcSafety.ClientRecvKeeps` | arpc/aclnt.C:576-604 | so does the delivery of a reply to the client |
| `ResumableRpcSafety.NothingSeenBehind` | arpc/aclnt.C:679-689 | when a call unknown to the server is next, no call behind it has been received: the received calls are a prefix in issue order |
| `ResumableRpcSafety.StepKeeps` | arpc/asrv.C:693-774 | every step keeps the invariant of the whole system |
| `ResumableRpcSafety.Safety` | arpc/asrv.C:693-774 | over every run: no call is handed to the service twice, a retransmission of a received call finds its entry, all copies of a reply are identical |
| `ResumableRpcSafety.LostEntryRunsAgain` | arpc/asrv.C:708-717 | whenever the entry of a received call that the client still waits for is lost, one reconnection makes the service execute it again |
| `ResumableRpcSafety.DropBreaks` | arpc/asrv.C:627-631 | a service that may reject calls breaks at-most-once |
| `ResumableRpcSafety.OversizeBreaks` | arpc/asrv.C:738-742 | so do replies longer than a packet |
| `ResumableRpcSafety.SendBufferBreaks` | arpc/asrv.C:744-750 | so does a positive send-buffer size |
| `ResumableRpcSafety.ExactConditions` | arpc/asrv.C:730-753 | at-most-once holds in every run if and only if none of these three is the case |
| `ResumableRpcLiveness.Delivery` | arpc/asrv.C:693-753 | on a live connection every arrival of a message and every answer of the service brings the end of all deliveries nearer, forgets no waiting call and changes no answer |
| `ResumableRpcLiveness.QuietExactly` | arpc/asrv.C:693-753 | no delivery is left if and only if nothing is on its way and no call is being served |
| `ResumableRpcLiveness.SomewhereUnderWay` | arpc/asrv.C:693-753 | on a live connection a waiting call is on its way, being served, or its answer is on its way |
| `ResumableRpcLiveness.Settles` | arpc/asrv.C:693-753 | on a connection that stays up, every order of deliveries is finite, with a bound, and when none is left every call that waited has the service's answer and was executed once |
| `ResumableRpcLiveness.Reconnects` | arpc/aclnt.C:656-689 | from every reachable state, resuming the server and the client makes the connection live and keeps all calls and answers |
| `ResumableRpcLiveness.Recovers` | arpc/aclnt.C:656-689 | after every run, one reconnection and finitely many deliveries serve every waiting call, with the answer given before or, whatever it is, the one given now |
| `AsrvUnreliable.StepWf` | arpc/asrv.C:656-690 | the queue lists exactly the answered calls of the table, once each, and never more than `maxrsize` of them |
| `AsrvUnreliable.CachedRun` | arpc/asrv.C:683-689 | in every run a cached reply moves one place towards eviction with each later reply, and keeps its bytes |
| `AsrvUnreliable.Remembered` | arpc/asrv.C:656-690 | in every run a pending call stays in the table until it is answered, and its reply until `maxrsize` later ones |
| `AsrvUnreliable.AtMostOnce` | arpc/asrv.C:656-690 | a request reaches the callback again only if it was dismissed, or after `maxrsize` further cached replies |
| `AsrvUnreliable.Forgotten` | arpc/asrv.C:686-689 | the window is exact: the next reply evicts the one at its end |
| `AsrvUnreliable.DismissedIsForgotten` | arpc/asrv.C:627-631 | a call rejected or ignored leaves the server as if it had never been received |
| `AsrvUnreliable.UnreliableServer.IsReplay` | arpc/asrv.C:599-606 | a request equal to a table entry is a replay, and is answered with the cached bytes if there are any |
| `AsrvUnreliable.UnreliableServer.SendReply` | arpc/asrv.C:674-690 | the method with its loop computes the specified step and keeps the size counter equal to the queue length |
| `AclntFail.FailStep` | arpc/aclnt.C:564-574 | whatever the callbacks do, nested loops included: calls stay in issue order and are called back in that order, no callback is made twice or forgotten, and no call returns to the list |
| `AclntFail.FailHolds` | arpc/aclnt.C:564-574 | every call that is outstanding when the loop starts, or is made during it, is outstanding afterwards or has been called back, unless a callback cancels it |
| `AclntFail.PlainFail` | arpc/aclnt.C:564-574 | if the callbacks do nothing, every call is called back, in the order of issue, and none is left |
| `AclntFail.FailEnds` | arpc/aclnt.C:564-574 | the loop ends every call that was outstanding, or leaves a dangling pointer |
| `AclntFail.OpHolds` | arpc/aclnt.C:59-74 | a call that an operation makes or finds outstanding is outstanding after it or has been called back, unless the operation cancels it |
| `AclntFail.OpExact` | arpc/aclnt.C:59-90 | a cancelled call leaves the list without a callback and the others stay; a timeout is set for an outstanding call; a new call is the last one |
| `AclntFail.IssueExact` | arpc/aclnt.C:356-359 | a call made at end of file is called back at once by a plain client; a resumable one, unless failing its calls goes wrong, puts it last in the list |
| `AclntFail.OpsEnd` | arpc/aclnt.C:564-646 | an outstanding call is gone after a callback if and only if one of its operations cancels it or fails all calls, which a resumable client at end of file also does by issuing a call that no fail callback handles |
| `AclntFail.RoundExact` | arpc/aclnt.C:568-571 | the saved successor survives a round if and only if no operation of the callback cancels it or fails all calls, and is then the first call |
| `AclntFail.FailExact` | arpc/aclnt.C:564-574 | the loop comes to hold a dangling pointer if and only if in some round the callback ends the next call so, or the last one fails its own calls and that goes wrong |
| `AclntFail.AllServed` | arpc/aclnt.C:564-574 | otherwise every call outstanding at the start is called back, or cancelled by a callback |
| `AclntFail.CalmSafe` | arpc/aclnt.C:564-574 | callbacks that neither cancel calls nor fail them all leave nothing dangling |
| `AclntCalls.Aclnt.constructor` | arpc/aclnt.C:230-235 | a new client has no calls, and no entry in the table |
| `AclntCalls.Aclnt.GenXid` | arpc/aclnt.C:92-100 | a nonzero xid that no call of any client on the transport has |
| `AclntCalls.Aclnt.NewCall` | arpc/aclnt.C:59-64 | a new call is last in the list and in the table under a fresh xid; no other call changes |
| `AclntCalls.Aclnt.Call` | arpc/aclnt.C:356-359 | at end of file a plain client makes exactly the callback of the new call, at once, and nothing else; a resumable one fails its calls, unless the fail callback keeps them, and then the new call is last in the list; otherwise it is added and no callback made |
| `AclntCalls.Aclnt.Delete` | arpc/aclnt.C:66-74 | exactly that call leaves list, table and timers; the others keep their place and xid, and other clients' entries stay |
| `AclntCalls.Aclnt.Finish` | arpc/aclnt.C:134-140 | the call leaves list and table before its callback, which is then its only one; nothing else changes |
| `AclntCalls.Aclnt.Timeout` | arpc/aclnt.C:84-90 | a call of the list that has no timeout gets one |
| `AclntCalls.Aclnt.Expire` | arpc/aclnt.h:44-44 | a timeout ends its call like a reply, with one callback, and changes nothing else |
| `AclntCalls.Aclnt.Callback` | arpc/aclnt.C:134-140 | whatever a callback does, list, callbacks and dangling pointers are those of the specification, list and table stay in step, and other clients' entries stay |
| `AclntCalls.Aclnt.FailRound` | arpc/aclnt.C:568-571 | a round of the loop is one of the specification, and the saved successor dangles if and only if the callback cancels it or fails all calls |
| `AclntCalls.Aclnt.Fail` | arpc/aclnt.C:564-574 | the loop on the actual list and table is that of the specification: a pointer dangles exactly if `Dangles` says so, and otherwise every call is called back or cancelled; if the callbacks do nothing, all calls are called back in order and none is left |
| `AclntCalls.Aclnt.FailUnlessKept` | arpc/aclnt.C:632-638 | a resumable client fails its calls unless its fail callback keeps them |
| `AclntCalls.Aclnt.Dispatch` | arpc/aclnt.C:576-604 | a reply ends exactly the call with its xid, if the client has one and the source is right; a resumable client that cannot decode it fails all its calls instead |
| `AclntCalls.Aclnt.Stop` | arpc/aclnt.C:262-278 | the assertion of the loop holds, and exactly the client's own entries leave the table |
| `AclntCalls.Aclnt.Start` | arpc/aclnt.C:245-260 | the assertion of the loop holds throughout if and only if no xid clashes with the table |
| `AclntCalls.Aclnt.Resume` | arpc/aclnt.C:656-677 | the calls move to the table of a transport, be it the one in use, with their xids and order, exactly if no other client there uses one of the xids; other clients are untouched |
| `AclntRuns.Happen` | arpc/aclnt.C:59-689 | an event of a client's life, or of another client's, and exactly what it does to the calls: call, reply, undecodable reply, timeout, cancellation, end of file with or without the calls kept, resume |
| `AclntRuns.EventHolds` | arpc/aclnt.C:59-689 | no event loses a call: what is outstanding before it or made by it is outstanding after it or has been called back, unless the event cancels it |
| `AclntRuns.ReplyCallsBack` | arpc/aclnt.C:576-604 | a reply from the right source calls back the call with its xid, whatever the callback then does |
| `AclntRuns.Run` | arpc/aclnt.C:59-689 | in every run of a plain or a resumable client, however it ends: it goes through exactly what the events say; every call made is outstanding, or has been called back, or was cancelled; each callback is made at most once, none is forgotten, no call returns to the list or changes its xid; unless the assertion of `start` fails, which it does exactly if an xid clashes, list and table hold the same calls, each under its own nonzero xid |
| `AclntRuns.CancelDangles` | arpc/aclnt.C:568-571 | two calls of which the first one's callback cancels the second: the loop of `fail` holds a dangling pointer |
| `AclntRuns.IssueDangles` | arpc/aclnt.C:641-646 | so it does if the first one's callback issues a call, in a resumable client at end of file |
| `ItreeBalance.RedSiblingLeft` | async/itree.C:204-209 | a rotation makes a red sibling black and keeps the deficit invariant of deletion |
| `Itree.RbTree.LeftRotate` | async/itree.C:46-61 | the links after the rotation form the rotated shape; the order is the same |
| `Itree.RbTree.RightRotate` | async/itree.C:63-78 | likewise |
| `Itree.RbTree.InsertFix` | async/itree.C:83-129 | the loop ends in a valid red-black tree with the same order |
| `Itree.RbTree.Insert` | async/itree.C:131-151 | for any valid tree: the result is valid and its order is the old one with the new node after every element that is at most it |
| `Itree.RbTree.DeleteFixup` | async/itree.C:193-257 | the loop ends, its sibling is never null, and the result is a valid red-black tree |
| `Itree.RbTree.Splice` | async/itree.C:266-275 | a node with at most one child is cut out, and the links around it are those of the remaining shape |
| `Itree.RbTree.Replace` | async/itree.C:277-291 | the successor takes the place, links and colour of the deleted node |
| `Itree.RbTree.Delete` | async/itree.C:259-298 | for any valid tree and any node of it: the result is valid and its order is the old one with exactly that node removed |
| `Itree.RbTree.Minimum` | async/itree.C:153-160 | the leftmost node |
| `Itree.RbTree.Successor` | async/itree.C:162-171 | the next element in order, null after the last |
| `Itree.RbTree.Predecessor` | async/itree.C:182-191 | the previous one, null before the first |
| `Itree.RbTree.First` | async/itree.h:144-149 | the first element |
| `Itree.RbTree.Search` | async/itree.h:162-179 | with duplicates, the first of the equal elements; null if and only if there is none |
| `Itree.RbTree.LowerBound` | async/itree.h:181-199 | the first element that is not less |
| `Itree.RbTree.UpperBound` | async/itree.h:201-219 | the last element that is not greater |
| `Timers.CursorInsert` | async/core.C:287-295 | setting a timer moves the cursor of a pass along with the timer it stands on |
| `Timers.CursorEnd` | async/core.C:388-389 | once the cursor is past the due timers, none but those that it passed is due |
| `Timers.TimerCore.Timecb` | async/core.C:287-295 | the timer goes behind those set for the same time |
| `Timers.TimerCore.Scan` | async/core.C:319-321 | the scan reaches a timer if and only if it is in the tree |
| `Timers.TimerCore.TimecbRemove` | async/core.C:313-325 | exactly that timer goes and the others keep their order; a timer that is not set panics, and nothing changes |
| `Timers.TimerCore.Perform` | async/core.C:287-325 | a setting adds exactly its timer, a removal takes exactly the timer named, and panics if and only if that is not set; the cursor of a pass stays on its timer unless one is removed |
| `Timers.TimerCore.Callback` | async/core.C:400-400 | the operations of a callback are performed in turn, up to the first that removes a timer that is not set, and set and remove exactly what they say; unless one is removed, the saved successor stays in the tree |
| `Timers.TimerCore.Fire` | async/core.C:388-403 | the next timer is in the tree and is taken out, then its callback runs; the saved successor is never used once a timer was removed, and the pass then starts again from the first |
| `Timers.TimerCore.Round` | async/core.C:387-403 | a round of a pass serves one due timer and does what the script says, and keeps the history of the pass exact |
| `Timers.TimerCore.TimecbCheck` | async/core.C:377-404 | for all callbacks: only due timers fire, each once, none after its removal, those set before in their order; a pass that ends has fired every timer that was due at its start unless it was removed, and of those set meanwhile exactly the due ones not set too late, that is, before the next timer to fire with no removal since; it is unfinished only when every entry of the script has been used and a due timer is left, and panics only at the first operation that removes a timer not set |
| `Msb.Fls32` | async/msb.h:44-57 | the number of significant bits |
| `Msb.Fls64` | async/msb.h:68-76 | likewise for 64 bits |
| `Msb.Log2c` | async/msb.h:79-83 | the least exponent whose power of two is not less; -1 for 0 |
| `Bbfree.BbFree.RangeClr` | async/bitvec.h:97-110 | exactly the bits of the range are cleared |
| `Bbfree.BbFree.Init` | async/bbuddy.C:54-60 | growing keeps all bits, whatever the new words hold before they are cleared |
| `Bbfree.BbFree.SetBit` | async/bbuddy.C:64-75 | adds one bit and keeps count and hint right |
| `Bbfree.BbFree.ClrBit` | async/bbuddy.C:76-85 | removes one bit |
| `Bbfree.BbFree.FindBit` | async/bbuddy.C:91-107 | finds a set bit if and only if there is one; the panic is unreachable |
| `FreeMaps.FreeMaps.FindFrom` | async/bbuddy.C:185-195 | a block of the lowest class from the wanted one on that has any |
| `FreeMaps.FreeMaps.Grow` | async/bbuddy.C:144-148 | more room in every map, no bit changed |
| `BuddyBlocks.Take` | async/bbuddy.C:196-200 | taking a recorded block leaves exactly the maximal free blocks recorded |
| `BuddyBlocks.Give` | async/bbuddy.C:218-228 | recording a freed block whose buddy is not free does too |
| `BuddyBlocks.Merge` | async/bbuddy.C:219-222 | a block and its buddy are the block of twice the size |
| `BuddyBlocks.RecordedAbove` | async/bbuddy.C:192-195 | every free block lies in a recorded one |
| `BuddyBlocks.Unique` | async/bbuddy.C:231-248 | the maps depend on the free space alone, not on the history |
| `BuddyBlocks.UnitRecorded` | async/bbuddy.C:231-248 | a unit is free if and only if exactly one recorded block covers it |
| `Bbuddy.Allocator.constructor` | async/bbuddy.C:127-135 | all whole blocks of the largest size are free |
| `Bbuddy.Allocator.Split` | async/bbuddy.C:191-200 | a larger block is taken and all but the wanted part is given back |
| `Bbuddy.Allocator.Release` | async/bbuddy.C:218-228 | the freed block is joined with its buddies as far as they are free |
| `Bbuddy.Allocator.Alloc` | async/bbuddy.C:174-203 | -1 if and only if the size is 0 or too large or no aligned block of its class is entirely free; otherwise such a block, aligned to its class, the first part of a smallest recorded block that is large enough |
| `Bbuddy.Allocator.Dealloc` | async/bbuddy.C:205-229 | exactly the block becomes free, and the space left is again the size of the free space |
| `Bbuddy.Allocator.SetTotSize` | async/bbuddy.C:137-167 | growing adds exactly the new space as free space |
| `BuddyRuns.Conservation` | async/bbuddy.C:174-229 | taking, returning and adding blocks of units keeps a partition of the space, in every sequence of such steps; `BuddyRuns.Drive` shows it of the allocator |
| `BuddyRuns.Drive` | async/bbuddy.C:127-229 | a new allocator after any sequence of allocations, returns and growth, each of which does what it says, and is refused exactly if there is no free block: the allocations held are distinct aligned blocks that partition the managed space together with the free units, and the space left is the size of the free units |
| `IhashShape.PushTable` | async/ihash.h:128-134 | the writes of an insertion keep all chains, back links and bucket numbers right |
| `IhashShape.DropTable` | async/ihash.h:189-191 | so do those of a removal through the back link |
| `Ihash.PrimeAbove` | async/ihash.C:51-51 | up to 2^31 buckets the next entry of the table of primes exists and is larger |
| `Ihash.MoveAll` | async/ihash.C:59-70 | the rehash relinks every entry of the old table into a correct new one; none is lost |
| `Ihash.HashTable.Reserve` | async/ihash.C:43-75 | the table keeps its entries and stays valid, with at least the wanted number of buckets: exactly that, or an entry of the table of primes if none is given |
| `Ihash.HashTable.Insert` | async/ihash.h:116-137 | exactly one entry more, a valid table, and fewer entries than buckets |
| `Ihash.HashTable.Remove` | async/ihash.h:181-192 | exactly that entry is cut out of its chain, the others keep their order, and the table stays valid |
| `Ihash.HashTable.LookupVal` | async/ihash.h:139-146 | the first entry of the bucket with the hash value, null if none |
| `Ihash.HashTable.NextVal` | async/ihash.h:148-153 | the next one after a given entry |
| `Ihash.HashTable.Get` | async/ihash.h:270-278 | the first entry of the bucket with the key, null if none |
| `Ihash.HashTable.NextKeq` | async/ihash.h:280-285 | the next one after a given entry |
| `Ihash.HashTable.Equals` | async/ihash.h:270-285 | `operator[]` and then `nextkeq` enumerate exactly the entries of the table with the key, once each |
| `Ihash.HashTable.First` | async/ihash.h:194-200 | the first entry in the order of the buckets |
| `Ihash.HashTable.Next` | async/ihash.h:208-215 | the entry after a given one in that order |
| `Ihash.HashTable.All` | async/ihash.h:194-215 | `first` and then `next` visit every entry of the table once |
| `XdrRoundTrip.EncodeSucceeds` | arpc/rpctypes.h:450-561 | encoding fails if and only if the object holds a null string; what was written is a multiple of four bytes even then |
| `XdrRoundTrip.EncodeDenotes` | arpc/rpctypes.h:450-561 | the encoder writes a wire form of the object |
| `BigEndian.NetworkOrder` | arpc/xdrmisc.h:139-152 | a word is written in four bytes, the most significant first |
| `XdrRoundTrip.EncodesCanonically` | arpc/rpctypes.h:450-561 | padding is written as zeros, true and the mark of a present pointer as the word 1 |
| `XdrRoundTrip.CanonicalIsEncoding` | arpc/rpctypes.h:450-561 | a wire form with such padding and such words is what the encoder writes |
| `XdrRoundTrip.EncodeExact` | arpc/rpctypes.h:450-561 | for every object of every type, the encoder succeeds and writes some bytes if and only if they are the canonical wire form of the object |
| `XdrRoundTrip.DecodeAccepts` | arpc/rpctypes.h:450-561 | the decoder accepts every wire form, whatever the target object held and whatever follows |
| `XdrRoundTrip.DecodeSound` | arpc/xdrmisc.h:171-272 | what the decoder accepts is a wire form of what it returns |
| `XdrRoundTrip.DecodeExact` | arpc/xdrmisc.h:171-272 | the decoder succeeds with a value and a rest if and only if the input is a wire form of the value followed by the rest |
| `XdrRoundTrip.RoundTrip` | arpc/rpctypes.h:450-561 | decoding inverts encoding for every object of every type, and leaves trailing bytes untouched |
| `XdrRoundTrip.TargetIrrelevant` | arpc/rpctypes.h:475-530 | decoding over an existing object succeeds when decoding into a fresh one does, with the same value and rest |
| `XdrRoundTrip.Reencodes` | arpc/xdrmisc.h:171-272 | a decoded object is legal and encodes again into as many bytes as were read, a multiple of four |
| `XdrRoundTrip.PrefixFree` | arpc/rpctypes.h:450-561 | no encoding is a proper prefix of another one; distinct objects have distinct encodings |
| `XdrRoundTrip.Extends` | arpc/xdrmisc.h:171-272 | what decodes from a part of the input decodes from all of it |
| `XdrRoundTrip.TruncatedRefused` | arpc/xdrmisc.h:171-272 | a truncated encoding is refused |
| `XdrFailures.LeafFails` | arpc/xdrmisc.h:182-272 | a scalar, string or byte array that cannot be decoded stays as it was, except fixed bytes of which only the padding is missing; how much of the input is then consumed |
| `XdrFailures.OverFails` | arpc/rpctypes.h:495-503 | decoding over existing elements stops at the first failure: those before it are decoded, those after it are as they were |
| `XdrFailures.PushFails` | arpc/rpctypes.h:504-509 | decoding new elements stops at the first failure, and its element stays in the vector |
| `XdrFailures.ChainFails` | arpc/rpctypes.h:462-468 | an encoding that fails has written the encodings before the null string and no more |
| `XdrFailures.FreshIsZero` | arpc/rpctypes.h:504-509 | a new element holds what encodes to zeros only |
| `XdrStreams.Encoder.PutPadBytes` | arpc/xdrmisc.h:171-181 | the bytes and then zeros, the fewest that make a multiple of four |
| `XdrStreams.Encoder.Traverse` | arpc/rpctypes.h:450-561 | the traversal appends what the specification says, which is the canonical wire form (`XdrRoundTrip.EncodeExact`), and reports whether it succeeded |
| `XdrStreams.Encoder.TraverseAll` | arpc/rpctypes.h:462-468 | the loop over elements stops at the first failure |
| `XdrStreams.Decoding.GetCounted` | arpc/xdrmisc.h:227-243 | counted bytes are taken if the count is within bounds and they are there; otherwise at most the count is consumed |
| `XdrStreams.Decoding.Traverse` | arpc/rpctypes.h:450-561 | result, object and remaining input are those of the specification, also on failure |
| `XdrStreams.Decoding.TraverseOver` | arpc/rpctypes.h:495-503 | the loop over existing elements |
| `XdrStreams.Decoding.TraversePush` | arpc/rpctypes.h:504-509 | the loop that pushes elements back |
| `XdrStreams.Decoding.TraverseVec` | arpc/rpctypes.h:475-515 | a vector is cut to the announced size, or decoded over and then extended |
| `XdrStreams.Decoding.TraverseOpaque` | arpc/xdrmisc.h:182-191 | fixed bytes and their padding; if only the padding is missing the object is already overwritten |
| `StreamFraming.GetPktRecord` | arpc/axprt_pipe.C:300-323 | a buffer that begins with a whole record yields its message |
| `StreamFraming.GetPktPartial` | arpc/axprt_pipe.C:300-319 | one that ends within its first record yields nothing and is no error |
| `StreamFraming.GetPktExact` | arpc/axprt_pipe.C:300-323 | the first word decides: a buffer is bad if and only if its top bit is missing or the length exceeds the packet size, yields nothing if and only if the record is not there in full, and otherwise the message of that length |
| `StreamFraming.DrainStream` | arpc/axprt_pipe.C:371-398 | from any prefix of a stream the packets taken and the rest left make up that prefix, in order |
| `StreamFraming.DrainStops` | arpc/axprt_pipe.C:371-398 | packets are taken until the callback unsets itself or the buffer begins with no whole record; the connection is given up if and only if what begins it is bad |
| `StreamFraming.Sender.SendV` | arpc/axprt_pipe.C:183-226 | what is written and queued grows by exactly the record of the message; what the kernel takes at the two writes is written, and a first write only if the queue was empty |
| `StreamFraming.Sender.Output` | arpc/axprt_pipe.C:228-251 | as much of the front of the queue is written as the kernel takes, and the rest stays |
| `StreamFraming.Receiver.CallGetPkt` | arpc/axprt_pipe.C:371-398 | the loop delivers what the specification says and keeps the rest, also when the callback unsets itself |
| `StreamFraming.Receiver.Input` | arpc/axprt_pipe.C:331-353 | a chunk is appended and parsed |
| `StreamFraming.Receiver.SetRcb` | arpc/axprt_pipe.C:72-88 | setting a callback delivers what was buffered |
| `StreamFraming.Conservation` | arpc/axprt_pipe.C:183-398 | in every run, delivered messages followed by what is written, queued or buffered are what was sent: nothing is lost, duplicated or reordered |
| `StreamFraming.ReadExactly` | arpc/axprt_pipe.C:331-398 | the callback gets no more packets than it takes, stays set if it gets fewer, and the connection is given up exactly if it is still set and the buffer is bad; then nothing more is read |
| `StreamFraming.SentExactly` | arpc/axprt_pipe.C:183-226 | in every run the messages sent are those of its steps, in their order |
| `StreamFraming.AllDelivered` | arpc/axprt_pipe.C:183-398 | from every reachable state, with a callback that does not unset itself, every message sent has been delivered once the queue is written and the bytes have arrived, be it one by one |
| `StreamLink.Link.SendMessage` | arpc/axprt_pipe.C:183-226 | sending on the object is a send and a write of the connection |
| `StreamLink.Link.Arrives` | arpc/axprt_pipe.C:331-353 | input on the object is a read of the connection |
| `StreamLink.Link.Run` | arpc/axprt_pipe.C:183-398 | whatever happens to a sender and a receiver joined by a stream is a run of the connection, action by action, and the messages sent are the acceptable ones of the actions, so nothing is lost, duplicated or reordered |
| `StreamFraming.LongBreaks` | arpc/axprt_pipe.C:395-395 | a message longer than `pktsize - 4` can violate the closing assertion |
| `StreamFraming.EmptyBreaks` | arpc/axprt_pipe.C:395-395 | so can empty messages |
| `StreamFraming.AssertionExact` | arpc/axprt_pipe.C:395-395 | the assertion holds in every run if and only if every message that may be sent is nonempty and at most `pktsize - 4` long |
| `Backoff.ApplyWf` | async/backoff.h:61-122 | every step keeps the state well-formed |
| `BackoffSafety.EntryStep` | async/backoff.h:61-122 | every step keeps each entry in exactly the queue of its level, once, with a history that fits |
| `BackoffSafety.TimerStep` | async/backoff.h:61-99 | every step but a late `keeptrying` in a pass over the level before the last that has an entry left to move keeps each level sorted and watched by a timer that is not late |
| `BackoffSafety.NoEntryForgotten` | async/backoff.h:61-99 | in every run without such a step each level is sorted by deadline, and a nonempty level between passes has a pending timer no later than its first deadline |
| `BackoffSafety.PunctualExact` | async/backoff.h:75-112 | a step is punctual if and only if the levels can stay sorted after it |
| `BackoffSafety.PunctualRuns` | async/backoff.h:75-112 | a run is punctual if and only if after each of its steps the levels can stay sorted |
| `BackoffSafety.Schedule` | async/backoff.h:90-99 | after a start, event i is transmission number i, the next after the last is the timeout, and none comes before the delays that precede it |
| `BackoffSafety.Life` | async/backoff.h:61-107 | in every run, punctual or not: a started entry left alone is sent as 0, ..., maxsend - 1, in order and once each, then times out once, no sooner than minto * (2^maxsend - 1) after its start, and is queued until then |
| `BackoffSafety.LateBreaks` | async/backoff.h:82-82 | in every state in which a pass over the level before the last is behind the clock and has an entry to move, keeping another entry on unsorts the last level |
| `BackoffSafety.LateKeepTrying` | async/backoff.h:109-112 | for every number of levels above one there is such a run |
| `BackoffSafety.SortedExactly` | async/backoff.h:75-112 | all runs keep all levels sorted if and only if there is one level |
| `BackoffPass.DueMove` | async/backoff.h:75-105 | in a pass over a level, an entry that no callback names and that is due, as are all before it, is transmitted once on entering the next level, or times out, and is then where that says |
| `BackoffPass.OthersStay` | async/backoff.h:75-105 | an entry that no callback names and that is at another level, not due, or not queued is left as it is |
| `BackoffPass.RemovedSilent` | async/backoff.h:114-122 | in no run does a removed entry see anything more until a caller names it again |
| `BackoffPass.Transmitted` | async/backoff.h:90-112 | starting an entry or keeping it on transmits it at once, and queues it for the delay of its level |
| `BackoffPass.TimerGone` | async/backoff.h:61-65 | a timer that goes off is no longer pending, and no other changes |
| `BackoffQueue.Tmoq.InsertAt` | async/backoff.h:90-99 | the method does what the specification of an insertion says |
| `BackoffQueue.Tmoq.RemoveEntry` | async/backoff.h:114-122 | likewise for a removal |
| `BackoffQueue.Tmoq.ScheduleQueue` | async/backoff.h:67-73 | a timer for the first entry, if the level has entries and no timer |
| `BackoffQueue.Tmoq.Call` | async/backoff.h:107-122 | starting, keeping on and removing an entry are the steps of the model |
| `BackoffQueue.Tmoq.MoveFirst` | async/backoff.h:79-87 | so is a round of the loop |
| `BackoffQueue.Tmoq.Callback` | async/backoff.h:107-122 | a callback performs its operations in turn, up to one that breaks the conditions on callers |
| `BackoffQueue.Tmoq.Round` | async/backoff.h:79-87 | a round of the loop and its callback, in the run of the pass |
| `BackoffQueue.Tmoq.Tcb` | async/backoff.h:61-88 | a timer going off is: it goes off, rounds of a move with exactly what its callback does, and the end of the pass with no entry left to move; every entry that was due has been transmitted at the next level or has timed out, and the others are untouched, unless a callback names them |
| `SrvShuffle.PickShare` | async/dnsparse.C:594-597 | a draw picks a record if and only if it lies in that record's share of the total weight |
| `SrvShuffle.FairShare` | async/dnsparse.C:594-597 | exactly weight_i of the totweight equally likely draws pick record i |
| `SrvShuffle.GroupExact` | async/dnsparse.C:576-602 | in the order of a class the record that the random number is for comes first: by number among zero weights, by its share of the total weight otherwise; it changes places with the first, and so on |
| `SrvShuffle.FairFirst` | async/dnsparse.C:576-602 | of the equally likely draws, exactly as many put a record first in the order of its class as its weight, or one if the weights are zero |
| `SrvShuffle.Scan` | async/dnsparse.C:596-597 | the scan stops at that record and never leaves the class |
| `SrvShuffle.Draw` | async/dnsparse.C:577-600 | the record in whose share the random number lies, or whose number it is among zero weights, changes places with the first one left, and no other record moves |
| `SrvShuffle.FindClass` | async/dnsparse.C:573-591 | the end of the class, and a total weight that fits 32 bits |
| `SrvShuffle.ShuffleClass` | async/dnsparse.C:576-603 | the class is put in the order that the draws give; the closing assertion holds |
| `SrvShuffle.RandomizeSorted` | async/dnsparse.C:565-608 | sorted records come out in the order that the random numbers give |
| `SrvShuffle.Qsort` | async/dnsparse.C:558-558 | some sorted permutation |
| `SrvShuffle.Randomize` | async/dnsparse.C:555-608 | any records come out as a permutation by priority, with nonzero weights before zero weights |
| `SrvShuffle.GroupOrderPermutes` | async/dnsparse.C:576-602 | the order of a class is a permutation of it |
| `SrvShuffle.RandomOrderOrdered` | async/dnsparse.C:555-608 | the result is a permutation by priority, with nonzero weights before zero weights |
| `SrvShuffle.ClassByClass` | async/dnsparse.C:565-608 | each class as a whole, of one priority and of zero or nonzero weights, is put in its order, and the classes stay in theirs |
| `SrvShuffle.SortedMeans` | async/dnsparse.C:546-553 | the order compared by is: by priority, and by falling weight within a priority |
| `Armor.RoundTrip` | async/armor.C:89-212 | for any block code whose blocks invert, whole strings of any length do |
| `Armor.Good32` | async/armor.C:78-187 | the blocks of base 32 invert, and fewer than five bytes leave only zero digits out |
| `Armor.Good64` | async/armor.C:278-332 | likewise base 64 |
| `Armor.Number32` | async/armor.C:99-106 | the digits of a block of base 32 are those of its bytes read as one number, most significant first |
| `Armor.Number64` | async/armor.C:278-281 | likewise base 64 |
| `Armor.Alphabets32` | async/armor.C:26-76 | the characters of the two base-32 alphabets, digit by digit; no others are digits |
| `Armor.Alphabets64` | async/armor.C:238-433 | likewise the three base-64 alphabets, and the padding |
| `Armor.PaddedIs` | async/armor.C:111-142 | the bytes missing from a last block count as zeros |
| `ArmorText.RoundTrip32` | async/armor.C:89-212 | decoding inverts encoding in base 32, for every string of bytes |
| `ArmorText.RoundTrip64` | async/armor.C:268-346 | for every string of bytes, with padding and without, and whatever follows the armor: decoding inverts encoding if and only if the armor consists of whole blocks or no digit follows it |
| `ArmorText.EveryAlphabet` | async/armor.C:26-433 | so for the five alphabets of the source: whatever follows, where the armor is padded, and then its length is one that is accepted; otherwise if no digit follows |
| `ArmorText.Armor32` | async/armor.C:89-146 | loop and switch write the armor, and its length is the one allotted |
| `ArmorText.Dearmor32` | async/armor.C:157-212 | the loop and the nested tests decode it |
| `ArmorText.Length32Back` | async/armor.C:164-170 | NULL exactly for lengths that no armor has; otherwise the length allotted |
| `ArmorText.Armor64` | async/armor.C:268-307 | likewise base 64, with its closing assertion |
| `ArmorText.Allotted64` | async/armor.C:274-274 | the padded length is the one allotted, a multiple of four |
| `ArmorText.Dearmor64` | async/armor.C:315-346 | the loop decodes the blocks, and the last one as far as digits go, in the text or behind it |
| `ArmorText.Fits64` | async/armor.C:321-342 | the result fits the space allotted if and only if no two digits follow a rest of one or two characters |
| `ArmorText.FollowedByDigits` | async/armor.C:335-342 | a text of two characters and two digits behind it: two bytes too many, one of them beyond the space allotted |

## Left out

- Separate use of `pre_resume` and `post_resume`, with calls in between: it breaks the issue order that the protocol relies on.
- The reliable server `asrv` and `asrv_delayed_eof`, and the `nsvc` counter of `xhinfo`: they take no part in the replay argument.
- AclntCalls.Aclnt.Call: calls that want no reply are not modelled (they use xid 0 and leave no state), nor is a `send_hook` that issues calls itself; a send that finds the transport at its end is an `Issue` followed by a `Refail`.
- AclntCalls.Aclnt.Fail: the end-of-file callback after the loop is not modelled by itself; what it does comes after a `Refail` among the operations of a callback, or is an event of its own.
- AclntCalls.Aclnt.Callback: callbacks and fail callbacks that stop, resume or delete the client are not modelled.
- AclntCalls.Aclnt.Dispatch: raw calls, whose callback runs before the call is deleted, are not modelled.
- ResumableRpcLiveness.Settles: that messages do arrive and that the service does answer is the caller's part; while new calls and acknowledgments keep coming there is no bound.
- AclntCalls.Aclnt.Resume: the retransmission of the calls is in `ResumableRpc`, not here.
- BackoffQueue.Tmoq.Tcb: a callback that breaks the conditions on callers, such as removing an entry twice, ends the account of the pass.
- Timers.TimerCore.TimecbCheck: a callback that starts another pass is not modelled, and a removed or fired timer is removed again by a panic, where the source may read freed memory first; the waiting time for `select` is not computed.
- Backoff.ApplyWf: the `next` and `pprev` links of the queues are sequences here, so that removing an entry twice, which the source's callers avoid, is not enabled rather than a corruption of links.
- SrvShuffle.Qsort: the library's sorting is its specification, not an algorithm.
- StreamFraming.Conservation: break markers (zero words) and descriptor passing are not modelled; a failed write or a bad length ends the connection.
- Bbuddy.Allocator.SetTotSize: shrinking, which the source refuses by an assertion, is excluded.
- XdrStreams.Decoding.Traverse: structures and unions, which generated code composes from these types, floating point (a lossy fixed-point form) and types that contain themselves are not modelled.
- The tree's and the hash table's memory management, `clear` and `deleteall`: nothing but loops over what is proved here.
- ArmorText.Dearmor32: negative lengths, for which the source measures the string first, are not modelled, nor are characters outside the alphabet, which it does not check for and whose -1 it shifts.
- ArmorText.Dearmor64: likewise.
- `cbuf`, the DNS resolver, `aiod`, configuration, logging, signals, processes and sockets: input and output, or no property worth stating.
- arpcgen: its meaning lies in the generated C++ code.
