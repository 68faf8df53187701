# Verified model of the IOCP network library

The library moves packets between a C++ application and TCP on Windows. This project models the
parts whose correctness is not visible from a single function and proves what they promise:

- **The recursive spin lock** (`SpinLock*.dfy`). Two shared words, `_count` and `_threadId`, of
  which only the compare-exchange is atomic. The lock is a step machine for any number of threads:
  every plain read or write of a shared word is a step of its own, and a schedule may interleave the
  threads in any order. An invariant gives mutual exclusion, an exact owner check and the absence of
  lost updates; a refinement maps every run to a run of an atomic recursive lock; no reachable state
  is stuck. Mutual exclusion holds for nesting depths up to 2^32 - 1 and no further.
- **The in-place tokenizer and key lookup** (`CString.dfy`, `Tokens.dfy`, `StrParser.dfy`,
  `WordLayout.dfy`, `KeyValue.dfy`, `Handshake.dfy`). A buffer is an array, tokens are heap nodes
  pointing into it, `strtok_s` and `strstr` are loops, after sections 7.24.5.8 and 7.24.5.7 of ISO/IEC 9899:2011 with
  the three-argument `strtok_s` whose context stays on the terminating NUL. Tokens are exactly the
  maximal delimiter-free runs; pairs written out, parsed and looked up come back; the WebSocket
  handshake's two lookups are an instance.
- **The packet stream** (`PacketStream.dfy`, `RecvBuffer.dfy`). What a byte stream means as packets,
  independent of how TCP cuts it up, what becomes of it in a buffer of 32500 bytes, and the receive
  buffer that cuts packets out in place while parts of packets wait.
- **The gathering send** (`SendQueue.dfy`, `SendOrder.dfy`, `SendBoundary.dfy`, `GatheringSend.dfy`).
  A ring of buffers that collects packets while one send is in flight. `SendQueue` is the machine of
  its lock-delimited steps, in any interleaving of senders, completions, `Clear` and `Initialize`, with
  refused sends, sends before the first connection and packets too long to send. `SendOrder` proves
  that every packet is handed over once and in order while neither of those two cuts into a send, and
  `SendBoundary` that this condition is exact. `GatheringSend` is the linked ring that implements the
  machine, step for step and in every state.
- **From sender to handler** (`Delivery.dfy`). The two ends put together.
- **A session's life** (`SessionLifecycle.dfy`). Reference counts, the Reference..Release brackets
  around callbacks, the emptying of the send buffers, and disconnects delivered at once or through
  the job queue, as steps of any number of threads.
- **Identifiers** (`NetId.dfy`, `EntityKey.dfy`), both under concurrent callers: the counter behind a
  `NetId` is loaded and stored in separate steps, the one behind an entity key is interlocked.
- **A session's own fields** (`NetSession.dfy` against `NetId.dfy`, `SessionSocket.dfy`,
  `SessionAddress.dfy`).

Shared words are 32 bits and identifiers 16 or 32 bits wide, and every wrap-around is written out.
Where a property needs a bound or a condition, it is proved to be the exact one; the lemmas that do
so mostly have names that end in `Iff`.

Assumptions: memory is sequentially consistent; thread ids are non-zero and distinct; `Unlock` is
called by a thread with a live scope, which `ScopedSpinLock` arranges; a session has at most one call
of `NewNetId` at a time, as it has one accept outstanding; an overlapped send is refused at once or
completes with its whole buffer as it was when posted, and TCP delivers the bytes sent, in order; two
threads do not encrypt the same packet at the same time, as the flag that tells is tested and set
without a lock; a handle returned by the operating system is not one still open; the resolver gives
whole addresses of the family it names; in the memory behind the handshake's buffer there is a NUL
somewhere. A `NetId` is read as an unsigned 32-bit number. A queued job runs once.

Results a reader of the sources may not expect:

- `README.md:108` calls a session's `NetId` unique. Its upper half is a 16-bit counter shared by all
  sessions and moved on by a plain `++`. Without overlapping calls a session gets an earlier `NetId`
  back after a multiple of 65536 stores of the counter, and only then (`NetId.FreshCollideIff`). A
  store whose load is out of date sets the counter back, and the exact condition counts what such
  stores have lost (`NetId.GrantsCollideIff`, `NetId.CountsUpIff`); a session can then get the `NetId`
  it already holds, two stores later (`NetId.GivenTwiceInARow`). Sessions with different indices never
  share one, in any interleaving (`NetId.NeverShared`).
- `PrepareBuffer` sets the posted length when the buffer is empty or what waits does not begin at its
  front. In the remaining case, which arises whenever a receive completed no packet, the length last
  used on that thread is posted again. The window stays inside the buffer exactly when that length is
  at most the room left, and is not empty exactly when it is not 0
  (`RecvBuffer.HNetIoRecv.PrepareBuffer`); for one session on one thread whatever arrives lies inside
  the buffer exactly when every receive completes a packet (`RecvBuffer.WindowsFitIff`), and for several
  exactly when each receive does or leaves no more waiting than the last that set the length
  (`RecvBuffer.ThreadFitsIff`). What a
  receive buffer delivers is therefore stated together with the condition that each chunk lies inside
  it (`PacketStream.FragmentationIrrelevant`, `Delivery.EndToEnd`).
- `HNetPacket::Check` accepts a packet of 32500 bytes, but `Gathering::Append` demands that strictly
  less than 32500 bytes are in the buffer afterwards. Such a packet fits no buffer, however empty, so
  the loop in `Send` ends exactly for shorter ones (`SendQueue.NeverPlacedIff`); it holds the lock.
- `Send` before the first `Initialize` returns without giving the lock back. The lock is free between
  calls exactly if there has been no such call and none with a packet too long (`SendQueue.LockFreeIff`).
- `OnRelease` empties the send buffers first, and before the first `Initialize` there are none: the
  process ends there, in exactly those runs (`SessionLifecycle.CrashedIff`), and a release that has
  reached 0 can be delivered only once there has been an `Initialize` (`SessionLifecycle.CanSettleIff`).
- `Clear` and `Initialize` take no lock and do not ask whether a send is under way. What is handed to
  the kernel is, at every moment and however things go on, a front part of what was accepted, each
  packet once, if and only if neither comes while a send stands between its lock and its completion
  (`SendBoundary.HandedOnceIff`, `SendBoundary.BoundaryIff`). Otherwise a packet can go out twice: a
  thread that has left the lock in `HNet::_Send` holds no reference yet, so the session can be cleared
  and initialised before it posts (`SendBoundary.SentTwiceAcrossClear`), and a send during a reconnect
  can be in flight when `Initialize` forgets it (`SendBoundary.SentTwiceAcrossInitialize`). A caller
  that holds a reference across `Send` excludes the first.
- A packet sent between `OnRelease` and the next connection's `Initialize` and not posted by then goes
  out in front of the next connection's first packet. From a `Clear` with nothing pending the next
  connection is free of such packets exactly if nothing is pending at `Initialize`; from one with a
  refused send, exactly if everything sent since is empty (`SendOrder.NextConnection`,
  `SendOrder.FoundGoesOutFirst`).
- With no reference outstanding, and exactly then, `_OnDisconnect` on a valid socket goes from 0 to 1
  and back and fires `OnRelease` once more, so disconnects are conserved per release that reaches 0,
  not per connection (`SessionLifecycle.DisconnectFiresIff`).
- The handshake parses a C string, but nothing puts a NUL behind the bytes received. The string is the
  request exactly if one happens to follow; otherwise it goes on with what the buffer held before
  (`Handshake.StringIsRequestIff`).
- A refused send is not tried again: until the next `Initialize` nothing more is handed to the kernel,
  and what is sent is only gathered (`SendOrder.RefusedIsFinal`).
- A lookup reaches its own pair exactly when no earlier token still shows the key
  (`KeyValue.FindsOwnIff`). `KeyValue` writes a NUL behind the key: looking the same key up again
  returns the empty string (`KeyValue.LookUpAgain`). A second `Parsing` drops the old list unfreed and adds to the old count.

A few predicates carry their content under `forall u :: Shown(u) ==>`, where `Shown` is always true;
this only keeps the content out of proofs that pass it on.

`Network/HNetIo.cpp`, `Network/HNet.cpp` and `Network/HNetPacket.cpp` are stored in the CP949 encoding,
so tools that expect UTF-8 cannot show their lines. Rows about them cite a UTF-8 file instead, the
repository's description of the behaviour or the lines of `HNetSession.cpp` that call it, and name the
lines of the code in the last column.

## Model

| member | source | states |
|---|---|---|
| SpinLockSafety.StepKeepsInv | Network/Common/SpinLock.cpp:34-70 | every single step of any thread, plain writes included, keeps the invariant that ties both words to the one holder |
| SpinLockSafety.MutualExclusion | Network/Common/SpinLock.cpp:39-69 | in every interleaving two threads that hold the lock, from the winning compare-exchange to the clearing write, are the same thread |
| SpinLockSafety.OwnerCheckExact | Network/Common/SpinLock.cpp:39-45 | at the unsynchronised comparison the owner word names the running thread if and only if it is inside a scope of the lock |
| SpinLockSafety.OthersLeaveWords | Network/Common/SpinLock.cpp:39-69 | while one thread holds the lock no step of another changes either word |
| SpinLockSafety.NoLostUpdate | Network/Common/SpinLock.cpp:43-69 | the value read by `++_count` or by `Unlock` is still the word's value when the result is written, and neither wraps |
| SpinLockSafety.NestingExact | Network/Common/SpinLock.cpp:34-83 | a holder outside Lock and Unlock finds its number of live scopes in `_count` and its id in `_threadId`; with no scope and no call both words are 0 |
| SpinLockRefinement.StepRefines | Network/Common/SpinLock.cpp:34-70 | a step either commits one operation the atomic lock permits and moves to its result, or leaves the atomic lock as it was |
| SpinLockRefinement.Refinement | Network/Common/SpinLock.cpp:34-70 | the commits of every interleaved run replay on an atomic recursive lock and end in the lock the final state stands for |
| SpinLockRefinement.OneCommitPerCall | Network/Common/SpinLock.cpp:34-70 | each returned Lock committed one entry and each returned Unlock one exit; the only commit ahead of its return is a Lock about to write the owner word |
| SpinLockProgress.LockAloneReturns | Network/Common/SpinLock.cpp:39-56 | with the lock free or its own, a thread alone returns from Lock within four steps, one scope deeper |
| SpinLockProgress.HolderCanLeave | Network/Common/SpinLock.cpp:59-70 | the holder by itself finishes its call and leaves all its scopes in an exactly known number of steps, both words 0 |
| SpinLockProgress.WaitingLockCanReturn | Network/Common/SpinLock.cpp:34-70 | from every reachable state a waiting Lock can return after the holder's bounded steps and at most four of its own |
| SpinLockBound.ExclusionIffBelowWord | Network/Common/SpinLock.cpp:39-43 | mutual exclusion holds in all runs if and only if nesting stays below 2^32 |
| SpinLockLogging.SpinInLock | Network/Common/SpinLock.cpp:36-54 | against any values left by others, the loop ends at the first attempt that reads a count of 0 or the caller's own id, acquiring if the count is 0 and re-entering otherwise, and the f attempts before it call the log f/4001 times |
| SpinLockLogging.LoopIsMachine | Network/Common/SpinLock.cpp:39-45 | in every interleaving the loop, fed with what a thread reads there, acquires, re-enters or spins on exactly as that thread does in the step machine |
| SpinLockLogging.LogThrottle.LogSpinLock | Network/Common/SpinLock.cpp:3-16 | a line is written exactly if the 64-bit difference to the last is at least 3000 ms; on a clock that has not gone back the lines so far are at most elapsed/3000 + 1 |
| SpinLockLogging.LogRateBounded | Network/Common/SpinLock.cpp:5-10 | with a clock that does not go back, one thread writes at most elapsed/3000 + 1 lines |
| CString.StrTok | Network/Common/StrParser.cpp:43 | what one strtok_s call returns, where it leaves the context, and the one character it may overwrite |
| CString.StrStr | Network/Common/StrParser.cpp:83 | strstr as a loop finds the first match |
| CString.FirstMatchIsFirst | Network/Common/StrParser.cpp:83-85 | a match is found if and only if the key occurs in the C string, wholly inside it, and no earlier one exists |
| Tokens.SpansAreRuns | Network/Common/StrParser.cpp:38-54 | the tokens are the maximal delimiter-free runs of the original text, all of them, each once, in order |
| Tokens.TokenReads | Network/Common/StrParser.cpp:38-54 | read as a C string from the altered buffer, every token is its run of the original |
| Tokens.CutFrame | Network/Common/StrParser.cpp:41-54 | only the delimiter right behind a token changes, and it becomes NUL |
| Tokens.CutIsRecoverable | Network/Common/StrParser.cpp:41-54 | the tokens and the one character behind each, a delimiter or the final NUL, are enough to get the original buffer back |
| StrParser.StrParser.Parsing | Network/Common/StrParser.cpp:33-57 | the list is the tokens of the text in order, the buffer is the text cut behind them, the count adds up over calls, and without any token the old list stays |
| StrParser.NoCycle | Network/Common/StrParser.cpp:39-51 | the list built through the cursor never comes back to a node |
| StrParser.StrParser.FindKey | Network/Common/StrParser.cpp:79-91 | the first token in list order that holds the key, and the first place in it |
| StrParser.StrParser.KeyValue | Network/Common/StrParser.cpp:59-77 | the value's place and the further cut, or nothing for a missing key; every token stays a C string |
| StrParser.StrParser.Destroy | Network/Common/StrParser.cpp:22-31 | every node is deleted, once, front to back |
| WordLayout.SpansOfWords | Network/Common/StrParser.cpp:33-57 | the tokens of words written with delimiters between them are exactly the words, where they were laid out |
| KeyValue.SpansOfRender | Network/Common/StrParser.cpp:33-57 | the tokens of written pairs are exactly the pairs |
| KeyValue.FindsOwnIff | Network/Common/StrParser.cpp:79-91 | whatever has been looked up before, a lookup goes to its own pair if and only if no earlier token still shows the key |
| KeyValue.LookUpAgain | Network/Common/StrParser.cpp:59-77 | looking a key up again returns the empty string and changes nothing |
| KeyValue.LookAllFinds | Network/Common/StrParser.cpp:59-91 | lookups in any order, each key once, go to their own values and keep every pair where it stands |
| KeyValue.RoundTrip | Network/Common/StrParser.cpp:33-91 | pairs written out with no key in an earlier pair's text, parsed by a fresh parser and looked up in any order, each at most once, give back exactly their values, still there after all lookups |
| KeyValue.ReadInOrder | Network/Common/StrParser.cpp:33-91 | the same on the parser object: Parsing and then KeyValue for the keys in any order |
| Handshake.StringIsRequestIff | README.md:290-294 | the string parsed is the request received exactly if a NUL follows it, and otherwise the request with what the buffer held before behind it (code: HNetIo.cpp 794-812, 847-868) |
| Handshake.ReadFields | README.md:290-294 | the handshake's parse and two lookups return the key and the protocol of every request of any lines that has both, with neither name in a line before its own, and is followed by a NUL (code: HNetIo.cpp 867-888) |
| Handshake.SpelledReads | README.md:290-294 | for a short request with both header names spelled out the lookups read its key and its protocol, whatever they are (code: HNetIo.cpp 867-888) |
| PacketStream.ParseIsExact | README.md:144-170 | cutting at the header sizes loses nothing, every piece is a whole packet that passes Check, and the rest is too short for one or has a bad header (code: HNetIo.cpp 393-428, HNetPacket.cpp 23-33) |
| PacketStream.IsPacketIff | README.md:168-191 | the bytes of a type and a body, size and type low byte first, pass as a packet exactly for a type other than 65535 and a body of at most 32496 bytes, and which bytes do is said byte by byte (code: HNetPacket.cpp 23-33) |
| PacketStream.WireComesFirst | README.md:168-191 | a stream that begins with the bytes of such a packet gives that packet first and is cut on behind it (code: HNetIo.cpp 393-428) |
| PacketStream.RefusedIff | README.md:168-191 | a stream is refused at once exactly when its first type is FF FF or its first size is below 4 or above 32500 (code: HNetIo.cpp 393-428, HNetPacket.cpp 23-33) |
| PacketStream.ParseContinues | README.md:144-170 | more bytes continue where the cutting stopped, and change nothing once a bad header has come (code: HNetIo.cpp 393-428) |
| PacketStream.CipherTwice | Network/HNetSession.cpp:370-374 | the cipher is 0xEE on every byte of the body, decrypting undoes encrypting, and an encrypted packet is still a packet (code: HNet.cpp 141-161) |
| PacketStream.FragmentationIrrelevant | README.md:144-170 | however TCP splits and joins the stream, the buffer holds out exactly if each chunk lies inside it, and then the same messages are delivered in the same order and the same bytes wait |
| PacketStream.DeliveredIsPrefix | README.md:144-170 | while a part of the stream is still coming and each chunk has lain inside the buffer, a front part of the packets sent has been delivered, and the bytes waiting and coming are the rest |
| RecvBuffer.Decrypt | Network/HNetSession.cpp:370-374 | the body is flipped in place and nothing else changes (code: HNet.cpp 155-161) |
| RecvBuffer.HNetIoRecv.constructor | Network/HNetSession.cpp:29-57 | an empty buffer of 32500 bytes, with other memory behind it (code: HNetIo.cpp 332-352) |
| RecvBuffer.HNetIoRecv.PrepareBuffer | README.md:144-170 | what waits is kept and moved to the front, there is room behind it, and the posted window stays in the buffer, and is not empty, if and only if the length was set or the old one happens to do (code: HNetIo.cpp 367-391) |
| RecvBuffer.HNetIoRecv.OnMessage | Network/HNetSession.cpp:370-374 | the handler gets the decrypted packet and the bytes behind it are untouched |
| RecvBuffer.HNetIoRecv.Turn | README.md:144-170 | one turn of the loop takes one whole packet, or stops with the right verdict and everything unread waiting (code: HNetIo.cpp 398-425) |
| RecvBuffer.HNetIoRecv.Completed | README.md:144-170 | the in-place loop delivers exactly the packets of what waited and what came, however much came, keeps exactly the rest, answers false exactly at a bad header and touches nothing behind what came (code: HNetIo.cpp 393-428) |
| RecvBuffer.HNetIoRecv.Recved | README.md:144-170 | the next receive is posted unless nothing came, the stream is bad or the session is disconnecting; what came inside the buffer leaves the memory behind it alone (code: HNetIo.cpp 487-504) |
| RecvBuffer.Worker | README.md:144-170 | consecutive receives of one session, of any sizes, leave the messages and the waiting bytes of the whole stream, and while each chunk lies inside the buffer the memory behind it is untouched (code: HNetIo.cpp 63-73, 468-504) |
| RecvBuffer.WindowsFitIff | README.md:144-170 | over every run of one session on one thread whatever may arrive, up to the length posted, lies in the buffer if and only if every receive completes a packet (code: HNetIo.cpp 367-391) |
| RecvBuffer.ThreadFitsIff | README.md:144-170 | for any sessions on one thread, in any order, whatever may arrive lies in its buffer if and only if each receive completes a packet or leaves no more waiting than the last that set the length (code: HNetIo.cpp 367-391) |
| RecvBuffer.CompletingIsRoomy | README.md:144-170 | in a run whose receives each complete a packet, none longer than posted, each chunk lies inside the buffer (code: HNetIo.cpp 367-391) |
| RecvBuffer.OneByteThenFull | README.md:144-170 | one byte into a fresh buffer and then a full window as posted is a run that leaves the buffer (code: HNetIo.cpp 372-386) |
| SendOrder.StepKeeps | README.md:213-266 | every step, over all connections, that does not clear or initialise while a send is under way keeps: nothing accepted is lost, doubled, split or out of order, and the buffer on its way is not the one being filled (code: HNetIo.cpp 599-687, 740-757) |
| SendOrder.StepFlows | README.md:213-266 | such a step other than Initialize keeps that no bytes lie queued with no send pending; Initialize does exactly if it finds only the head buffer in use and no bytes in it (code: HNetIo.cpp 599-687) |
| SendOrder.PostedIsFrontOfSent | README.md:213-266 | in every interleaving within a connection that began with no send under way the packets handed to the kernel are a front part of those found and those sent, and the remainder is in the buffers; with nothing pending no bytes are, if none were found (code: HNetIo.cpp 637-687) |
| SendOrder.NextConnection | Network/HNetSession.cpp:403-405 | Initialize finds exactly what was sent since Clear and not posted since; from a Clear with nothing pending the next connection starts clean if and only if nothing is pending, from one with a refused send if and only if everything sent since is empty (code: HNetIo.cpp 599-624, 740-757) |
| SendOrder.FoundGoesOutFirst | README.md:213-226 | what Initialize finds goes out in front of the next connection's first packet (code: HNetIo.cpp 637-662) |
| SendOrder.TailMovesOnlyWhenFull | README.md:213-226 | small packets are gathered: in every interleaving within a connection that began with no bytes in the buffers, each buffer between the head and the tail had no room, below 32500 bytes, for the first packet of the next (code: HNetIo.cpp 562-573, 637-687) |
| SendOrder.StepPacks | README.md:213-226 | every step keeps that, and makes a new buffer only when the tail has come to the last (code: HNetIo.cpp 626-687) |
| SendOrder.RefusedIsFinal | README.md:213-226 | after a refused send nothing is handed over until the next Initialize, and everything sent stays in the buffers behind what was refused (code: HNetIo.cpp 637-687, 740-757) |
| SendBoundary.BoundaryIff | Network/HNetSession.cpp:403-405 | Clear or Initialize leaves every continuation in order, each packet handed over once, if and only if no send stands between its lock and its completion (code: HNetIo.cpp 599-687, 740-757) |
| SendBoundary.HandedOnceIff | README.md:213-266 | over all connections, while no call keeps the lock: what is handed to the kernel is at every moment and in every continuation a front part of what was accepted, if and only if no Clear and no Initialize comes while a send is under way (code: HNetIo.cpp 599-687, 740-757) |
| SendBoundary.SentTwiceAcrossClear | Network/HNetSession.cpp:403-405 | a thread that has left the lock, Clear, Initialize and the next connection's first send: its packet is posted twice (code: HNetIo.cpp 599-662, 740-757) |
| SendBoundary.SentTwiceAcrossInitialize | Network/HNetSession.cpp:325-338 | a send in flight at Initialize and one more send: the first packet is posted twice (code: HNetIo.cpp 599-662, 740-757) |
| SendQueue.LockFreeIff | README.md:266 | in every run the lock is free between calls if and only if no packet too long and none before the first Initialize was sent (code: HNetIo.cpp 637-662) |
| SendQueue.TriedIff | README.md:213-226 | given n turns the loop of Send has placed a packet if and only if it is shorter than a buffer and n turns are as many as it needs (code: HNetIo.cpp 562-573, 637-646) |
| SendQueue.NeverPlacedIff | README.md:213-226 | no number of turns places a packet that passes Check if and only if it has the maximum size (code: HNetIo.cpp 562-573, 637-646) |
| SendOrder.OneStepNearer | README.md:213-226 | while a send is on its way exactly one completion step is due, and it comes one step nearer to the end (code: HNetIo.cpp 664-687) |
| SendOrder.CompletionsDrain | README.md:213-226 | once no more is sent and while nothing is refused the completions end, with everything posted, after a number of steps known beforehand (code: HNetIo.cpp 664-687) |
| GatheringSend.Gathering.Append | README.md:213-226 | a packet is appended whole behind what the buffer holds, exactly when both together stay below 32500 bytes (code: HNetIo.cpp 562-573) |
| GatheringSend.HNetIoSend.Initialize | Network/HNetSession.cpp:45-57 | the machine's Initialize step, whatever is under way; the first time a ring of one empty buffer (code: HNetIo.cpp 599-611) |
| GatheringSend.HNetIoSend.Clear | Network/HNetSession.cpp:403-405 | every buffer of the ring is emptied and the head is where the tail was, whatever is under way; without buffers it does not come to that (code: HNetIo.cpp 613-624) |
| GatheringSend.HNetIoSend.NextBuffer | README.md:213-226 | the tail moves to the next buffer, a new one if that is the head, and the ring stays a ring (code: HNetIo.cpp 626-635) |
| GatheringSend.HNetIoSend.Place | README.md:213-226 | the loop of Send, given n turns, leaves the ring as n turns of the machine do, packet placed or not (code: HNetIo.cpp 644-647) |
| GatheringSend.HNetIoSend.Send | README.md:213-266 | the linked ring does exactly the queue machine's Send step for packets of every length, the lock kept where the code keeps it, and tells the caller to post exactly when nothing was pending (code: HNetIo.cpp 637-662) |
| GatheringSend.HNetIoSend.PostHead | README.md:213-226 | the bytes given to WSASend are those of the packets in the head buffer, whether it takes them or refuses (code: HNetIo.cpp 740-757) |
| GatheringSend.HNetIoSend.ReleaseHead | README.md:213-226 | emptying the head buffer before taking the lock is the machine's Release step (code: HNetIo.cpp 664-668) |
| GatheringSend.HNetIoSend.Advance | README.md:213-226 | moving on under the lock is the machine's Advance step, and posts again exactly when the new head holds bytes (code: HNetIo.cpp 670-686) |
| Delivery.WsaSend.Encrypt | Network/HNetSession.cpp:370-374 | however often one packet is sent, each byte of its body is its author's byte xor 0xEE, and the header is its author's (code: HNet.cpp 141-153) |
| Delivery.EndToEnd | README.md:144-170 | in a connection that began with no send under way and no bytes in the buffers, for every interleaving of senders and completions and every cutting by TCP, the receive buffer holds out if and only if each chunk lies inside it, and then the handler has been given a front part of the packets sent, whole, once, in order, decrypted; all of them once nothing is pending or on its way |
| Delivery.WorkerEndToEnd | README.md:144-170 | the same of the buffer object driven by a worker thread, with the memory behind the buffer untouched (code: HNetIo.cpp 63-73, 367-504) |
| SessionLifecycle.RefCount.Release | Network/Common/RefCount.cpp:23-27 | OnRelease is called if and only if no reference is left, as long as those held stay below 2^32 |
| SessionLifecycle.DisconnectsConserved | Network/HNetSession.cpp:386-411 | in every run and both threading modes, a crash in OnRelease included, releases that reached 0 are the disconnects delivered, queued and in progress |
| SessionLifecycle.DirectInMultiThread | Network/HNetSession.cpp:239-242 | in every run in multi-thread mode nothing is ever queued, each reconnect opens its bracket at once, and every disconnect is delivered by the direct call in OnRelease |
| SessionLifecycle.QueuedInSingleThread | Network/HNetSession.cpp:239-261 | in every run in single-thread mode jobs run once and in the order posted, a reconnect job opens a bracket, a disconnect job calls `_Disconnected`; OnRelease calls it itself only as often as no job could be made, and otherwise only jobs deliver |
| SessionLifecycle.CountIsOutstanding | Network/Common/RefCount.cpp:18-27 | the count is the number of outstanding references modulo 2^32, exactly that number while fewer are held |
| SessionLifecycle.FiresIff | Network/Common/RefCount.cpp:23-27 | OnRelease is called by a Release and by nothing else, exactly when the references left over are a multiple of 2^32 |
| SessionLifecycle.BracketSafeIff | Network/HNetSession.cpp:306-350 | in any interleaving no OnRelease is called inside a bracket, or while an I/O job is queued or runs, if and only if at most 2^32 references are ever held at once (code of the I/O jobs: HNetIo.cpp 1121-1198) |
| SessionLifecycle.DisconnectFiresIff | Network/HNetSession.cpp:386-396 | from every reachable state `_OnDisconnect` on a valid socket, undisturbed, calls OnRelease once more if and only if the count was 0 |
| SessionLifecycle.CrashedIff | Network/HNetSession.cpp:403-405 | the process ends in OnRelease in exactly the runs in which one empties the send buffers before the first Initialize, and until then no disconnect is delivered or queued |
| SessionLifecycle.CanSettleIff | Network/HNetSession.cpp:403-411 | a release that reached 0 and stands before the emptying can still be delivered, with no Initialize to come, if and only if there has been one |
| SessionLifecycle.CanSettle | Network/HNetSession.cpp:398-411 | from every state reached after an Initialize calls and queue can run to their end in a bounded number of steps, and then every crossing has been delivered |
| NetSession.HNetSession.constructor | Network/HNetSession.cpp:4-22 | no socket, a zero address, and an identifier that holds the index below the counter |
| NetSession.HNetSession.NewNetId | Network/HNetSession.cpp:220-227 | with no other call in between the Id stays, and the counter, moved on by one, stands above it |
| NetSession.HNetSession.Open | Network/HNetSession.cpp:81-118 | the old handle is closed, the new one is the socket even if a later option fails, and the call succeeds exactly when the socket and all options did |
| NetSession.HNetSession.OpenStored | Network/HNetSession.cpp:73-79 | without a stored family nothing happens; with one it is Open for that family, result included |
| NetSession.HNetSession.Close | Network/HNetSession.cpp:120-125 | the handle is closed and forgotten |
| NetSession.HNetSession.HostToAddr | Network/HNetSession.cpp:263-294 | it succeeds exactly when some entry is IPv4 or IPv6; then the first such entry's bytes, 16 or 28, stand at the front with the port high byte first in bytes 2 and 3 and the old bytes behind; otherwise the address is left alone |
| NetSession.HNetSession.GetPort | Network/HNetSession.cpp:192-207 | the port given when the address was stored, which stands high byte first in bytes 2 and 3 |
| NetSession.HNetSession.SetAddress | Network/HNetSession.cpp:142-146 | the first usable entry's bytes over the copied address, whose port survives the new resolution; without one the copied address |
| SessionAddress.PortRoundTrip | Network/HNetSession.cpp:192-207 | through the byte swap and either layout the port read back is the port given, and the family is the entry's |
| SessionAddress.StoredBytes | Network/HNetSession.cpp:276-288 | byte by byte what storing an entry and a port leaves, 16 bytes for IPv4 and 28 for IPv6 |
| SessionSocket.HandlesConserved | Network/HNetSession.cpp:24-125 | over every sequence of opens and closes with any results, each handle obtained is the current socket or has been closed exactly as often as obtained; after the destructor none is left |
| SessionSocket.LogIsComplete | Network/HNetSession.cpp:24-125 | over every sequence of opens and closes with any results, the handles obtained are all that were made, and those closed are the same in the same order, but for the last while it is the current socket |
| NetId.IdStaysIndex | Network/HNetSession.cpp:220-232 | in every interleaving of the loads, stores, rereads and writes of any number of calls, at every moment, Id() is the index the session was constructed with |
| NetId.NeverShared | Network/HNetSession.cpp:220-232 | sessions with different indices never share a NetId, at any two moments of any interleaving |
| NetId.GrantIs | Network/HNetSession.cpp:220-227 | in every interleaving a call returns the index below the seed and the stores of the counter up to the value used, less what stale stores have lost |
| NetId.ReloadUses | Network/HNetSession.cpp:222-224 | a call that reads the counter again returns what the counter holds then, whoever stored it; one that does not returns the value it stored |
| NetId.GrantsCollideIff | Network/HNetSession.cpp:220-232 | two identifiers handed out in an interleaved run are the same if and only if they went to the same index and the stores between them, less what was lost between them, are a multiple of 65536 |
| NetId.CountsUpIff | Network/HNetSession.cpp:222-224 | the counter counts its stores one by one in exactly the runs without a store of an out-of-date load |
| NetId.FreshCollideIff | Network/HNetSession.cpp:220-232 | in those runs two identifiers are the same if and only if they went to the same index a multiple of 65536 stores apart |
| NetId.GivenTwiceInARow | Network/HNetSession.cpp:220-227 | from every seed an interleaving with the construction of another session in which a session is given the identifier it holds, and the old holder finds the new connection |
| NetId.LookupIff | README.md:108 | in every interleaving an identifier leads to its own session if the last one that session was given is the same number, by the condition above, and otherwise nowhere (code: HNet.cpp 246-256) |
| EntityKey.KeysAreUnique | Network/Common/Entity.cpp:5-14 | in every interleaving of at most 2^32 increments all keys are non-zero and distinct |
| EntityKey.KeysCountUp | Network/Common/Entity.cpp:5-14 | whoever calls, the keys are the numbers behind the starting tick one by one, and past 2^32 - 1 they go on at 1 |
| EntityKey.UniqueIffOnePeriod | Network/Common/Entity.cpp:5-14 | that bound is exact from every starting tick |

## Left out

- Weak memory ordering, priorities and fairness of the scheduler.
- WebSocket framing, masking, SHA1 and Base64; of the handshake only the two lookups.
- The worker loops of the completion port, accept and connect calls, and what Winsock does behind them: their results are parameters or assumptions.
- The single-thread receive path, which copies the I/O object and its residue into a job; `SendJob` and `SendedJob`, which nothing calls on a running session.
- Handshake.ReadFields: stated for memory that holds a NUL somewhere from the buffer on, since without one the library routines it calls have no defined result.
- GatheringSend.Gathering.Append: the bytes of the fixed buffer behind the used length are not modelled, so the buffer is a sequence.
- GatheringSend.HNetIoSend.Send: the loop is given a number of turns, since for a packet that fits no buffer it does not end.
- GatheringSend.HNetIoSend.Clear: one step, although without a lock another thread could come between the emptying of two buffers.
- SendBoundary.HandedOnceIff: the bytes of a send in flight are those of its post; what the kernel reads of a buffer refilled meanwhile is not modelled.
- RecvBuffer.HNetIoRecv.Completed: a handler that changes the session from within the callback, and another user of the memory behind the buffer, are not modelled.
- RecvBuffer.HNetIoRecv.PrepareBuffer: overlapping bytes are moved as memmove does, although memcpy does not promise it.
- SendOrder.PostedIsFrontOfSent: packets are compared as they were queued; a packet sent to several sessions shares one encrypted buffer, whose freeing is not modelled.
- SessionLifecycle.DisconnectsConserved: calls carry no data, so threads are counted by program point; a job leaves the queue when it starts, while `Update` pops it after it has run, under the same lock.
- NetId.IdStaysIndex: two calls of NewNetId on one session at a time are not modelled.
- StrParser.StrParser.Parsing: `_count` is an unbounded integer, and a failed allocation of a token does not occur.
- Read-write locks, memory pool, serialisation buffer, message table, job, timer and database helpers: thin wrappers, or code whose callers decide what it means.
