# eTran: models and proofs

eTran runs TCP and the Homa message protocol in user space over AF_XDP, with a
micro kernel that does congestion control and timeouts. This project models its
most intricate logic in Dafny, component by component, and proves what each
component is for.

| file | what it models |
|---|---|
| `Basics.dfy` | what several components share |
| `Words.dfy` | machine words: wrap-around, powers of two, bitwise AND |
| `Lrpc.dfy`, `LrpcChannel.dfy` | the single-producer, single-consumer LRPC ring: a state machine over the steps of both sides, and the calls themselves as a class |
| `PoolLayout.dfy`, `Mempool.dfy` | the size-class memory pool: splitting, freeing, growing |
| `HomaSegments.dfy`, `HomaSend.dfy` | cutting a message into packets, interrupted and resumed, and the chain of buffers that holds them |
| `HomaReceive.dfy`, `HomaServer.dfy` | reassembly in any order and with repeats, and all the requests of a server, interleaved |
| `HomaHoles.dfy`, `HomaResend.dfy` | the first hole of a packet bitmap, the RESEND request, and cloning the requested packets |
| `HomaTimer.dfy`, `HomaTimerLive.dfy`, `HomaTimerTable.dfy` | the timeout machine of one RPC over whole runs: when it may fire and when it must, and the shadow table that holds all of them |
| `Epoll.dfy`, `EpollLayer.dfy` | epoll instances over eTran sockets |
| `RealSteps.dfy`, `Dctcp.dfy`, `DctcpTick.dfy` | arithmetic on reals, the DCTCP reference on unbounded numbers and reals, and its two fixed-width implementations |
| `TcpReorder.dfy` | the TCP receive side's single out-of-order interval |
| `TcpOptions.dfy` | reading TCP options, and the options of a control packet |
| `Checksum.dfy` | the alignment-independent Internet checksum |
| `TimeTrace.dfy` | circular trace buffers and their merged print-out |
| `JsonText.dfy`, `JsonReader.dfy`, `JsonWriter.dfy` | JSON printers, a reader, and the streaming writer |

Where the source updates fields, arrays or maps in place, the model is a class or
a method with loops, proved against functions; the properties are lemmas about
those functions, and class invariants. Every clock, random choice, snapshot of
kernel state and outcome of a system call is a parameter.

Some promises hold only under a condition. These are stated as
if-and-only-if lemmas, or with a concrete failing input and the condition:

- A retransmitted frame is a copy of the first `min(mss, length)` bytes of the
  frame, counted from the start of the frame and not of its payload. It is complete
  exactly when the packet with its headers is no longer than that, so a full packet
  loses its last 94 bytes (`HomaResend.CloneCompleteness`, `HomaResend.PacketSurvives`).
- The clones are linked behind the old chain exactly when there is nothing to
  clone, no free buffer, or the walk saw the chain's last buffer
  (`HomaResend.ChainAfterwards`); otherwise the link is stored under the end-of-chain
  marker, as `HomaResend.TooFewBuffers` shows for three packets and one buffer.
- `get_resend_range` asks for 100 bytes from offset 0 for an outgoing RPC, while its
  comment speaks of a full packet (`HomaHoles.GetResendRange` follows the code). The
  answer is complete exactly for payloads of at most 6 bytes
  (`HomaResend.OutgoingSurvives`).
- The out-of-order interval keeps tiling exactly when its 32-bit length does not
  overflow (`TcpReorder.StepKeepsInvIff`, `TcpReorder.RunTilesIff`). It cannot within
  2^32 bytes (`TcpReorder.ShortRunFits`), and segments of 1 KB held behind a gap reach
  the overflow (`TcpReorder.OverflowLosesInterval`).
- The list of received buffers stays in sequence order exactly when no merge happens
  (`TcpReorder.OrderKeptIff`); three segments suffice to lose it
  (`TcpReorder.OrderLost`).
- `parse_tcp_opts` stops on all memory exactly when the header length is not 3 or 4
  (`TcpOptions.TerminatesIff`).
- A memory pool satisfies its own assertions exactly when it is created with at least
  4 MB (`Mempool.Pool.constructor`); a smaller one fails them at its first allocation
  (`Mempool.FirstGrowth`).
- A message of `n` packets is handed over at every `n`-th arrival of its packets,
  repeats included, and what is handed over is the message, whatever the buffer held
  before, exactly when those `n` arrivals are distinct
  (`HomaServer.CompletesIffDistinct`; `HomaReceive.RepeatCompletesEarly` is an input
  on which it is not). This is what `server_request` and `client_response` alone
  promise. In the whole system the eBPF programs drop a packet whose bit is already
  set (eTran/micro_kernel/eBPF/homa/rpc.h:1501-1509 for requests, 1378-1384 for
  responses), so that repeats do not reach them.
- The JSON writer escapes the apostrophe and passes other control characters
  through, so its strings follow section 7 of RFC 8259 exactly when they have none
  of these (`JsonText.StandardIff`).

## Model

| member | source | states |
|---|---|---|
| `Words.AndMask` | eTran/common/base/lrpc.h:77-77 | `x & (2^k - 1)`, computed bit by bit, is `x mod 2^k` |
| `Words.PowerOfTwoMeans` | eTran/common/base/stddef.h:83-83 | the power-of-two test accepts exactly the powers of two |
| `LrpcProtocol.MasksSurviveWrap` | eTran/common/base/lrpc.h:77-78 | slot index and lap parity of a 32-bit head that has wrapped are those of the unbounded message count |
| `LrpcProtocol.FreshHasInv` | eTran/common/base/lrpc.cc:38-71 | a zeroed table of power-of-two size satisfies the invariant |
| `LrpcProtocol.SpaceCheckExact` | eTran/common/base/lrpc.cc:8-27 | the assertion on entry to the slow path holds, and a send is refused exactly when `size` messages are unreleased |
| `LrpcProtocol.EmptyIsExact` | eTran/common/base/lrpc.h:121-126 | the parity test says empty exactly when every published message has been received |
| `LrpcProtocol.BeginSendSound` | eTran/common/base/lrpc.h:67-84 | the space check and the claim of a slot, on the fast or slow path, keep the invariant |
| `LrpcProtocol.CopyInSound` | eTran/common/base/lrpc.h:80-80 | each byte copied into the slot keeps the invariant: the receiver never sees it |
| `LrpcProtocol.PublishSound` | eTran/common/base/lrpc.h:82-82 | storing the command word publishes exactly the whole message |
| `LrpcProtocol.BeginRecvSound` | eTran/common/base/lrpc.h:98-115 | a receive starts exactly when a message is published, and keeps the invariant |
| `LrpcProtocol.CopyOutSound` | eTran/common/base/lrpc.h:111-111 | each byte copied out is a byte of the oldest message, whatever the sender does meanwhile |
| `LrpcProtocol.WriteBackSound` | eTran/common/base/lrpc.h:109-114 | what was copied out is the oldest message, whole, and releasing its slot keeps the invariant |
| `LrpcProtocol.StepKeepsInv` | eTran/common/base/lrpc.h:67-126 | every step of either side keeps the invariant |
| `LrpcProtocol.RunKeepsInv` | eTran/common/base/lrpc.h:67-126 | so every state of every interleaving satisfies it |
| `LrpcProtocol.StepRefinesFifo` | eTran/common/base/lrpc.h:67-115 | every step is a step of an abstract queue: publishing appends the message, releasing removes the first one |
| `LrpcProtocol.RunIsFifo` | eTran/common/base/lrpc.h:67-126 | in every run from a zeroed table the messages received are a prefix of those sent, heads differ by 0 to `size` modulo 2^32, and emptiness is exact |
| `LrpcProtocol.SendAllSound` | eTran/common/base/lrpc.h:67-84 | an uninterrupted send appends its message, or refuses exactly when the ring is full |
| `LrpcProtocol.SendAllIsRun` | eTran/common/base/lrpc.h:67-84 | an uninterrupted send is a run of the protocol |
| `LrpcProtocol.RecvAllIsRun` | eTran/common/base/lrpc.h:98-115 | an uninterrupted receive is a run that takes the oldest message, or refuses exactly when there is none |
| `LrpcChannel.Channel.Send` | eTran/common/base/lrpc.h:67-84 | the call does what the protocol's steps do; -1 exactly when `size` messages are unreleased |
| `LrpcChannel.Channel.FastSend` | eTran/common/base/lrpc.h:77-84 | the path with visible room |
| `LrpcChannel.Channel.SlowSend` | eTran/common/base/lrpc.cc:8-27 | the path that rereads the receiver's head |
| `LrpcChannel.Channel.CopyData` | eTran/common/base/lrpc.h:80-80 | the copy changes the data of one slot only |
| `LrpcChannel.Channel.Recv` | eTran/common/base/lrpc.h:98-115 | the call takes the oldest message, or returns -1 exactly when there is none |
| `LrpcChannel.Channel.IsEmpty` | eTran/common/base/lrpc.h:121-126 | true exactly when every message sent has been received |
| `LrpcChannel.Init` | eTran/common/base/lrpc.cc:38-71 | succeeds exactly for powers of two, with an empty channel |
| `PoolLayout.MsbIndex` | eTran/common/base/math.h:14-22 | the result brackets the number between powers of two |
| `PoolLayout.RoundUpIsLeast` | eTran/common/base/math.h:9-12 | rounding up gives the least multiple that is at least the number |
| `PoolLayout.ClassTypeIsBestFit` | eTran/common/base/mem_pool.h:60-67 | the class of a size is the smallest that fits |
| `PoolLayout.ClassTypeOfClassSize` | eTran/common/base/mem_pool.h:60-67 | the class of a class's size is that class, so a freed buffer finds its list |
| `PoolLayout.SplitKeepsTiling` | eTran/common/base/mem_pool.h:69-81 | replacing a block by its halves keeps the blocks disjoint and the bytes covered |
| `PoolLayout.NewChunkKeepsTiling` | eTran/common/base/mem_pool.cc:120-136 | so does adding a chunk apart from the others |
| `Mempool.SplitKeepsPool` | eTran/common/base/mem_pool.h:69-81 | splitting keeps lists, live buffers and tiling in agreement, and no live buffer changes |
| `Mempool.NextChunkApart` | eTran/common/base/mem_pool.cc:120-136 | the next chunk carved from a fresh region overlaps no other chunk |
| `Mempool.Pool.constructor` | eTran/common/base/mem_pool.cc:138-141 | an empty pool; its assertions are met exactly from 4 MB on |
| `Mempool.Pool.Split` | eTran/common/base/mem_pool.h:69-81 | the last buffer of a class becomes two of the class below |
| `Mempool.Pool.AllocFromClass` | eTran/common/base/mem_pool.h:83-93 | hands out the last free buffer of the class, or none if there is none; no other list changes |
| `Mempool.Pool.FreeBuffer` | eTran/common/base/mem_pool.h:95-100 | a live buffer returns to the list of the class it came from |
| `Mempool.Pool.AllocRaw` | eTran/common/base/mem_pool.cc:55-118 | a region of whole huge pages is recorded, or nothing changes |
| `Mempool.Pool.AllocSlow` | eTran/common/base/mem_pool.cc:120-136 | a fresh region is carved into chunks of the largest class, or nothing changes |
| `Mempool.Pool.Carve` | eTran/common/base/mem_pool.cc:129-134 | the carving loop adds exactly the chunks of the region |
| `Mempool.Pool.NextNonEmpty` | eTran/common/base/mem_pool.cc:20-22 | the search finds the first larger class with a free buffer |
| `Mempool.Pool.SplitDown` | eTran/common/base/mem_pool.cc:37-41 | splitting down to the class meets the assertions of every split, takes one buffer of the class it starts from, leaves one in every class between and two in the last, and touches no other list |
| `Mempool.Pool.Grow` | eTran/common/base/mem_pool.cc:24-35 | growth by exactly one region and its chunks, of twice the last size, or nothing changes if there is no memory |
| `Mempool.FirstGrowth` | eTran/common/base/mem_pool.cc:18-27 | the first allocation of a pool asks `alloc_slow` for at least 8 MB exactly when the pool was created with at least 4 MB |
| `Mempool.Pool.Refill` | eTran/common/base/mem_pool.cc:18-41 | a class without buffers gets one by splitting the next larger class that has any; the pool grows only if none has |
| `Mempool.Pool.AllocBuffer` | eTran/common/base/mem_pool.cc:11-44 | a buffer of the smallest fitting class that was not live, taken from the smallest class that has one, the classes between keeping one half each; regions, chunks and growth size change only if no list from the class up has a buffer, and then by one region of twice the last size; fails exactly when nothing fits and no region can be had, and then changes nothing |
| `HomaSegments.NumPacketsIsCeiling` | eTran/lib/eTran_rpc.cc:101-101 | the packet count by repeated subtraction is the ceiling of the quotient |
| `HomaSegments.RemainingPackets` | eTran/lib/eTran_rpc.cc:690-695 | the packets of what is left are the packets not sent yet |
| `HomaSegments.PacketsTile` | eTran/lib/eTran_rpc.cc:772-785 | the payloads of consecutive packets are a contiguous piece of the message |
| `HomaSegments.PacketShape` | eTran/lib/eTran_rpc.cc:772-785 | packet `i` starts at `i * mss`, is not empty, and is full unless it is the last |
| `HomaSegments.PacketsCoverMessage` | eTran/lib/eTran_rpc.cc:676-800 | all payloads in order are the message |
| `HomaSegments.PacketsNumbered` | eTran/lib/eTran_rpc.cc:757-775 | the packets carry the numbers 0, 1, 2 and so on, the length of the message, their offset and a payload of `mss` bytes or what is left |
| `BufferChain.LinkExtendsChain` | eTran/lib/eTran_rpc.cc:736-743 | linking a new buffer behind the last one extends the chain, without cycles |
| `BufferChain.JoinChains` | eTran/lib/eTran_rpc.cc:282-285 | linking a chain behind another joins them |
| `BufferChain.StrayLink` | eTran/lib/eTran_rpc.cc:282-285 | a link stored under the end-of-chain marker joins nothing |
| `HomaSend.Plan` | eTran/lib/eTran_rpc.cc:690-705 | where to resume and how many buffers to ask for |
| `HomaSend.CopyOut` | eTran/lib/eTran_rpc.cc:757-785 | the packet copied out is the next one, and the offset moves to the one behind it |
| `HomaSend.OneMore` | eTran/lib/eTran_rpc.cc:736-785 | one more packet in its buffer keeps chain, contents and count in agreement |
| `HomaSend.Transmission.FillOne` | eTran/lib/eTran_rpc.cc:736-785 | one buffer gets exactly the next packet and is linked behind the previous one |
| `HomaSend.Transmission.FillMany` | eTran/lib/eTran_rpc.cc:707-791 | the loop fills each buffer with the next packet |
| `HomaSend.Transmission.Segment` | eTran/lib/eTran_rpc.cc:676-800 | a call emits the next packets its buffers and batch allow, and reports completion exactly with the last one |
| `HomaSend.Transmission.Resume` | eTran/lib/eTran_rpc.cc:561-608 | however segmentation is interrupted, as many packets are out as the calls had buffers for, numbered from 0, each with the length of the message and its own offset; when done, their payloads are the message |
| `HomaReceive.DeliversIff` | eTran/lib/eTran_rpc.cc:104-107 | packets copied into a buffer, in any order and with repeats, make up the message, whatever the buffer held, exactly when none is missing |
| `HomaReceive.DeliversIffDistinct` | eTran/lib/eTran_rpc.cc:104-107 | as many packets as the message has do so exactly when they are distinct |
| `HomaReceive.ReceiveOne` | eTran/lib/eTran_rpc.cc:92-115 | one more packet, new or not, is copied and counted; only the count decides when the message is handed over |
| `HomaReceive.CompletesExactly` | eTran/lib/eTran_rpc.cc:92-115 | of the packets of one message, repeats included, exactly the n-th hands it over; what it hands over is the message for every buffer exactly when they are distinct |
| `HomaReceive.RepeatCompletesEarly` | eTran/lib/eTran_rpc.cc:92-115 | a packet that arrives twice completes a message that is not whole |
| `HomaReceive.ClientSlot.ClientResponse` | eTran/lib/eTran_rpc.cc:118-163 | a response packet is assembled in its slot as a request packet is in the table |
| `HomaReceive.ClientSlot.Responses` | eTran/lib/eTran_rpc.cc:118-163 | the packets of a response, in any order and with repeats: the slot hands it over on exactly the n-th, and whole for every buffer exactly when they are distinct |
| `HomaServer.RpcServer.ServerRequest` | eTran/lib/eTran_rpc.cc:69-116 | the handler and its table of unfinished messages do what the step function says |
| `HomaServer.CurrentIsRemainder` | eTran/lib/eTran_rpc.cc:108-114 | the arrivals since a message was last handed over are the last of its arrivals, as many as the division by its packets leaves over |
| `HomaServer.AnyArrival` | eTran/lib/eTran_rpc.cc:69-116 | one arrival fits its buffer, and hands its message over exactly if the packets since the last time are as many as the message has |
| `HomaServer.ArrivalKeepsTable` | eTran/lib/eTran_rpc.cc:69-116 | an arrival keeps the entries of all messages right, repeats included |
| `HomaServer.RunKeepsTable` | eTran/lib/eTran_rpc.cc:69-116 | so the table is right after any arrivals |
| `HomaServer.RunContinues` | eTran/lib/eTran_rpc.cc:69-116 | no arrival writes outside its buffer, so every run goes on |
| `HomaServer.CompletesIffDistinct` | eTran/lib/eTran_rpc.cc:69-116 | in every run, interleaved and with repeats, a message is handed over exactly at every n-th arrival of its packets, and is whole for every buffer exactly when these are distinct |
| `HomaServer.EveryMessageCompletesOnce` | eTran/lib/eTran_rpc.cc:69-116 | packets delivered once each: every message completes exactly on its last packet, with its contents |
| `HomaHoles.FirstHoleUnique` | eTran/micro_kernel/homa.cc:100-155 | there is at most one first maximal run of zeros, and none if all bits are set |
| `HomaHoles.FindFirstZeroSegment` | eTran/micro_kernel/homa.cc:100-155 | the scan finds the first maximal run of zeros, or none exactly when all bits are set |
| `HomaHoles.GetResendRange` | eTran/micro_kernel/homa.cc:163-192 | asks for the first hole in bytes, for nothing exactly when all packets are in, and for 100 bytes when the RPC is outgoing, always at the highest priority |
| `HomaHoles.RangeNamesHole` | eTran/lib/eTran_rpc.cc:230-231 | the byte range of a hole turns back into its packet numbers |
| `HomaResend.CloneCompleteness` | eTran/lib/eTran_rpc.cc:263-263 | every byte of the frame but the two rewritten ones arrives, whatever the new buffer held, exactly when the frame is not longer than what was copied |
| `HomaResend.ClonedBytes` | eTran/lib/eTran_rpc.cc:263-267 | byte for byte: the copied part is the frame, the rest the old contents, byte 15 the priority shifted left by 5, byte 72 set to 1 |
| `HomaResend.PacketSurvives` | eTran/lib/eTran_rpc.cc:263-263 | a packet cloned in a whole-packet range is complete exactly when its payload is 94 bytes short of a full one |
| `HomaResend.OutgoingSurvives` | eTran/micro_kernel/homa.cc:163-192 | the request for an outgoing RPC names packet 0 alone, and its clone is complete exactly for payloads of at most 6 bytes |
| `HomaResend.StepOk` | eTran/lib/eTran_rpc.cc:244-280 | each visit of the walk keeps places, links and the resend record in agreement |
| `HomaResend.StepCopies` | eTran/lib/eTran_rpc.cc:244-280 | and the clones' contents, with every other frame unchanged |
| `HomaResend.ChainAfterwards` | eTran/lib/eTran_rpc.cc:223-286 | the clones form a chain; it hangs behind the old one exactly when nothing is wanted, no buffer is free or the last buffer was seen |
| `HomaResend.HoleIsRetransmitted` | eTran/lib/eTran_rpc.cc:223-286 | a hole's range with buffers available: exactly its packets in order are in the new buffers, the first `mss` bytes of each equal to the frame's but for the two rewritten ones, no other frame changes, and the chain becomes the old chain and the clones |
| `HomaResend.Umem.CloneOne` | eTran/lib/eTran_rpc.cc:255-267 | one clone: copied byte for byte, marked, given its priority and linked |
| `HomaResend.Umem.Visit` | eTran/lib/eTran_rpc.cc:244-280 | one turn of the loop is one step of the walk |
| `HomaResend.Umem.WalkChain` | eTran/lib/eTran_rpc.cc:244-280 | the loop walks the chain to its end or until buffers run out |
| `HomaResend.Umem.Prepare` | eTran/lib/eTran_rpc.cc:223-286 | the memory afterwards is that of a finished walk, and its record is queued exactly if something was cloned |
| `HomaResend.AnswerHole` | eTran/lib/eTran_rpc.cc:223-286 | from the bitmap to the clones: without a hole nothing happens, else exactly the first hole's packets, byte for byte, are in the new buffers behind the chain, and queued |
| `HomaResend.TooFewBuffers` | eTran/lib/eTran_rpc.cc:244-285 | three packets wanted and one free buffer: the clone is queued, but the chain still ends where it did |
| `HomaTimer.TriesBounded` | eTran/micro_kernel/homa.cc:509-555 | in every run the number of tries is at most the abort limit |
| `HomaTimer.ClientCheck` | eTran/micro_kernel/homa.cc:365-479 | a check of a client RPC resets, waits or tries; it waits or tries only while nothing observed changes |
| `HomaTimer.TrackedAlways` | eTran/micro_kernel/homa.cc:365-479 | in every run of a client RPC tries and silent ticks account for everything since the last reset |
| `HomaTimer.AbortMeansSilence` | eTran/micro_kernel/homa.cc:509-555 | an abort comes only after the full number of tries with progress constant throughout, and, if all were sent, enough ticks |
| `HomaTimer.CheckInPlace` | eTran/micro_kernel/homa.cc:365-479 | the check with its early returns computes the step function, and reports whether it sent a RESEND or a NEED_ACK |
| `HomaTimerLive.ResetsIff` | eTran/micro_kernel/homa.cc:396-461 | but for a server's RPC whose response is out, a check starts the count afresh exactly when the RPC is a server's that is not receiving, the next packet ends within the grant, all that was granted has arrived, or one of the four observed fields changed; the grants as arithmetic on the snapshot |
| `HomaTimerLive.StalledAborts` | eTran/micro_kernel/homa.cc:396-550 | a client's RPC that can send nothing, or is owed granted bytes, with progress and busy count constant at every tick, is aborted within `abortResend` periods and one tick, whatever its record held and whether or not RESENDs went out |
| `HomaTimerLive.TryAfterSilence` | eTran/micro_kernel/homa.cc:463-479 | from a fresh record it waits, and its RESEND is due after `resendTick - 1` silent ticks, not before |
| `HomaTimerLive.StalledSchedule` | eTran/micro_kernel/homa.cc:463-479 | while all RESENDs go out, one is due at the end of every period and at no other tick |
| `HomaTimerLive.StalledAbortsOnTime` | eTran/micro_kernel/homa.cc:543-549 | and the abort comes exactly at the tick after the last of the `abortResend` tries |
| `HomaTimerLive.BusyPostpones` | eTran/micro_kernel/homa.cc:532-541 | a RESEND is due only after `resendTick - 1` ticks with the same busy count |
| `HomaTimerLive.AckDueIff` | eTran/micro_kernel/homa.cc:385-386 | the comparison of ticks holds exactly from `needAckTick` ticks after the start on, wherever the counter wraps around |
| `HomaTimerLive.UnackedAborts` | eTran/micro_kernel/homa.cc:373-394 | a server's RPC whose response stays unacknowledged waits `needAckTick` ticks, sends a NEED_ACK at each of the next `abortResend`, and is aborted; a wait that would begin at tick number 0 begins at the next one |
| `HomaTimerTable.ScanStep` | eTran/micro_kernel/homa.cc:509-555 | scanning one entry advances exactly its own shadow state |
| `HomaTimerTable.Settled` | eTran/micro_kernel/homa.cc:577-584 | erasing what was not scanned in this tick leaves every RPC with its next state |
| `HomaTimerTable.Timer.Scan` | eTran/micro_kernel/homa.cc:509-555 | one entry of the scan: insert, delete, abort or check, and what was done |
| `HomaTimerTable.Timer.Poll` | eTran/micro_kernel/homa.cc:485-584 | one poll advances every RPC's machine by one tick, wrap-around of the tick included, does for each entry what that tick says, and deletes exactly the dead and the aborted from the eBPF map |
| `HomaTimerTable.Timer.PollMany` | eTran/micro_kernel/homa.cc:485-584 | any number of polls give a sequence of tables, each the next tick of the one before |
| `HomaTimerTable.KeyRuns` | eTran/micro_kernel/homa.cc:485-584 | the records of one RPC over the polls are a run of its timeout machine |
| `HomaTimerTable.TableTriesBounded` | eTran/micro_kernel/homa.cc:509-555 | no record of any table has more tries than the limit |
| `HomaTimerTable.TableAbortMeansSilence` | eTran/micro_kernel/homa.cc:509-555 | a client RPC in the table is aborted only after the full number of tries without progress, and, if all were sent, enough ticks |
| `HomaTimerTable.TableStalledLeaves` | eTran/micro_kernel/homa.cc:485-584 | a client's RPC that is stalled at every poll is gone from the table within the deadline |
| `HomaTimerTable.TableHoldsLive` | eTran/micro_kernel/homa.cc:485-584 | the table holds only RPCs that the eBPF map returned, alive and with an open socket |
| `Epoll.BruteForceLength` | eTran/lib/socket.cc:1599-1629 | a brute-force scan reports as many sockets as are ready, up to the maximum |
| `Epoll.BruteForceAscends` | eTran/lib/socket.cc:1599-1629 | it reports registered sockets in ascending order, each once, with the data of the registration and exactly the pending events that were asked for, at least one |
| `Epoll.BruteForceSkipsNone` | eTran/lib/socket.cc:1599-1629 | it passes over no ready socket for a later one |
| `Epoll.ScanReportsReady` | eTran/lib/socket.cc:1599-1629 | so over the two lists of an instance it reports the first ready sockets, as many as there are, up to the maximum |
| `Epoll.UnreadyDoNotMatter` | eTran/lib/socket.cc:1599-1629 | leaving out sockets that are not ready does not change it |
| `Epoll.SetKeepsInstance` | eTran/lib/socket.cc:111-144 | setting events keeps the lists a partition with every ready socket active |
| `Epoll.ClearKeepsInstance` | eTran/lib/socket.cc:104-109 | so does clearing them |
| `Epoll.AddKeepsInstance` | eTran/lib/socket.cc:1461-1502 | so does registering a socket |
| `Epoll.ModKeepsInstance` | eTran/lib/socket.cc:1503-1534 | so does changing its interest |
| `Epoll.DelKeepsInstance` | eTran/lib/socket.cc:1535-1563 | so does removing it |
| `Epoll.ParkKeepsInstance` | eTran/lib/socket.cc:1599-1629 | so does moving a socket that is not ready to the inactive list |
| `EpollLayer.Layer.ClearEvents` | eTran/lib/socket.cc:104-109 | the bits are cleared, all instances stay correct |
| `EpollLayer.Layer.SetEvents` | eTran/lib/socket.cc:111-144 | the bits are set; exactly in the instances that asked for a bit that is new the socket becomes active, and no other socket moves |
| `EpollLayer.Layer.AppendActive` | eTran/lib/socket.cc:111-144 | the loop over the instances activates the socket in those that want a new bit |
| `EpollLayer.Layer.Ctl` | eTran/lib/socket.cc:1461-1565 | error codes, the table and the count after each operation; the socket is active exactly if it was or is ready now, no other socket moves, and no other instance changes |
| `EpollLayer.Layer.AddItem` | eTran/lib/socket.cc:1461-1502 | registering: error codes and the new table; the socket is active exactly if it is ready |
| `EpollLayer.Layer.ModItem` | eTran/lib/socket.cc:1503-1534 | changing interest: error codes and the new table; the socket is active exactly if it was or is ready now |
| `EpollLayer.Layer.DelItem` | eTran/lib/socket.cc:1535-1563 | removing: error code and the new table |
| `EpollLayer.ScanList` | eTran/lib/socket.cc:1599-1629 | scanning the active list reports what a scan of all registered sockets would |
| `EpollLayer.Layer.Wait` | eTran/lib/socket.cc:1599-1629 | the reports are those of registered sockets with the pending events they asked for, ascending, as many as are ready up to the maximum, and the first of them; if there is room for more, exactly the ready sockets stay active; other instances are unchanged |
| `DctcpSpec.EcnCutAtLeastHalf` | eTran/micro_kernel/cc.cc:69-72 | an ECN cut leaves at least half of the window and at most all of it |
| `DctcpSpec.EcnCutTracks` | eTran/micro_kernel/cc.cc:69-72 | the cut is above the exact `window * (1 - rate / (2 * (2^32 - 1)))` of section 3.3 of RFC 8257 minus 1, and at most half a byte above it |
| `DctcpSpec.HigherRateCutsMore` | eTran/micro_kernel/cc.cc:69-72 | a higher rate never leaves a larger window |
| `DctcpSpec.LossHalves` | eTran/micro_kernel/cc.cc:44-50 | after a drop or a retransmission the window is half the old one, within its limits, and slow start is over |
| `DctcpSpec.SlowStartGrows` | eTran/micro_kernel/cc.cc:28-42 | in slow start without congestion the window grows by the acknowledged bytes, within its limits |
| `DctcpSpec.MarksCut` | eTran/micro_kernel/cc.cc:53-72 | with marks and no loss the window is the cut by the updated rate, within its limits, and slow start is over |
| `DctcpSpec.AvoidanceGrows` | eTran/micro_kernel/cc.cc:73-80 | in avoidance without marks it grows by the largest `x` with `x * window <= ackb * 1448`, within its limits |
| `DctcpSpec.RateFollowsMarks` | eTran/micro_kernel/cc.cc:53-66 | in every tick the rate follows the share of the smaller of marked and acknowledged bytes, or stays where a loss, slow start or no acknowledged byte forbids it |
| `DctcpSpec.StepKeepsBounds` | eTran/micro_kernel/cc.cc:6-95 | after a tick the window is between 1448 and the buffer size and the rate fits 32 bits |
| `DctcpSpec.EwmaTracks` | eTran/micro_kernel/cc.cc:54-66 | one rounded update keeps the rate below the exact average by less than (M + W) / W |
| `DctcpSpec.RunStaysInBounds` | eTran/micro_kernel/cc.cc:6-95 | in every run the bounds hold and the rounding error stays below the same constant |
| `DctcpTick.GuardIsExact` | eTran/micro_kernel/cc.cc:75-79 | the 32-bit overflow guard fires exactly on overflow |
| `DctcpTick.EwmaU64` | eTran/micro_kernel/cc.cc:54-66 | in 64-bit arithmetic the average is the exact integer formula, without overflow |
| `DctcpTick.CutU64` | eTran/micro_kernel/cc.cc:69-72 | so is the cut, which is within a byte of the exact one |
| `DctcpTick.IncreaseU32` | eTran/micro_kernel/cc.cc:75-79 | so is the additive increase with its guard |
| `DctcpTick.TickKeepsView` | eTran/micro_kernel/cc.cc:84-90 | a tick keeps every field in its range and the window within its limits |
| `DctcpTick.DeltasCount` | eTran/micro_kernel/tcp.cc:1090-1105 | the differences of wrapped counters are the true counts, as long as fewer than 2^16 drops and 2^32 bytes lie between two ticks |
| `DctcpTick.Connection.constructor` | eTran/micro_kernel/tcp.cc:553-558 | the initial state: window 2 * 1448, slow start |
| `DctcpTick.Connection.DctcpWndCc` | eTran/micro_kernel/cc.cc:6-95 | the original implementation is the reference step |
| `DctcpTick.Connection.OriginalTick` | eTran/micro_kernel/tcp.cc:1090-1105 | counter differences, modulo 2^16 for drops and ACKs and 2^32 for bytes, then the original implementation |
| `DctcpTick.Connection.SlowsCongc` | eTran/micro_kernel/ctrl_plane_mtp.h:39-143 | the MTP implementation is the reference step |
| `DctcpTick.Connection.MtpTick` | eTran/micro_kernel/ctrl_plane_mtp.h:39-169 | the MTP chain of the same differences, step and window store |
| `DctcpTick.ViewAfter` | eTran/micro_kernel/cc.cc:6-95 | the reference state after any ticks is in range |
| `DctcpTick.Lockstep` | eTran/micro_kernel/ctrl_plane_mtp.h:39-169 | over any snapshots both implementations stay identical, and equal to the reference |
| `TcpReorder.Receiver.AddDataSeg` | eTran/lib/funcs_mtp.h:34-130 | the handler does what the step function says |
| `TcpReorder.StepKeepsInv` | eTran/lib/funcs_mtp.h:34-130 | a segment that fits keeps credited and held segments tiling their ranges |
| `TcpReorder.StepKeepsInvIff` | eTran/lib/funcs_mtp.h:34-130 | a segment does so exactly if the 32-bit length of the interval does not overflow |
| `TcpReorder.RunTiles` | eTran/lib/funcs_mtp.h:34-130 | after any arrivals that fit, credited segments tile from the first byte to the expected one modulo 2^32, and their length is the total credit |
| `TcpReorder.RunTilesIff` | eTran/lib/funcs_mtp.h:34-130 | a run keeps its tilings throughout exactly when every arrival fits |
| `TcpReorder.ShortRunFits` | eTran/lib/funcs_mtp.h:34-130 | arrivals of less than 2^32 bytes in all always fit and keep the tilings |
| `TcpReorder.OverflowLosesInterval` | eTran/lib/funcs_mtp.h:34-130 | from the start, 2^22 segments of 1 KB held one behind the other leave an interval of length 0 that still holds them all |
| `TcpReorder.GapStaysOpen` | eTran/lib/funcs_mtp.h:57-83 | in every run, overflows included, a held interval never starts at the expected byte |
| `TcpReorder.EverySegmentKept` | eTran/lib/funcs_mtp.h:34-130 | every segment is kept once, credited or held, unless it is neither at the expected byte nor next to the interval, and then nothing changes |
| `TcpReorder.HoldsAll` | eTran/lib/funcs_mtp.h:106-128 | segments that extend one interval behind a gap, in front or behind, are all held |
| `TcpReorder.GapFills` | eTran/lib/funcs_mtp.h:57-83 | and the segment that fills the gap credits all of them and itself |
| `TcpReorder.OrderKeptIff` | eTran/lib/eTran_posix.cc:85-93 | the list of received buffers stays in sequence order exactly when the step does not merge |
| `TcpReorder.OrderLost` | eTran/lib/eTran_posix.cc:85-93 | three segments from the start put the one that closes the gap behind the one that follows it |
| `TcpOptions.ParseTcpOpts` | eTran/micro_kernel/tcp.cc:132-181 | on all memory on which the loop ends, it ends where the 16-bit offset takes it, with the last MSS and timestamp seen, and reports an error exactly at an unknown or malformed option |
| `TcpOptions.EndIsParsed` | eTran/micro_kernel/tcp.cc:132-181 | where the offset cannot wrap, that is the recursive reading of the options, errors included |
| `TcpOptions.ParseRecovers` | eTran/micro_kernel/tcp.cc:132-181 | a list of options padded with zeros is read as its last MSS and last timestamp |
| `TcpOptions.ParseRejects` | eTran/micro_kernel/tcp.cc:132-181 | an option of unknown kind or wrong length behind any options is an error, with what came before it read |
| `TcpOptions.RejectsIff` | eTran/micro_kernel/tcp.cc:132-181 | and nothing else is an error |
| `TcpOptions.EncodedHolds` | eTran/common/tran_def/tcp.h:131-146 | the encoding of a list is that list in memory |
| `TcpOptions.TerminatesIff` | eTran/micro_kernel/tcp.cc:132-181 | reading stops on all memory exactly when the header length is not 3 or 4 |
| `TcpOptions.LoopsForever` | eTran/micro_kernel/tcp.cc:132-181 | for those lengths there is memory on which the 16-bit offset goes round for ever |
| `TcpOptions.LayOut` | eTran/micro_kernel/tcp.cc:369-425 | the option space: each option behind the one before, zero padding, header length in words |
| `TcpOptions.BuildControl` | eTran/micro_kernel/tcp.cc:369-425 | a control packet's option bytes and header length |
| `TcpOptions.ControlRoundTrip` | eTran/micro_kernel/tcp.cc:369-425 | reading a control packet's options gives back its MSS and timestamp, for all values |
| `Checksum.OnesSumIsResidue` | bench-afxdp/xdpsock.c:790-845 | repeated one's-complement addition is the residue of the plain sum |
| `Checksum.ZeroSumIff` | bench-afxdp/xdpsock.c:790-845 | only all-zero data sums to 0 |
| `Checksum.FromThirtyTwo` | bench-afxdp/xdpsock.c:777-784 | two folds give the one's-complement value of any 32-bit sum |
| `Checksum.SwapUndoesShift` | bench-afxdp/xdpsock.c:841-842 | swapping the bytes of a sum that started in the high half gives the sum |
| `Checksum.CarryKeepsResidue` | bench-afxdp/xdpsock.c:821-824 | 32-bit addition with the compared carry loses nothing |
| `Checksum.AddWords` | bench-afxdp/xdpsock.c:813-828 | the loop over 32-bit words adds up their 16-bit halves |
| `Checksum.AddTail` | bench-afxdp/xdpsock.c:829-839 | the last word and byte are added |
| `Checksum.SumAligned` | bench-afxdp/xdpsock.c:807-839 | whatever the alignment, all bytes are added in their halves |
| `Checksum.DoCsum` | bench-afxdp/xdpsock.c:790-845 | for every address, buffer and length the result is the one's-complement sum of section 1 of RFC 1071 |
| `Checksum.IpFastCsum` | bench-afxdp/xdpsock.c:853-856 | the header checksum is the complement of the sum |
| `Checksum.FilledHeaderVerifies` | bench-afxdp/xdpsock.c:853-856 | a header whose zeroed field is filled with it sums to 0xffff |
| `Checksum.FillCheck` | bench-afxdp/xdpsock.c:1009-1011 | the generator's header verifies and is otherwise unchanged |
| `Checksum.CorruptionIsSeen` | bench-afxdp/xdpsock.c:853-856 | a change of one word of a good header goes unnoticed exactly between 0 and 0xffff, in a header with something else in it |
| `TimeTrace.RecordKeeps` | eTran/homa_app/time_trace.cc:317-331 | recording keeps the last 2^16 events in their slots |
| `TimeTrace.CursorAt` | eTran/homa_app/time_trace.cc:150-158 | a slot cursor stands for a position of the history, and meets the next slot exactly at its end |
| `TimeTrace.Buffer.constructor` | eTran/homa_app/time_trace.cc:281-291 | a new buffer is empty |
| `TimeTrace.Buffer.Record` | eTran/homa_app/time_trace.cc:317-331 | an event is appended to the history, or nothing happens while frozen |
| `TimeTrace.FirstCursor` | eTran/homa_app/time_trace.cc:150-158 | the first cursor is at the oldest event but the one to be overwritten |
| `TimeTrace.LatestOldest` | eTran/homa_app/time_trace.cc:168-174 | the starting time is the latest of the oldest events |
| `TimeTrace.Skip` | eTran/homa_app/time_trace.cc:176-185 | a cursor passes exactly the events before the starting time |
| `TimeTrace.Earliest` | eTran/homa_app/time_trace.cc:212-224 | the scan picks the earliest event, of the first buffer among equals |
| `TimeTrace.ProgressStep` | eTran/homa_app/time_trace.cc:208-229 | printing it keeps printed and remaining events complete and in order |
| `TimeTrace.PrintEarliest` | eTran/homa_app/time_trace.cc:208-229 | one turn prints it, or finds the print-out complete |
| `TimeTrace.MergeLoop` | eTran/homa_app/time_trace.cc:208-254 | the loop ends with the merged print-out |
| `TimeTrace.PrintInternal` | eTran/homa_app/time_trace.cc:127-256 | the print-out is in time order and has, of each buffer, exactly the kept events from the starting time on; timestamps of all ones are left out |
| `TimeTrace.Trace.Print` | eTran/homa_app/time_trace.cc:127-256 | the same for the buffers as objects, which are frozen meanwhile and unchanged |
| `TimeTrace.OutputDetermined` | eTran/homa_app/time_trace.cc:208-254 | only one print-out meets that description |
| `TimeTrace.NothingMissing` | eTran/homa_app/time_trace.cc:160-168 | every event ever recorded after the starting time is printed |
| `JsonText.ReadBack` | lib/util/json_writer.c:60-93 | reading an escaped string recovers it and stops at its closing quote |
| `JsonText.StandardIff` | lib/util/json_writer.c:60-93 | the escapes are those of RFC 8259 exactly for strings without apostrophes and other control characters |
| `JsonText.PrettyStripsToCompact` | lib/util/json_writer.c:126-193 | indented text without its white space outside strings is the compact text |
| `JsonReader.CompactReadBack` | lib/util/json_writer.c:126-200 | reading compact text gives the tree back |
| `JsonReader.CompactInjective` | lib/util/json_writer.c:126-200 | so compact text determines its tree |
| `JsonWriter.Writer.constructor` | lib/util/json_writer.c:96-106 | a new writer is compact, at depth 0, with nothing pending |
| `JsonWriter.Writer.Destroy` | lib/util/json_writer.c:109-118 | at depth 0, a line end closes the output |
| `JsonWriter.Writer.Indent` | lib/util/json_writer.c:32-37 | four blanks for each level |
| `JsonWriter.Writer.Eol` | lib/util/json_writer.c:40-47 | a new line and indentation if pretty |
| `JsonWriter.Writer.Eor` | lib/util/json_writer.c:50-55 | a pending separator is written, a comma becomes pending |
| `JsonWriter.Writer.Puts` | lib/util/json_writer.c:60-93 | a quoted, escaped string |
| `JsonWriter.Writer.Begin` | lib/util/json_writer.c:126-132 | an opening bracket one level deeper, the depth wrapping around |
| `JsonWriter.Writer.End` | lib/util/json_writer.c:134-143 | a closing bracket one level up |
| `JsonWriter.Writer.Name` | lib/util/json_writer.c:147-156 | a member name on its line, its value next without separator |
| `JsonWriter.Writer.Printf` | lib/util/json_writer.c:159-167 | a token behind a pending separator |
| `JsonWriter.Writer.String` | lib/util/json_writer.c:196-200 | a string behind a pending separator |
| `JsonWriter.Writer.StartObject` | lib/util/json_writer.c:170-173 | opens an object |
| `JsonWriter.Writer.EndObject` | lib/util/json_writer.c:175-178 | closes an object, on a line of its own unless empty |
| `JsonWriter.Writer.StartArray` | lib/util/json_writer.c:180-185 | opens an array |
| `JsonWriter.Writer.EndArray` | lib/util/json_writer.c:187-193 | closes an array, behind a blank unless empty |
| `JsonWriter.Writer.Write` | lib/util/json_writer.c:126-200 | a tree through the calls: its text behind a pending separator, depth restored |
| `JsonWriter.Document` | lib/util/json_writer.c:96-200 | a whole document is the printer's text; stripped it is compact, and compact it reads back as the tree |

## Left out

- CPU memory ordering: LRPC steps are sequentially consistent, at the granularity of byte copies, command stores and head stores.
- HomaSend.Transmission.Segment: does not model the choice of queue, the header fields other than sequence number, lengths and offset, or the AF_XDP ring; packet numbers are bounded by 16 bits as in the header.
- HomaServer.RpcServer.ServerRequest: does not model a failing buffer allocation; writes outside the buffer are excluded and shown not to happen in runs.
- HomaReceive.ClientSlot.ClientResponse: does not model the slot's return to the queue of free slots after completion.
- HomaTimer.CheckInPlace: does not model the contents of the RESEND and NEED_ACK packets; whether sending one succeeded is an input.
- EpollLayer.Layer.Wait: models the branch for eTran sockets only, after polling; Linux descriptors, blocking and time-outs are left out.
- Mempool.Pool.AllocRaw: the mapping's address is an input; exceptions, shared-memory keys and statistics are left out.
- TcpOptions.ParseTcpOpts: requires memory on which the loop ends, which all memory is except for header lengths 3 and 4; it also requires one readable byte behind the options, which the source reads.
- TcpReorder.Receiver.AddDataSeg: payload positions inside the receive buffer are left out; the packets are their sequence ranges.
- DctcpTick.Connection.MtpTick: the conversion of windows to rates is left out (floating point).
- TimeTrace.Trace.Print: a record call that is under way when the traces are frozen is left out, and so is the text of a line.
- JsonText.PrettyStripsToCompact: tokens (the output of `jsonw_printf`) are taken to have no quotes and no white space, as numbers, booleans and null have none.
- JsonWriter.Writer.Write: nesting is bounded by the 32-bit depth counter.
- The eBPF programs, XDP hooks and AF_XDP ring operations.
- Acknowledgement time-outs, retransmission of TCP segments, the other congestion controls.
- Homa's reap backlog, request-slot queues and blocking poll; socket and epoll close.
- Benchmarks, applications and command-line tools.
