/** The LRPC channel: a single-producer, single-consumer ring in shared memory.

    The two processes are interleaved at the granularity of the shared-memory
    accesses: the space check (with its load of the written-back head), every
    single byte of the data copies, the store and the load of the command word,
    and the write-back of the receiver's head. `Step` is one such access. */
module LrpcProtocol {
  import opened Basics
  import opened Words

  const DATA_BYTES: nat := 56
  const DONE_PARITY: nat := 0x8000_0000_0000_0000

  datatype Msg = Msg(cmd: nat, data: seq<Byte>)

  /** What a caller may send: the parity bit of the command is clear. */
  predicate IsMsg(m: Msg) {
    m.cmd < DONE_PARITY && |m.data| == DATA_BYTES
  }

  /** One 64-byte table entry. */
  datatype Slot = Slot(cmd: nat, data: seq<Byte>)

  /** Where the sender is inside `lrpc_send`; `bump` says that `send_head` is
      still to be incremented (the slow path does so after the copy). */
  datatype Sender = SenderIdle | Filling(slot: nat, cmd: nat, msg: Msg, copied: nat, bump: bool)

  /** Where the receiver is inside `lrpc_recv`. */
  datatype Receiver = ReceiverIdle | Draining(slot: nat, cmd: nat, got: seq<Byte>)

  /** Shared table and written-back head, the private words of both sides, and
      the history of published and of received messages. */
  datatype Chan = Chan(
    size: nat, tbl: seq<Slot>, recvHeadWb: nat,
    sendHead: nat, sendTail: nat, sender: Sender,
    recvHead: nat, receiver: Receiver,
    sent: seq<Msg>, received: seq<Msg>)

  function SlotIndex(head: nat, size: nat): nat
    requires size > 0
  {
    And(head, size - 1)
  }

  function ParityWord(head: nat, size: nat): nat {
    if And(head, size) != 0 then 0 else DONE_PARITY
  }

  datatype Action =
    | SendBegin(msg: Msg) | SendCopy | SendPublish
    | RecvBegin | RecvCopy | RecvWriteBack

  predicate Shaped(c: Chan) {
    && 0 < c.size == |c.tbl|
    && (forall j :: 0 <= j < c.size ==> |c.tbl[j].data| == DATA_BYTES)
    && (c.sender.Filling? ==> c.sender.slot < c.size && IsMsg(c.sender.msg) && c.sender.copied <= DATA_BYTES)
    && (c.receiver.Draining? ==> c.receiver.slot < c.size && |c.receiver.got| <= DATA_BYTES)
  }

  predicate Enabled(c: Chan, a: Action) {
    match a
    case SendBegin(msg) => c.sender.SenderIdle? && IsMsg(msg)
    case SendCopy => c.sender.Filling? && c.sender.copied < DATA_BYTES
    case SendPublish => c.sender.Filling? && c.sender.copied == DATA_BYTES
    case RecvBegin => c.receiver.ReceiverIdle?
    case RecvCopy => c.receiver.Draining? && |c.receiver.got| < DATA_BYTES
    case RecvWriteBack => c.receiver.Draining? && |c.receiver.got| == DATA_BYTES
  }

  /** `send_head - send_tail >= size`: the cached tail leaves no room. */
  predicate LooksFull(c: Chan) {
    Sub32(c.sendHead, c.sendTail) >= c.size
  }

  function Claim(c: Chan, msg: Msg, bump: bool): Sender
    requires c.size > 0
  {
    Filling(SlotIndex(c.sendHead, c.size), msg.cmd + ParityWord(c.sendHead, c.size), msg, 0, bump)
  }

  function BeginSend(c: Chan, msg: Msg): Chan
    requires c.size > 0
  {
    if !LooksFull(c) then
      c.(sendHead := Add32(c.sendHead, 1), sender := Claim(c, msg, false))
    else if Sub32(c.sendHead, c.recvHeadWb) == c.size then
      c.(sendTail := c.recvHeadWb)
    else
      c.(sendTail := c.recvHeadWb, sender := Claim(c, msg, true))
  }

  function CopyIn(c: Chan): Chan
    requires Shaped(c) && Enabled(c, SendCopy)
  {
    var s, k := c.sender.slot, c.sender.copied;
    var slot := c.tbl[s];
    c.(tbl := c.tbl[s := slot.(data := slot.data[k := c.sender.msg.data[k]])],
       sender := c.sender.(copied := k + 1))
  }

  function Publish(c: Chan): Chan
    requires Shaped(c) && Enabled(c, SendPublish)
  {
    var s := c.sender.slot;
    c.(tbl := c.tbl[s := c.tbl[s].(cmd := c.sender.cmd)],
       sendHead := if c.sender.bump then Add32(c.sendHead, 1) else c.sendHead,
       sender := SenderIdle,
       sent := c.sent + [c.sender.msg])
  }

  /** `lrpc_empty`: the slot at the head does not carry this lap's parity. */
  predicate Empty(c: Chan)
    requires Shaped(c)
    requires SlotIndex(c.recvHead, c.size) < c.size
  {
    (c.tbl[SlotIndex(c.recvHead, c.size)].cmd >= DONE_PARITY) != (ParityWord(c.recvHead, c.size) != 0)
  }

  function BeginRecv(c: Chan): Chan
    requires Shaped(c)
    requires SlotIndex(c.recvHead, c.size) < c.size
  {
    var s := SlotIndex(c.recvHead, c.size);
    if Empty(c) then c
    else c.(recvHead := Add32(c.recvHead, 1), receiver := Draining(s, c.tbl[s].cmd, []))
  }

  function CopyOut(c: Chan): Chan
    requires Shaped(c) && Enabled(c, RecvCopy)
  {
    var r := c.receiver;
    c.(receiver := r.(got := r.got + [c.tbl[r.slot].data[|r.got|]]))
  }

  /** The message that `lrpc_recv` hands to its caller. */
  function Taken(c: Chan): Msg
    requires c.receiver.Draining?
  {
    Msg(c.receiver.cmd % DONE_PARITY, c.receiver.got)
  }

  function WriteBack(c: Chan): Chan
    requires Enabled(c, RecvWriteBack)
  {
    c.(recvHeadWb := c.recvHead, receiver := ReceiverIdle, received := c.received + [Taken(c)])
  }

  function Step(c: Chan, a: Action): Chan
    requires Shaped(c) && SlotIndex(c.recvHead, c.size) < c.size && Enabled(c, a)
  {
    match a
    case SendBegin(msg) => BeginSend(c, msg)
    case SendCopy => CopyIn(c)
    case SendPublish => Publish(c)
    case RecvBegin => BeginRecv(c)
    case RecvCopy => CopyOut(c)
    case RecvWriteBack => WriteBack(c)
  }

  // ----- ring arithmetic -----

  /** Parity of the lap in which message number `i` is sent. */
  predicate EvenLap(i: nat, size: nat)
    requires size > 0
  {
    (i / size) % 2 == 0
  }

  function Pos(i: nat, size: nat): (j: nat)
    requires size > 0
    ensures j < size
  {
    i % size
  }

  /** Both masks of a wrapped 32-bit head give what the unbounded counter gives:
      the slot and the lap parity survive the wrap-around of the head. */
  lemma MasksSurviveWrap(i: nat, size: nat)
    requires IsPowerOfTwo(size) && size < U32
    ensures SlotIndex(i % U32, size) == Pos(i, size)
    ensures ParityWord(i % U32, size) == if EvenLap(i, size) then DONE_PARITY else 0
  {
    var k := Log2(size);
    AndMask(i % U32, k);
    AndBit(i % U32, k);
    var q := PowerOfTwoDividesU32(size);
    WrapKeepsLap(i, size, q);
  }

  lemma WrapKeepsLap(i: nat, size: nat, q: nat)
    requires size > 0 && q > 0
    ensures (i % (size * (2 * q))) % size == i % size
    ensures ((i % (size * (2 * q))) / size) % 2 == (i / size) % 2
  {
    var m := size * (2 * q);
    MulAtLeast(size, 2 * q);
    var w, t := i % m, i / m;
    var a, b := w / size, w % size;
    var laps := q * t;
    Regroup(size, q, t);
    SumOfProducts(size, 2 * laps, a);
    DivModUnique(i, size, 2 * laps + a, b);
  }

  lemma Regroup(a: int, q: int, t: int)
    ensures a * (2 * q) * t == a * (2 * (q * t))
  {
    assert (2 * q) * t == 2 * (q * t);
    assert a * (2 * q) * t == a * ((2 * q) * t);
  }

  lemma SumOfProducts(a: int, x: int, y: int)
    ensures a * x + a * y == a * (x + y)
  {
  }

  lemma NextLap(i: nat, size: nat)
    requires size > 0
    ensures i < size ==> Pos(i, size) == i && EvenLap(i, size)
    ensures Pos(i + size, size) == Pos(i, size)
    ensures EvenLap(i + size, size) != EvenLap(i, size)
  {
    var a, b := i / size, i % size;
    assert i == size * a + b;
    assert size * (a + 1) == size * a + size;
    DivModUnique(i + size, size, a + 1, b);
    if i < size { DivModUnique(i, size, 0, i); }
  }

  /** Two messages less than a lap apart lie in different slots. */
  lemma PosDistinct(i: nat, j: nat, size: nat)
    requires i < j < i + size
    ensures Pos(i, size) != Pos(j, size)
  {
    var a, b := i / size, j / size;
    assert i == size * a + i % size && j == size * b + j % size;
    assert size * (b - a) == size * b - size * a;
    assert size * (a - b) == size * a - size * b;
    if b > a { MulAtLeast(size, b - a); }
    if b < a { MulAtLeast(size, a - b); }
  }

  // ----- the invariant -----

  /** How often `send_head` has been incremented. */
  function Claimed(c: Chan): nat {
    |c.sent| + if c.sender.Filling? && !c.sender.bump then 1 else 0
  }

  /** How often `recv_head` has been incremented. */
  function Started(c: Chan): nat {
    |c.received| + if c.receiver.Draining? then 1 else 0
  }

  /** The message count that the cached tail stands for. */
  function TailCount(c: Chan): int {
    Claimed(c) - Sub32(c.sendHead, c.sendTail)
  }

  predicate HeadsAgree(c: Chan) {
    && IsPowerOfTwo(c.size) && c.size < U32
    && c.sendHead == Claimed(c) % U32
    && c.recvHead == Started(c) % U32
    && c.recvHeadWb == |c.received| % U32
    && 0 <= c.sendTail < U32
    && 0 <= TailCount(c) <= |c.received|
    && Started(c) <= |c.sent|
    && Claimed(c) <= TailCount(c) + c.size
    && (c.sender.Filling? ==> |c.sent| < TailCount(c) + c.size)
  }

  predicate Holds(slot: Slot, m: Msg, i: nat, size: nat)
    requires size > 0
  {
    slot.cmd == m.cmd + (if EvenLap(i, size) then DONE_PARITY else 0)
  }

  ghost predicate SlotsAgree(c: Chan)
    requires Shaped(c)
  {
    && (forall i :: 0 <= i < |c.sent| ==> IsMsg(c.sent[i]))
    && (forall i :: 0 <= i < |c.sent| && |c.sent| - c.size <= i ==>
          Holds(c.tbl[Pos(i, c.size)], c.sent[i], i, c.size))
    && (forall i :: |c.received| <= i < |c.sent| ==> c.tbl[Pos(i, c.size)].data == c.sent[i].data)
    && (forall j :: |c.sent| <= j < c.size ==> c.tbl[j].cmd < DONE_PARITY)
  }

  predicate SidesAgree(c: Chan)
    requires Shaped(c) && |c.received| <= |c.sent|
    requires c.receiver.Draining? ==> |c.received| < |c.sent| && IsMsg(c.sent[|c.received|])
  {
    && (c.sender.Filling? ==>
          && c.sender.slot == Pos(|c.sent|, c.size)
          && c.sender.cmd == c.sender.msg.cmd + (if EvenLap(|c.sent|, c.size) then DONE_PARITY else 0)
          && c.tbl[c.sender.slot].data[..c.sender.copied] == c.sender.msg.data[..c.sender.copied])
    && (c.receiver.Draining? ==>
          && c.receiver.slot == Pos(|c.received|, c.size)
          && c.receiver.cmd % DONE_PARITY == c.sent[|c.received|].cmd
          && c.receiver.got == c.sent[|c.received|].data[..|c.receiver.got|])
  }

  ghost predicate Inv(c: Chan) {
    && Shaped(c)
    && HeadsAgree(c)
    && SlotsAgree(c)
    && (c.receiver.Draining? ==> IsMsg(c.sent[|c.received|]))
    && SidesAgree(c)
    && c.received <= c.sent
  }

  /** The channel that both `init` functions leave over a zeroed table. */
  function Fresh(size: nat, tbl: seq<Slot>): Chan {
    Chan(size, tbl, 0, 0, 0, SenderIdle, 0, ReceiverIdle, [], [])
  }

  predicate Zeroed(tbl: seq<Slot>) {
    forall j :: 0 <= j < |tbl| ==> tbl[j].cmd == 0 && |tbl[j].data| == DATA_BYTES
  }

  lemma FreshHasInv(size: nat, tbl: seq<Slot>)
    requires IsPowerOfTwo(size) && size < U32 && |tbl| == size && Zeroed(tbl)
    ensures Inv(Fresh(size, tbl))
  {
  }

  /** Every state of the invariant has an in-range slot for the receiver. */
  lemma HeadInRange(c: Chan)
    requires HeadsAgree(c)
    ensures c.size > 0 && SlotIndex(c.recvHead, c.size) == Pos(Started(c), c.size) < c.size
  {
    MasksSurviveWrap(Started(c), c.size);
  }

  // ----- each access keeps the invariant -----

  lemma WrapSuccessor(h: nat)
    ensures Add32(h % U32, 1) == (h + 1) % U32
  {
  }

  lemma WrapIncrement(h: nat, t: nat)
    requires t < U32 && Sub32(h % U32, t) < U32 - 1
    ensures Add32(h % U32, 1) == (h + 1) % U32
    ensures Sub32((h + 1) % U32, t) == Sub32(h % U32, t) + 1
  {
    Sub32Cases(h % U32, t);
    Sub32Cases((h + 1) % U32, t);
  }

  lemma Sub32Cases(a: nat, b: nat)
    requires a < U32 && b < U32
    ensures Sub32(a, b) == if b <= a then a - b else a - b + U32
  {
  }

  lemma WrapDifference(a: nat, b: nat)
    requires b <= a < b + U32
    ensures Sub32(a % U32, b % U32) == a - b
  {
  }

  /** The slow path is entered with exactly `size` messages between head and
      tail (the source's assertion), and refuses exactly when `size` published
      messages have not been released. */
  lemma SpaceCheckExact(c: Chan, msg: Msg)
    requires HeadsAgree(c) && c.size > 0 && c.sender.SenderIdle?
    ensures LooksFull(c) ==> Sub32(c.sendHead, c.sendTail) == c.size
    ensures BeginSend(c, msg).sender.SenderIdle? <==> |c.sent| - |c.received| == c.size
  {
    WrapDifference(|c.sent|, |c.received|);
  }

  lemma BeginSendSound(c: Chan, msg: Msg)
    requires Inv(c) && Enabled(c, SendBegin(msg))
    ensures Inv(BeginSend(c, msg))
  {
    SpaceCheckExact(c, msg);
    MasksSurviveWrap(|c.sent|, c.size);
    BeginSendHeads(c, msg);
  }

  lemma BeginSendHeads(c: Chan, msg: Msg)
    requires Inv(c) && Enabled(c, SendBegin(msg))
    ensures HeadsAgree(BeginSend(c, msg))
  {
    WrapDifference(|c.sent|, |c.received|);
    var c' := BeginSend(c, msg);
    if !LooksFull(c) {
      WrapIncrement(|c.sent|, c.sendTail);
    }
  }

  lemma CopyInSound(c: Chan)
    requires Inv(c) && Enabled(c, SendCopy)
    ensures Inv(CopyIn(c))
  {
    var c' := CopyIn(c);
    var n, s, k := |c.sent|, c.sender.slot, c.sender.copied;
    forall i | |c.received| <= i < n
      ensures c'.tbl[Pos(i, c.size)].data == c.sent[i].data
    {
      PosDistinct(i, n, c.size);
    }
    forall i | 0 <= i < n && n - c.size <= i
      ensures Holds(c'.tbl[Pos(i, c.size)], c.sent[i], i, c.size)
    {
      assert Holds(c.tbl[Pos(i, c.size)], c.sent[i], i, c.size);
    }
    var d, d' := c.tbl[s].data, c'.tbl[s].data;
    assert d'[..k + 1] == d[..k] + [c.sender.msg.data[k]];
    assert c.sender.msg.data[..k + 1] == c.sender.msg.data[..k] + [c.sender.msg.data[k]];
  }

  lemma PublishSound(c: Chan)
    requires Inv(c) && Enabled(c, SendPublish)
    ensures Inv(Publish(c))
  {
    var c' := Publish(c);
    var n, s := |c.sent|, c.sender.slot;
    PublishHeads(c);
    NextLap(n, c.size);
    forall i | 0 <= i < n + 1 && n + 1 - c.size <= i
      ensures Holds(c'.tbl[Pos(i, c.size)], c'.sent[i], i, c.size)
    {
      if i < n {
        PosDistinct(i, n, c.size);
        assert Holds(c.tbl[Pos(i, c.size)], c.sent[i], i, c.size);
      }
    }
    forall i | |c.received| <= i < n + 1
      ensures c'.tbl[Pos(i, c.size)].data == c'.sent[i].data
    {
      if i < n { PosDistinct(i, n, c.size); }
      else {
        assert c.tbl[s].data == c.tbl[s].data[..DATA_BYTES];
        assert c.sender.msg.data == c.sender.msg.data[..DATA_BYTES];
      }
    }
  }

  lemma PublishHeads(c: Chan)
    requires Inv(c) && Enabled(c, SendPublish)
    ensures HeadsAgree(Publish(c))
  {
    var c' := Publish(c);
    if c.sender.bump {
      WrapIncrement(|c.sent|, c.sendTail);
    }
  }

  /** The parity test tells the receiver exactly whether a published message is
      still unreceived. */
  lemma EmptyIsExact(c: Chan)
    requires Inv(c) && c.receiver.ReceiverIdle?
    ensures SlotIndex(c.recvHead, c.size) == Pos(|c.received|, c.size)
    ensures Empty(c) <==> |c.sent| == |c.received|
  {
    var n, r := |c.sent|, |c.received|;
    MasksSurviveWrap(r, c.size);
    if r < n {
      assert Holds(c.tbl[Pos(r, c.size)], c.sent[r], r, c.size);
      assert IsMsg(c.sent[r]);
    } else if n >= c.size {
      NextLap(n - c.size, c.size);
      assert Holds(c.tbl[Pos(n - c.size, c.size)], c.sent[n - c.size], n - c.size, c.size);
      assert IsMsg(c.sent[n - c.size]);
    } else {
      NextLap(n, c.size);
    }
  }

  lemma StripParity(cmd: nat)
    requires cmd < DONE_PARITY
    ensures cmd % DONE_PARITY == cmd && (cmd + DONE_PARITY) % DONE_PARITY == cmd
  {
  }

  lemma BeginRecvHeads(c: Chan)
    requires HeadsAgree(c) && c.receiver.ReceiverIdle? && |c.received| < |c.sent|
    ensures forall slot, cmd :: HeadsAgree(c.(recvHead := Add32(c.recvHead, 1), receiver := Draining(slot, cmd, [])))
  {
    WrapSuccessor(|c.received|);
  }

  lemma BeginRecvSound(c: Chan)
    requires Inv(c) && Enabled(c, RecvBegin)
    ensures SlotIndex(c.recvHead, c.size) < c.size
    ensures Inv(BeginRecv(c))
    ensures BeginRecv(c) == c <==> |c.sent| == |c.received|
  {
    EmptyIsExact(c);
    var r := |c.received|;
    if r < |c.sent| {
      BeginRecvHeads(c);
      assert Holds(c.tbl[Pos(r, c.size)], c.sent[r], r, c.size);
      assert IsMsg(c.sent[r]);
      StripParity(c.sent[r].cmd);
      var c' := BeginRecv(c);
      assert SlotsAgree(c');
      assert HeadsAgree(c');
    }
  }

  lemma CopyOutSound(c: Chan)
    requires Inv(c) && Enabled(c, RecvCopy)
    ensures Inv(CopyOut(c))
  {
    var g := |c.receiver.got|;
    var m := c.sent[|c.received|];
    assert m.data[..g + 1] == m.data[..g] + [m.data[g]];
  }

  lemma WriteBackSound(c: Chan)
    requires Inv(c) && Enabled(c, RecvWriteBack)
    ensures Taken(c) == c.sent[|c.received|]
    ensures Inv(WriteBack(c))
  {
    var m := c.sent[|c.received|];
    assert m.data == m.data[..DATA_BYTES];
    assert c.received + [m] <= c.sent;
  }

  lemma StepKeepsInv(c: Chan, a: Action)
    requires Inv(c) && Enabled(c, a)
    ensures c.size > 0 && SlotIndex(c.recvHead, c.size) < c.size
    ensures Inv(Step(c, a))
  {
    HeadInRange(c);
    match a
    case SendBegin(msg) => BeginSendSound(c, msg);
    case SendCopy => CopyInSound(c);
    case SendPublish => PublishSound(c);
    case RecvBegin => BeginRecvSound(c);
    case RecvCopy => CopyOutSound(c);
    case RecvWriteBack => WriteBackSound(c);
  }

  // ----- whole runs, and refinement of a FIFO queue -----

  /** Every consecutive pair of states of `run` is one enabled access. */
  ghost predicate IsRun(run: seq<Chan>, acts: seq<Action>) {
    && |run| == |acts| + 1
    && (forall i :: 0 <= i < |acts| ==>
          && Shaped(run[i]) && SlotIndex(run[i].recvHead, run[i].size) < run[i].size
          && Enabled(run[i], acts[i]) && run[i + 1] == Step(run[i], acts[i]))
  }

  lemma {:induction false} RunKeepsInv(run: seq<Chan>, acts: seq<Action>, i: nat)
    requires IsRun(run, acts) && Inv(run[0]) && i < |run|
    ensures Inv(run[i])
  {
    if i > 0 {
      RunKeepsInv(run, acts, i - 1);
      assert Enabled(run[i - 1], acts[i - 1]);
      StepKeepsInv(run[i - 1], acts[i - 1]);
    }
  }

  /** The abstract queue: what is published and not yet received. */
  function Queue(c: Chan): seq<Msg>
    requires |c.received| <= |c.sent|
  {
    c.sent[|c.received|..]
  }

  /** What one step does to a FIFO queue. */
  predicate FifoStep(q: seq<Msg>, a: Action, c: Chan, q': seq<Msg>)
    requires Enabled(c, a)
  {
    match a
    case SendPublish => q' == q + [c.sender.msg]
    case RecvWriteBack => 0 < |q| && Taken(c) == q[0] && q' == q[1..]
    case _ => q' == q
  }

  /** Every access, on every interleaving, is an enqueue, a dequeue of the
      oldest message, or invisible. */
  lemma StepRefinesFifo(c: Chan, a: Action)
    requires Inv(c) && Enabled(c, a)
    ensures c.size > 0 && SlotIndex(c.recvHead, c.size) < c.size
    ensures |Step(c, a).received| <= |Step(c, a).sent|
    ensures FifoStep(Queue(c), a, c, Queue(Step(c, a)))
  {
    HeadInRange(c);
    if a.RecvWriteBack? {
      WriteBackSound(c);
    }
  }

  /** Safety of every run from a zeroed table: in every state the messages
      received are a prefix of the messages sent, the number outstanding is at
      most `size` (also as the difference of the wrapped 32-bit heads), and the
      receiver's emptiness test is exact. */
  lemma RunIsFifo(run: seq<Chan>, acts: seq<Action>, size: nat, tbl: seq<Slot>, i: nat)
    requires IsPowerOfTwo(size) && size < U32 && |tbl| == size && Zeroed(tbl)
    requires IsRun(run, acts) && run[0] == Fresh(size, tbl) && i < |run|
    ensures var c := run[i];
            && c.received <= c.sent
            && Shaped(c) && SlotIndex(c.recvHead, c.size) < c.size
            && Sub32(c.sendHead, c.recvHeadWb) == Claimed(c) - |c.received| <= c.size
            && (c.receiver.ReceiverIdle? ==> (Empty(c) <==> |c.sent| == |c.received|))
  {
    FreshHasInv(size, tbl);
    RunKeepsInv(run, acts, i);
    var c := run[i];
    HeadInRange(c);
    WrapDifference(Claimed(c), |c.received|);
    if c.receiver.ReceiverIdle? { EmptyIsExact(c); }
  }

  // ----- uninterrupted calls -----

  /** All the byte copies of a send, done at once. */
  function Filled(c: Chan): Chan
    requires Shaped(c) && c.sender.Filling?
  {
    var s := c.sender.slot;
    c.(tbl := c.tbl[s := c.tbl[s].(data := c.sender.msg.data)], sender := c.sender.(copied := DATA_BYTES))
  }

  /** One whole `lrpc_send` with no receiver access in between. */
  function SendAll(c: Chan, msg: Msg): Chan
    requires Shaped(c) && Enabled(c, SendBegin(msg)) && SlotIndex(c.sendHead, c.size) < c.size
  {
    var c1 := BeginSend(c, msg);
    if c1.sender.SenderIdle? then c1 else Publish(Filled(c1))
  }

  function Drained(c: Chan): Chan
    requires Shaped(c) && c.receiver.Draining?
  {
    c.(receiver := c.receiver.(got := c.tbl[c.receiver.slot].data))
  }

  /** One whole `lrpc_recv` with no sender access in between. */
  function RecvAll(c: Chan): Chan
    requires Shaped(c) && Enabled(c, RecvBegin) && SlotIndex(c.recvHead, c.size) < c.size
  {
    if Empty(c) then c else WriteBack(Drained(BeginRecv(c)))
  }

  lemma ExtendRun(run: seq<Chan>, acts: seq<Action>, a: Action)
    requires IsRun(run, acts) && Inv(run[|run| - 1]) && Enabled(run[|run| - 1], a)
    ensures SlotIndex(run[|run| - 1].recvHead, run[|run| - 1].size) < run[|run| - 1].size
    ensures IsRun(run + [Step(run[|run| - 1], a)], acts + [a])
  {
    HeadInRange(run[|run| - 1]);
  }

  lemma FilledAfterOneCopy(c: Chan)
    requires Inv(c) && Enabled(c, SendCopy)
    ensures Shaped(CopyIn(c)) && Filled(CopyIn(c)) == Filled(c)
  {
    CopyInSound(c);
    assert Filled(CopyIn(c)).tbl == Filled(c).tbl;
  }

  lemma FilledWhenCopied(c: Chan)
    requires Inv(c) && Enabled(c, SendPublish)
    ensures Filled(c) == c
  {
    var s := c.sender.slot;
    assert c.tbl[s].data == c.tbl[s].data[..DATA_BYTES];
    assert c.sender.msg.data == c.sender.msg.data[..DATA_BYTES];
    assert c.tbl[s := c.tbl[s].(data := c.sender.msg.data)] == c.tbl;
  }

  lemma {:induction false} FillRun(run: seq<Chan>, acts: seq<Action>) returns (run': seq<Chan>, acts': seq<Action>)
    requires IsRun(run, acts)
    requires Inv(run[|run| - 1]) && run[|run| - 1].sender.Filling?
    ensures IsRun(run', acts') && run <= run'
    ensures run'[|run'| - 1] == Filled(run[|run| - 1]) && Inv(run'[|run'| - 1])
    decreases DATA_BYTES - run[|run| - 1].sender.copied
  {
    var c := run[|run| - 1];
    if c.sender.copied == DATA_BYTES {
      FilledWhenCopied(c);
      return run, acts;
    }
    ExtendRun(run, acts, SendCopy);
    CopyInSound(c);
    FilledAfterOneCopy(c);
    run', acts' := FillRun(run + [CopyIn(c)], acts + [SendCopy]);
  }

  lemma {:induction false} FillSound(c: Chan)
    requires Inv(c) && c.sender.Filling?
    ensures Inv(Filled(c))
    decreases DATA_BYTES - c.sender.copied
  {
    if c.sender.copied == DATA_BYTES {
      FilledWhenCopied(c);
    } else {
      CopyInSound(c);
      FilledAfterOneCopy(c);
      FillSound(CopyIn(c));
    }
  }

  /** A send enqueues its message, or refuses exactly when `size` messages are
      unreleased. */
  lemma SendAllSound(c: Chan, msg: Msg)
    requires Inv(c) && Enabled(c, SendBegin(msg))
    ensures SlotIndex(c.sendHead, c.size) < c.size
    ensures Inv(SendAll(c, msg))
    ensures SendAll(c, msg).sent == if |c.sent| - |c.received| == c.size then c.sent else c.sent + [msg]
  {
    MasksSurviveWrap(|c.sent|, c.size);
    SpaceCheckExact(c, msg);
    BeginSendSound(c, msg);
    var c1 := BeginSend(c, msg);
    if c1.sender.Filling? {
      FilledPublishSound(c1);
    }
  }

  lemma FilledPublishSound(c: Chan)
    requires Inv(c) && c.sender.Filling?
    ensures Filled(c).sender.Filling? && Inv(Publish(Filled(c)))
    ensures Publish(Filled(c)).sent == c.sent + [c.sender.msg]
  {
    FillSound(c);
    PublishSound(Filled(c));
  }

  /** An uninterrupted send is a run of the protocol. */
  lemma SendAllIsRun(c: Chan, msg: Msg) returns (run: seq<Chan>, acts: seq<Action>)
    requires Inv(c) && Enabled(c, SendBegin(msg))
    ensures SlotIndex(c.sendHead, c.size) < c.size
    ensures IsRun(run, acts) && run[0] == c && run[|run| - 1] == SendAll(c, msg)
  {
    MasksSurviveWrap(|c.sent|, c.size);
    BeginSendSound(c, msg);
    run, acts := OneStep(c, SendBegin(msg));
    if BeginSend(c, msg).sender.Filling? {
      run, acts := PublishRun(run, acts);
    }
  }

  lemma OneStep(c: Chan, a: Action) returns (run: seq<Chan>, acts: seq<Action>)
    requires Inv(c) && Enabled(c, a)
    ensures c.size > 0 && SlotIndex(c.recvHead, c.size) < c.size
    ensures IsRun(run, acts) && run == [c, Step(c, a)]
  {
    HeadInRange(c);
    run, acts := [c, Step(c, a)], [a];
  }

  lemma PublishRun(run: seq<Chan>, acts: seq<Action>) returns (run': seq<Chan>, acts': seq<Action>)
    requires IsRun(run, acts)
    requires Inv(run[|run| - 1]) && run[|run| - 1].sender.Filling?
    ensures IsRun(run', acts') && run <= run'
    ensures run'[|run'| - 1] == Publish(Filled(run[|run| - 1])) && Inv(run'[|run'| - 1])
  {
    run', acts' := FillRun(run, acts);
    var f := run'[|run'| - 1];
    ExtendRun(run', acts', SendPublish);
    PublishSound(f);
    run', acts' := run' + [Publish(f)], acts' + [SendPublish];
  }

  lemma {:induction false} DrainRun(run: seq<Chan>, acts: seq<Action>) returns (run': seq<Chan>, acts': seq<Action>)
    requires IsRun(run, acts)
    requires Inv(run[|run| - 1]) && run[|run| - 1].receiver.Draining?
    ensures IsRun(run', acts') && run <= run'
    ensures run'[|run'| - 1] == Drained(run[|run| - 1]) && Inv(run'[|run'| - 1])
    decreases DATA_BYTES - |run[|run| - 1].receiver.got|
  {
    var c := run[|run| - 1];
    if |c.receiver.got| == DATA_BYTES {
      DrainedWhenCopied(c);
      return run, acts;
    }
    ExtendRun(run, acts, RecvCopy);
    CopyOutSound(c);
    run', acts' := DrainRun(run + [CopyOut(c)], acts + [RecvCopy]);
  }

  lemma DrainedWhenCopied(c: Chan)
    requires Inv(c) && Enabled(c, RecvWriteBack)
    ensures Drained(c) == c
  {
    var m := c.sent[|c.received|];
    assert m.data == m.data[..DATA_BYTES];
  }

  /** An uninterrupted receive is a run of the protocol; it takes the oldest
      unreceived message, or refuses exactly when there is none. */
  lemma RecvAllIsRun(c: Chan) returns (run: seq<Chan>, acts: seq<Action>)
    requires Inv(c) && Enabled(c, RecvBegin)
    ensures SlotIndex(c.recvHead, c.size) < c.size
    ensures Empty(c) <==> |c.sent| == |c.received|
    ensures IsRun(run, acts) && run[0] == c && run[|run| - 1] == RecvAll(c)
    ensures Inv(RecvAll(c)) && RecvAll(c).sent == c.sent
    ensures |c.received| < |c.sent| ==> RecvAll(c).received == c.received + [c.sent[|c.received|]]
  {
    EmptyIsExact(c);
    BeginRecvSound(c);
    ExtendRun([c], [], RecvBegin);
    run, acts := [c], [];
    if |c.received| < |c.sent| {
      run, acts := run + [BeginRecv(c)], acts + [RecvBegin];
      run, acts := DrainRun(run, acts);
      var d := run[|run| - 1];
      ExtendRun(run, acts, RecvWriteBack);
      WriteBackSound(d);
      run, acts := run + [WriteBack(d)], acts + [RecvWriteBack];
    }
  }
}
