/** `lrpc_send`, `__lrpc_send`, `lrpc_recv` and `lrpc_empty` as the source runs
    them, on mutable channel words and a shared table. Each call computes
    `SendAll` or `RecvAll` of `LrpcProtocol`, which are runs of the protocol. */
module LrpcChannel {
  import opened Basics
  import opened Words
  import opened LrpcProtocol

  class Channel {
    const size: nat
    const tbl: array<Slot>
    var recvHeadWb: nat
    var sendHead: nat
    var sendTail: nat
    var recvHead: nat
    ghost var sent: seq<Msg>
    ghost var received: seq<Msg>

    /** The channel between two calls. */
    ghost function View(): Chan
      reads this, tbl
    {
      Chan(size, tbl[..], recvHeadWb, sendHead, sendTail, SenderIdle, recvHead, ReceiverIdle, sent, received)
    }

    ghost predicate Valid()
      reads this, tbl
    {
      Inv(View())
    }

    /** Both init functions over a zeroed table of `size` entries. */
    constructor (size: nat)
      requires IsPowerOfTwo(size) && size < U32
      ensures Valid() && fresh(tbl) && this.size == size
      ensures View() == Fresh(size, tbl[..]) && Zeroed(tbl[..])
    {
      this.size := size;
      var zero := Slot(0, seq(DATA_BYTES, _ => 0));
      tbl := new Slot[size](_ => zero);
      recvHeadWb, sendHead, sendTail, recvHead := 0, 0, 0, 0;
      sent, received := [], [];
      new;
      FreshHasInv(size, tbl[..]);
    }

    method Send(msg: Msg) returns (rc: int)
      requires Valid() && IsMsg(msg)
      modifies this, tbl
      ensures Valid()
      ensures SlotIndex(old(sendHead), size) < size && View() == SendAll(old(View()), msg)
      ensures rc == (if old(|sent| - |received|) == size then -1 else 0)
      ensures sent == if rc == 0 then old(sent) + [msg] else old(sent)
    {
      ghost var c0 := View();
      SpaceCheckExact(c0, msg);
      if (sendHead - sendTail) % U32 >= size {
        rc := SlowSend(msg);
      } else {
        rc := FastSend(msg);
      }
      SendAllSound(c0, msg);
    }

    /** The path on which the cached tail already shows room. */
    method FastSend(msg: Msg) returns (rc: int)
      requires Valid() && IsMsg(msg)
      requires Sub32(sendHead, sendTail) < size
      modifies this, tbl
      ensures SlotIndex(old(sendHead), size) < size && View() == SendAll(old(View()), msg)
      ensures rc == (if old(|sent| - |received|) == size then -1 else 0)
    {
      ghost var c0 := View();
      SpaceCheckExact(c0, msg);
      MasksSurviveWrap(|sent|, size);
      var slot := And(sendHead, size - 1);
      var cmd := msg.cmd + (if And(sendHead, size) != 0 then 0 else DONE_PARITY);
      sendHead := (sendHead + 1) % U32;
      CopyData(slot, msg.data);
      tbl[slot] := tbl[slot].(cmd := cmd);
      sent := sent + [msg];
      assert tbl[..] == SendAll(c0, msg).tbl;
      rc := 0;
    }

    /** The full-ring path, entered after the space check. */
    method SlowSend(msg: Msg) returns (rc: int)
      requires Valid() && IsMsg(msg)
      requires Sub32(sendHead, sendTail) == size  // the assertion on entry
      modifies this, tbl
      ensures SlotIndex(old(sendHead), size) < size && View() == SendAll(old(View()), msg)
      ensures rc == (if old(|sent| - |received|) == size then -1 else 0)
    {
      ghost var c0 := View();
      MasksSurviveWrap(|sent|, size);
      SpaceCheckExact(c0, msg);
      sendTail := recvHeadWb;
      if (sendHead - sendTail) % U32 == size {
        return -1;
      }
      var slot := And(sendHead, size - 1);
      CopyData(slot, msg.data);
      var cmd := msg.cmd + (if And(sendHead, size) != 0 then 0 else DONE_PARITY);
      sendHead := (sendHead + 1) % U32;
      tbl[slot] := tbl[slot].(cmd := cmd);
      sent := sent + [msg];
      assert tbl[..] == SendAll(c0, msg).tbl;
      rc := 0;
    }

    /** `memcpy` into a slot's data. */
    method CopyData(slot: nat, data: seq<Byte>)
      requires slot < tbl.Length && |data| == DATA_BYTES == |tbl[slot].data|
      modifies tbl
      ensures tbl[..] == old(tbl[..])[slot := old(tbl[slot]).(data := data)]
    {
      for k := 0 to DATA_BYTES
        invariant |tbl[slot].data| == DATA_BYTES && tbl[slot].cmd == old(tbl[slot].cmd)
        invariant tbl[slot].data[..k] == data[..k]
        invariant forall j :: 0 <= j < tbl.Length && j != slot ==> tbl[j] == old(tbl[j])
      {
        tbl[slot] := tbl[slot].(data := tbl[slot].data[k := data[k]]);
      }
      assert tbl[slot].data == tbl[slot].data[..DATA_BYTES] == data[..DATA_BYTES] == data;
    }

    method Recv() returns (rc: int, msg: Msg)
      requires Valid()
      modifies this
      ensures Valid()
      ensures SlotIndex(old(recvHead), size) < size && View() == RecvAll(old(View()))
      ensures rc == (if old(|sent| == |received|) then -1 else 0)
      ensures rc == 0 ==> msg == old(sent[|received|]) && received == old(received) + [msg]
    {
      ghost var c0 := View();
      ghost var run, acts := RecvAllIsRun(c0);
      var slot := And(recvHead, size - 1);
      var parity := if And(recvHead, size) != 0 then 0 else DONE_PARITY;
      var cmd := tbl[slot].cmd;
      msg := Msg(0, []);
      if (cmd >= DONE_PARITY) != (parity != 0) {
        return -1, msg;
      }
      recvHead := (recvHead + 1) % U32;
      msg := Msg(cmd % DONE_PARITY, tbl[slot].data);
      recvHeadWb := recvHead;
      received := received + [msg];
      rc := 0;
    }

    method IsEmpty() returns (b: bool)
      requires Valid()
      ensures b <==> |sent| == |received|
    {
      EmptyIsExact(View());
      var slot := And(recvHead, size - 1);
      var parity := if And(recvHead, size) != 0 then 0 else DONE_PARITY;
      b := (tbl[slot].cmd >= DONE_PARITY) != (parity != 0);
    }
  }

  /** The init functions' own check of the ring size. */
  method Init(size: nat) returns (rc: int, ch: Channel?)
    requires size < U32
    ensures rc == 0 <==> IsPowerOfTwo(size)
    ensures rc == 0 ==> ch != null && fresh(ch) && fresh(ch.tbl) && ch.Valid() && ch.sent == [] && ch.size == size
  {
    if size == 0 || And(size, size - 1) != 0 {
      return -22, null;
    }
    ch := new Channel(size);
    rc := 0;
  }
}
