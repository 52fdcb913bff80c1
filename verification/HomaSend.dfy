/** Chains of transmit buffers, linked through the headroom of each frame. */
module BufferChain {
  import opened Words

  /** The null link. */
  const POISON: nat := U64 - 1

  /** What follows the `i`-th element of a list. */
  function Successor(chain: seq<nat>, i: nat): nat {
    if i + 1 < |chain| then chain[i + 1] else POISON
  }

  /** `chain` is the acyclic list that the links spell out from `chain[0]`. */
  ghost predicate IsChain(next: map<nat, nat>, chain: seq<nat>) {
    chain != [] ==>
      && chain[0] != POISON && chain[0] in next && chain[0] !in chain[1..]
      && next[chain[0]] == Successor(chain, 0)
      && IsChain(next, chain[1..])
  }

  lemma {:induction false} LinkAt(next: map<nat, nat>, chain: seq<nat>, i: nat)
    requires IsChain(next, chain) && i < |chain|
    ensures chain[i] != POISON && chain[i] in next && next[chain[i]] == Successor(chain, i)
  {
    if i > 0 {
      LinkAt(next, chain[1..], i - 1);
      assert chain[1..][i - 1] == chain[i];
    }
  }

  /** Links outside a chain do not matter to it. */
  lemma {:induction false} ChainFrame(next: map<nat, nat>, next': map<nat, nat>, chain: seq<nat>)
    requires IsChain(next, chain)
    requires forall a :: a in chain && a in next ==> a in next' && next'[a] == next[a]
    ensures IsChain(next', chain)
  {
    if chain != [] {
      assert forall a :: a in chain[1..] ==> a in chain;
      ChainFrame(next, next', chain[1..]);
    }
  }

  /** Free buffers are distinct and not in the chain. */
  ghost predicate Fresh(free: seq<nat>, chain: seq<nat>) {
    && (forall i :: 0 <= i < |free| ==> free[i] != POISON && free[i] !in chain)
    && (forall i, j :: 0 <= i < j < |free| ==> free[i] != free[j])
  }

  /** Linking a new last buffer behind a chain. */
  function Linked(next: map<nat, nat>, last: nat, addr: nat): map<nat, nat> {
    var cleared := next[addr := POISON];
    if last != POISON then cleared[last := addr] else cleared
  }

  /** Two disjoint chains, the end of the first linked to the second. */
  lemma {:induction false} JoinChains(next: map<nat, nat>, chain: seq<nat>, more: seq<nat>)
    requires IsChain(next, chain) && IsChain(next, more) && chain != [] && more != []
    requires forall a :: a in chain ==> a !in more
    ensures IsChain(next[chain[|chain| - 1] := more[0]], chain + more)
    ensures IsChain(next[chain[|chain| - 1] := more[0]], more)
  {
    var last := chain[|chain| - 1];
    var joined := next[last := more[0]];
    ChainFrame(next, joined, more);
    var both, rest := chain + more, chain[1..];
    if rest == [] {
      assert chain == [last] && both[1..] == more;
    } else {
      assert rest[|rest| - 1] == last && last in rest;
      JoinChains(next, rest, more);
      assert both[1..] == rest + more;
      assert both[1] == chain[1];
    }
  }

  /** A stray link from nowhere leaves the second chain unreachable. */
  lemma StrayLink(next: map<nat, nat>, chain: seq<nat>, more: seq<nat>)
    requires IsChain(next, chain) && IsChain(next, more) && chain != [] && more != []
    ensures IsChain(next[POISON := more[0]], more)
    ensures !IsChain(next[POISON := more[0]], chain + more)
  {
    var stray := next[POISON := more[0]];
    forall a | a in more && a in next ensures stray[a] == next[a] {
      var i :| 0 <= i < |more| && more[i] == a;
      LinkAt(next, more, i);
    }
    ChainFrame(next, stray, more);
    LinkAt(next, chain, |chain| - 1);
    LinkAt(next, more, 0);
    if IsChain(stray, chain + more) {
      LinkAt(stray, chain + more, |chain| - 1);
    }
  }

  lemma LinkExtendsChain(next: map<nat, nat>, chain: seq<nat>, addr: nat)
    requires IsChain(next, chain) && addr != POISON && addr !in chain
    ensures IsChain(Linked(next, if chain == [] then POISON else chain[|chain| - 1], addr), chain + [addr])
  {
    var cleared := next[addr := POISON];
    ChainFrame(next, cleared, chain);
    assert [addr][1..] == [];
    if chain == [] {
      assert chain + [addr] == [addr];
    } else {
      LinkAt(next, chain, |chain| - 1);
      JoinChains(cleared, chain, [addr]);
    }
  }
}

/** Resumable segmentation of a message into linked transmit buffers. */
module HomaSend {
  import opened Basics
  import opened Words
  import opened HomaSegments
  import opened BufferChain

  lemma SentPackets(msg: seq<Byte>, mss: nat, n: nat)
    requires mss > 0 && n <= NumPackets(|msg|, mss) < U16
    ensures Numbered(Packets(msg, mss, 0, n), |msg|, mss)
    ensures n == NumPackets(|msg|, mss) ==> Payloads(Packets(msg, mss, 0, n)) == msg
  {
    PacketsNumbered(msg, mss, n);
    PacketsCoverMessage(msg, mss);
  }

  /** Packets that the first `n` calls have buffers for. */
  function Offered(calls: seq<seq<nat>>, batch: nat, n: nat): nat
    requires n <= |calls|
  {
    if n == 0 then 0 else Offered(calls, batch, n - 1) + Min(batch, |calls[n - 1]|)
  }

  lemma {:induction false} OfferedMonotone(calls: seq<seq<nat>>, batch: nat, m: nat, n: nat)
    requires m <= n <= |calls|
    ensures Offered(calls, batch, m) <= Offered(calls, batch, n)
  {
    if m < n { OfferedMonotone(calls, batch, m, n - 1); }
  }

  /** The per-message transmit state and the transmit buffers it has filled. */
  class Transmission {
    const msg: seq<Byte>
    const mss: nat
    var seqNo: nat
    var prevAddr: nat
    var next: map<nat, nat>
    var frames: map<nat, Packet>
    ghost var chain: seq<nat>

    /** Packets `0 .. seqNo` are out, chained in order. */
    ghost predicate Valid()
      reads this
    {
      && 0 < mss && |msg| < U32 && NumPackets(|msg|, mss) < U16
      && seqNo <= NumPackets(|msg|, mss)
      && SentOk(msg, mss, seqNo, prevAddr, next, frames, chain)
    }

    constructor (msg: seq<Byte>, mss: nat)
      requires 0 < mss && |msg| < U32 && NumPackets(|msg|, mss) < U16
      ensures Valid() && this.msg == msg && this.mss == mss && seqNo == 0
    {
      this.msg, this.mss := msg, mss;
      seqNo, prevAddr := 0, POISON;
      next, frames, chain := map[], map[], [];
    }

    /** One call of the segmentation. `free` are the buffers that the cache and
        the transmit ring have room for during this call, `batch` is the largest
        number of packets per call. */
    method Segment(free: seq<nat>, batch: nat) returns (done: bool, out: seq<Packet>)
      requires Valid() && (seqNo < NumPackets(|msg|, mss) || |msg| == 0)
      requires Fresh(free, chain)
      modifies this
      ensures Valid()
      ensures seqNo == old(seqNo) + Min(NumPackets(|msg|, mss) - old(seqNo), Min(batch, |free|))
      ensures out == Packets(msg, mss, old(seqNo), seqNo)
      ensures chain == old(chain) + free[..seqNo - old(seqNo)]
      ensures done <==> seqNo == NumPackets(|msg|, mss)
    {
      var copyOffset, nrBuffers := Plan(|msg|, mss, seqNo, batch);
      copyOffset, out := FillMany(free[..Min(nrBuffers, |free|)], copyOffset);
      done := copyOffset >= |msg|;
      CutsEnd(|msg|, mss, seqNo);
    }

    /** The loop over the buffers that the call can use. */
    method FillMany(free: seq<nat>, start: nat) returns (copyOffset: nat, out: seq<Packet>)
      requires Valid() && seqNo + |free| <= NumPackets(|msg|, mss)
      requires Fresh(free, chain) && start == Cut(|msg|, mss, seqNo)
      modifies this
      ensures Valid() && seqNo == old(seqNo) + |free|
      ensures copyOffset == Cut(|msg|, mss, seqNo)
      ensures out == Packets(msg, mss, old(seqNo), seqNo)
      ensures chain == old(chain) + free
    {
      copyOffset, out := start, [];
      var i := 0;
      ghost var filled: seq<nat> := [];
      while i < |free|
        invariant 0 <= i <= |free|
        invariant Valid() && seqNo == old(seqNo) + i
        invariant copyOffset == Cut(|msg|, mss, seqNo)
        invariant out == Packets(msg, mss, old(seqNo), seqNo)
        invariant filled == free[..i] && chain == old(chain) + filled
      {
        assert free[i] !in filled;
        var packet;
        packet, copyOffset := FillOne(free[i], copyOffset);
        out := out + [packet];
        filled := filled + [free[i]];
        i := i + 1;
      }
      assert free[..i] == free;
    }

    /** Copy the next piece into a buffer and link it behind the previous one. */
    method FillOne(addr: nat, copyOffset: nat) returns (packet: Packet, newOffset: nat)
      requires Valid() && seqNo < NumPackets(|msg|, mss)
      requires addr != POISON && addr !in chain && copyOffset == Cut(|msg|, mss, seqNo)
      modifies this
      ensures Valid() && chain == old(chain) + [addr]
      ensures packet == PacketOf(msg, mss, old(seqNo)) && newOffset == Cut(|msg|, mss, seqNo)
    {
      packet, newOffset := CopyOut(msg, mss, seqNo, copyOffset);
      OneMore(msg, mss, seqNo, prevAddr, next, frames, chain, addr);
      ghost var linked, filled := Linked(next, prevAddr, addr), frames[addr := packet];
      next := next[addr := POISON];
      if prevAddr != POISON {
        next := next[prevAddr := addr];
      }
      prevAddr := addr;
      frames := frames[addr := packet];
      chain := chain + [addr];
      seqNo := (seqNo + 1) % U16;
      assert next == linked && frames == filled && seqNo == old(seqNo) + 1;
      assert SentOk(msg, mss, seqNo, prevAddr, next, frames, chain);
    }

    /** However the segmentation is interrupted: after any number of calls with
        any buffers available in each, exactly the packets `0 .. seqNo` are out,
        in order, and the last call reports completion exactly when all are. */
    method Resume(calls: seq<seq<nat>>, batch: nat) returns (done: bool, out: seq<Packet>)
      requires Valid() && seqNo == 0 && 0 < |msg|
      requires forall c :: 0 <= c < |calls| ==> Fresh(calls[c], chain)
      requires forall c, d, i, j :: 0 <= c < d < |calls| && 0 <= i < |calls[c]| && 0 <= j < |calls[d]| ==>
                 calls[c][i] != calls[d][j]
      modifies this
      ensures Valid() && out == Packets(msg, mss, 0, seqNo)
      ensures |out| == Min(NumPackets(|msg|, mss), Offered(calls, batch, |calls|))
      ensures Numbered(out, |msg|, mss)
      ensures done <==> seqNo == NumPackets(|msg|, mss)
      ensures done ==> Payloads(out) == msg
    {
      done, out := false, [];
      var c := 0;
      while c < |calls| && !done
        invariant 0 <= c <= |calls| && Valid()
        invariant out == Packets(msg, mss, 0, seqNo)
        invariant seqNo == Min(NumPackets(|msg|, mss), Offered(calls, batch, c))
        invariant done <==> seqNo == NumPackets(|msg|, mss)
        invariant forall d :: c <= d < |calls| ==> Fresh(calls[d], chain)
      {
        var more;
        ghost var before := seqNo;
        done, more := Segment(calls[c], batch);
        PacketsAppend(msg, mss, 0, before, seqNo);
        out := out + more;
        c := c + 1;
      }
      OfferedMonotone(calls, batch, c, |calls|);
      SentPackets(msg, mss, seqNo);
    }
  }

  /** The buffers of the chain hold these packets, in order. */
  ghost predicate Holding(frames: map<nat, Packet>, chain: seq<nat>, packets: seq<Packet>)
    requires |chain| == |packets|
  {
    forall i :: 0 <= i < |chain| ==> chain[i] in frames && frames[chain[i]] == packets[i]
  }

  /** Packets `0 .. seqNo` of the message are out, chained in order. */
  ghost predicate SentOk(msg: seq<Byte>, mss: nat, seqNo: nat, prevAddr: nat,
                         next: map<nat, nat>, frames: map<nat, Packet>, chain: seq<nat>) {
    && seqNo == |chain|
    && IsChain(next, chain)
    && prevAddr == (if chain == [] then POISON else chain[|chain| - 1])
    && Holding(frames, chain, Packets(msg, mss, 0, seqNo))
  }

  lemma OneMore(msg: seq<Byte>, mss: nat, seqNo: nat, prevAddr: nat,
                next: map<nat, nat>, frames: map<nat, Packet>, chain: seq<nat>, addr: nat)
    requires SentOk(msg, mss, seqNo, prevAddr, next, frames, chain) && addr != POISON && addr !in chain
    ensures SentOk(msg, mss, seqNo + 1, addr, Linked(next, prevAddr, addr),
                   frames[addr := PacketOf(msg, mss, seqNo)], chain + [addr])
  {
    LinkExtendsChain(next, chain, addr);
    HoldOneMore(frames, chain, Packets(msg, mss, 0, seqNo), addr, PacketOf(msg, mss, seqNo));
  }

  lemma HoldOneMore(frames: map<nat, Packet>, chain: seq<nat>, packets: seq<Packet>, addr: nat, packet: Packet)
    requires |chain| == |packets| && Holding(frames, chain, packets) && addr !in chain
    ensures Holding(frames[addr := packet], chain + [addr], packets + [packet])
  {
  }

  /** The header fields and the payload of the next packet. */
  method CopyOut(msg: seq<Byte>, mss: nat, seqNo: nat, copyOffset: nat) returns (packet: Packet, newOffset: nat)
    requires 0 < mss && seqNo < NumPackets(|msg|, mss) && seqNo < U16 && copyOffset == Cut(|msg|, mss, seqNo)
    ensures packet == PacketOf(msg, mss, seqNo) && newOffset == Cut(|msg|, mss, seqNo + 1)
  {
    CutsEnd(|msg|, mss, seqNo);
    var plen := Min(mss, |msg| - copyOffset);
    packet := Packet(seqNo, |msg|, copyOffset, msg[copyOffset..copyOffset + plen]);
    newOffset := copyOffset + plen;
  }

  /** Where to continue and how many buffers to use at most. */
  method Plan(len: nat, mss: nat, seqNo: nat, batch: nat) returns (copyOffset: nat, nrBuffers: nat)
    requires 0 < mss && len < U32
    requires seqNo < NumPackets(len, mss) || (len == 0 && seqNo == 0)
    ensures copyOffset == Cut(len, mss, seqNo)
    ensures nrBuffers == Min(NumPackets(len, mss) - seqNo, batch)
  {
    ResumeOffset(len, mss, seqNo);
    copyOffset := (seqNo * mss) % U32;
    var size := len - copyOffset;
    RemainingPackets(len, mss, seqNo);
    NumPacketsIsCeiling(size, mss);
    nrBuffers := Min((size + mss - 1) / mss, batch);
  }

  lemma ResumeOffset(len: nat, mss: nat, seqNo: nat)
    requires 0 < mss && len < U32
    requires seqNo < NumPackets(len, mss) || (len == 0 && seqNo == 0)
    ensures (seqNo * mss) % U32 == Cut(len, mss, seqNo)
  {
    if len == 0 {
      assert 0 * mss == 0;
    } else {
      CutIsProduct(len, mss, seqNo);
    }
  }
}
