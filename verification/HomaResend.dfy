/** Cloning the packets of a RESEND range and linking the clones behind the
    chain of the message's transmit buffers. */
module HomaResend {
  import opened Basics
  import opened Words
  import opened BufferChain
  import opened HomaHoles

  /** Where the payload starts in a frame, and the two bytes that a
      retransmission rewrites: the IP type of service and the retransmit flag. */
  const PAYLOAD_OFFSET: nat := 94
  const TOS_AT: nat := 15
  const RETRANSMIT_AT: nat := 72

  /** `memcpy` of the first `m` bytes over a stale frame, then the rewrites. */
  function Cloned(orig: seq<Byte>, stale: seq<Byte>, m: nat, prio: nat): seq<Byte>
    requires m <= |orig| && m <= |stale| && RETRANSMIT_AT < |stale|
  {
    (orig[..m] + stale[m..])[TOS_AT := (prio * 32) % 256][RETRANSMIT_AT := 1]
  }

  /** A retransmission of a frame, byte by byte: the first `m` bytes are the frame's,
      the others what the new buffer held before, except that the type of service is
      the priority shifted left by five bits and the retransmit flag is set. */
  ghost predicate IsClone(clone: seq<Byte>, orig: seq<Byte>, stale: seq<Byte>, m: nat, prio: nat) {
    && |clone| == |orig| == |stale| > RETRANSMIT_AT
    && clone[TOS_AT] == (prio * 32) % 256 && clone[RETRANSMIT_AT] == 1
    && (forall i :: 0 <= i < m && i < |clone| && i != TOS_AT && i != RETRANSMIT_AT ==> clone[i] == orig[i])
    && (forall i :: m <= i < |clone| && i != TOS_AT && i != RETRANSMIT_AT ==> clone[i] == stale[i])
  }

  lemma ClonedBytes(orig: seq<Byte>, stale: seq<Byte>, m: nat, prio: nat)
    requires m <= |orig| == |stale| && RETRANSMIT_AT < |stale|
    ensures IsClone(Cloned(orig, stale, m, prio), orig, stale, m, prio)
  {
  }

  /** A clone carries the first `len` bytes of the frame, but for the two rewritten
      ones, whatever the new buffer held before. */
  ghost predicate Carries(orig: seq<Byte>, len: nat, m: nat, prio: nat)
    requires RETRANSMIT_AT < m <= |orig| && len <= |orig|
  {
    forall stale: seq<Byte>, i: nat :: |stale| == |orig| && i < len && i != TOS_AT && i != RETRANSMIT_AT ==>
      Cloned(orig, stale, m, prio)[i] == orig[i]
  }

  /** It carries the whole frame exactly when all of it is copied. */
  lemma CloneCompleteness(orig: seq<Byte>, len: nat, m: nat, prio: nat)
    requires RETRANSMIT_AT < m <= |orig| && len <= |orig|
    ensures Carries(orig, len, m, prio) <==> len <= m
  {
    if len > m {
      var other: Byte := if orig[m] == 0 then 1 else 0;
      assert Cloned(orig, orig[m := other], m, prio)[m] == other;
    }
  }

  /** The copy is counted from the start of the frame, headers included: a
      packet of a whole-packet range is complete exactly when its payload is
      `PAYLOAD_OFFSET` bytes shorter than a full one. */
  lemma PacketSurvives(orig: seq<Byte>, payload: nat, mss: nat, prio: nat)
    requires RETRANSMIT_AT < mss && payload <= mss && PAYLOAD_OFFSET + mss <= |orig|
    ensures Carries(orig, PAYLOAD_OFFSET + payload, mss, prio) <==> payload <= mss - PAYLOAD_OFFSET
  {
    CloneCompleteness(orig, PAYLOAD_OFFSET + payload, mss, prio);
  }

  /** The request for an outgoing RPC asks for 100 bytes of packet 0: its clone is
      complete exactly when the payload is at most 6 bytes. */
  lemma OutgoingSurvives(orig: seq<Byte>, payload: nat, mss: nat, prio: nat)
    requires 100 <= mss <= |orig| && PAYLOAD_OFFSET + payload <= |orig|
    ensures var r := Resend(0, 100);
            && FirstSeq(r, mss) == LastSeq(r, mss) == 0
            && (Carries(orig, PAYLOAD_OFFSET + payload, Min(mss, r.length), prio) <==> payload <= 6)
  {
    DivModUnique(0, mss, 0, 0);
    DivModUnique(99, mss, 0, 99);
    CloneCompleteness(orig, PAYLOAD_OFFSET + payload, 100, prio);
  }

  /** The length left to send after `k` clones. */
  function LengthAfter(length: nat, mss: nat, k: nat): nat {
    if k == 0 then length
    else
      var l := LengthAfter(length, mss, k - 1);
      if l > mss then l - mss else l
  }

  /** A range of whole packets copies `mss` bytes of every frame. */
  lemma {:induction false} WholePackets(n: nat, mss: nat, k: nat)
    requires 0 < mss && k < n
    ensures LengthAfter(n * mss, mss, k) == (n - k) * mss
    ensures Min(mss, LengthAfter(n * mss, mss, k)) == mss
  {
    assert (n - k) * mss == mss + (n - k - 1) * mss;
    assert (n - k - 1) * mss >= 0;
    if k > 0 {
      WholePackets(n, mss, k - 1);
      assert (n - (k - 1)) * mss == mss + (n - k) * mss;
      MulAtLeast(mss, n - k);
      assert mss * (n - k) == (n - k) * mss;
    }
  }

  /** All these buffers exist and are of one size. */
  ghost predicate FramesOk(frames: map<nat, seq<Byte>>, addrs: seq<nat>, size: nat) {
    RETRANSMIT_AT < size && forall k :: 0 <= k < |addrs| ==> addrs[k] in frames && |frames[addrs[k]]| == size
  }

  /** Packets of a chain of `n` that the range `first .. last` names. */
  function Wanted(first: nat, last: nat, n: nat): nat {
    if first > last || first >= n then 0 else Min(last, n - 1) - first + 1
  }

  datatype ResendMeta = ResendMeta(origAddr: nat, addr: nat, len: nat, nrPkt: nat, prio: nat)

  /** The inputs of the walk over the chain: the packet range, the free buffers,
      and the memory before the walk. */
  datatype Task = Task(
    first: nat, last: nat, length: nat, mss: nat, prio: nat, free: seq<nat>,
    chain: seq<nat>, size: nat, next: map<nat, nat>, frames: map<nat, seq<Byte>>)

  /** The variables of the walk, with the memory it changes. */
  datatype Walk = Walk(
    next: map<nat, nat>, frames: map<nat, seq<Byte>>,
    addr: nat, seqNo: nat, length: nat, origTail: nat, tail: nat,
    used: nat, out: bool, rm: ResendMeta)

  ghost predicate TaskOk(t: Task) {
    && 0 < t.mss <= t.size
    && IsChain(t.next, t.chain) && t.chain != [] && Fresh(t.free, t.chain)
    && FramesOk(t.frames, t.chain, t.size) && FramesOk(t.frames, t.free, t.size)
  }

  function Start(t: Task): Walk
    requires t.chain != []
  {
    Walk(t.next, t.frames, t.chain[0], 0, t.length, POISON, POISON, 0, false, ResendMeta(t.chain[0], 0, 0, 0, t.prio))
  }

  /** The clone of the `k`-th packet of the range. */
  function CloneOf(t: Task, k: nat): seq<Byte>
    requires t.first + k < |t.chain| && k < |t.free|
    requires t.chain[t.first + k] in t.frames && t.free[k] in t.frames && RETRANSMIT_AT < t.size && t.mss <= t.size
    requires |t.frames[t.chain[t.first + k]]| == t.size == |t.frames[t.free[k]]|
  {
    Cloned(t.frames[t.chain[t.first + k]], t.frames[t.free[k]], Min(t.mss, LengthAfter(t.length, t.mss, k)), t.prio)
  }

  /** Clones that the buffers and the chain allow at most. */
  function MaxClones(t: Task): nat {
    if t.first >= |t.chain| then 0 else Min(|t.free|, |t.chain| - t.first)
  }

  /** `want` lists the clones of the range's packets. */
  ghost predicate WantOk(t: Task, want: seq<seq<Byte>>)
    requires TaskOk(t)
  {
    |want| == MaxClones(t) && forall k :: 0 <= k < |want| ==> want[k] == CloneOf(t, k)
  }

  ghost function Wanting(t: Task): (want: seq<seq<Byte>>)
    requires TaskOk(t)
    ensures WantOk(t, want)
  {
    seq(MaxClones(t), (k: nat) requires k < MaxClones(t) => CloneOf(t, k))
  }

  // ----- the invariant of the walk -----

  predicate Placed(t: Task, w: Walk) {
    var n := |t.chain|;
    && 0 <= w.seqNo <= n && w.used <= |t.free|
    && w.used == Wanted(t.first, t.last, w.seqNo)
    && (!w.out ==>
          && w.addr == (if w.seqNo < n then t.chain[w.seqNo] else POISON)
          && w.origTail == (if w.seqNo == n > 0 then t.chain[n - 1] else POISON))
    && (w.out ==>
          && w.used == |t.free| && t.first <= w.seqNo <= t.last && w.seqNo < n
          && w.origTail == (if w.seqNo == n - 1 then t.chain[n - 1] else POISON))
  }

  ghost predicate LinksOk(t: Task, next: map<nat, nat>, tail: nat, used: nat)
    requires used <= |t.free|
  {
    && IsChain(next, t.chain) && IsChain(next, t.free[..used])
    && tail == (if used == 0 then POISON else t.free[used - 1])
    && (used == 0 ==> next == t.next)
  }

  /** The clones hold the range's packets; no other frame has changed. */
  ghost predicate DataOk(t: Task, want: seq<seq<Byte>>, frames: map<nat, seq<Byte>>, used: nat)
    requires used <= |t.free| && used <= |want|
  {
    && (forall k :: 0 <= k < used ==> t.free[k] in frames && frames[t.free[k]] == want[k])
    && (forall a :: a in t.frames && a !in t.free[..used] ==> a in frames && frames[a] == t.frames[a])
  }

  predicate MetaOk(t: Task, length: nat, used: nat, rm: ResendMeta)
    requires t.chain != [] && used <= |t.free|
  {
    && length == LengthAfter(t.length, t.mss, used)
    && rm == (if used == 0 then ResendMeta(t.chain[0], 0, 0, 0, t.prio)
              else ResendMeta(t.chain[0], t.free[0], Min(t.mss, LengthAfter(t.length, t.mss, used - 1)), used, t.prio))
  }

  ghost predicate WalkOk(t: Task, w: Walk)
    requires TaskOk(t)
  {
    Placed(t, w) && LinksOk(t, w.next, w.tail, w.used) && MetaOk(t, w.length, w.used, w.rm)
  }

  ghost predicate CopiesOk(t: Task, want: seq<seq<Byte>>, w: Walk) {
    w.used <= |t.free| && w.used <= |want| && DataOk(t, want, w.frames, w.used)
  }

  lemma StartOk(t: Task, want: seq<seq<Byte>>)
    requires TaskOk(t)
    ensures WalkOk(t, Start(t)) && CopiesOk(t, want, Start(t))
  {
  }

  // ----- one step of the walk -----

  function Noted(w: Walk): Walk
    requires w.addr in w.next
  {
    if w.next[w.addr] == POISON then w.(origTail := w.addr) else w
  }

  /** A packet outside the range. */
  function Skip(w: Walk): Walk
    requires w.addr in w.next
  {
    Noted(w).(addr := w.next[w.addr], seqNo := w.seqNo + 1)
  }

  predicate Clonable(t: Task, w: Walk) {
    && w.addr in w.next && w.used < |t.free| && w.addr in w.frames && t.free[w.used] in w.frames
    && |w.frames[w.addr]| == |w.frames[t.free[w.used]]| == t.size > RETRANSMIT_AT
    && t.mss <= t.size && w.tail != t.free[w.used]
  }

  /** A packet inside the range, with a buffer to clone it into. */
  function CloneStep(t: Task, w: Walk): Walk
    requires Clonable(t, w)
  {
    var clone, m := t.free[w.used], Min(t.mss, w.length);
    Skip(w).(
      next := Linked(w.next, w.tail, clone),
      frames := w.frames[clone := Cloned(w.frames[w.addr], w.frames[clone], m, t.prio)],
      length := if w.length > t.mss then w.length - t.mss else w.length,
      tail := clone, used := w.used + 1,
      rm := w.rm.(addr := if w.used == 0 then clone else w.rm.addr, len := m, nrPkt := w.rm.nrPkt + 1))
  }

  /** The body of the loop over the chain. */
  function StepWalk(t: Task, w: Walk): Walk
    requires w.addr in w.next && (t.first <= w.seqNo <= t.last && w.used != |t.free| ==> Clonable(t, w))
  {
    if !(t.first <= w.seqNo <= t.last) then Skip(w)
    else if w.used == |t.free| then Noted(w).(out := true)
    else CloneStep(t, w)
  }

  lemma NotedAt(t: Task, w: Walk)
    requires TaskOk(t) && Placed(t, w) && LinksOk(t, w.next, w.tail, w.used) && !w.out && w.addr != POISON
    ensures w.seqNo < |t.chain| && w.addr == t.chain[w.seqNo] && w.addr in w.next
    ensures w.next[w.addr] == Successor(t.chain, w.seqNo)
    ensures Noted(w).origTail == (if w.seqNo + 1 == |t.chain| then t.chain[w.seqNo] else POISON)
  {
    assert w.seqNo < |t.chain| && w.addr == t.chain[w.seqNo];
    LinkAt(w.next, t.chain, w.seqNo);
    if w.seqNo + 1 < |t.chain| { LinkAt(w.next, t.chain, w.seqNo + 1); }
  }

  lemma SkipOk(t: Task, w: Walk)
    requires TaskOk(t) && WalkOk(t, w) && !w.out && w.addr != POISON && !(t.first <= w.seqNo <= t.last)
    ensures w.addr in w.next && WalkOk(t, Skip(w)) && Skip(w).seqNo <= |t.chain|
  {
    NotedAt(t, w);
  }

  lemma StopOk(t: Task, w: Walk)
    requires TaskOk(t) && WalkOk(t, w) && !w.out && w.addr != POISON
    requires t.first <= w.seqNo <= t.last && w.used == |t.free|
    ensures w.addr in w.next && WalkOk(t, Noted(w).(out := true))
  {
    NotedAt(t, w);
  }

  /** A packet of the range can be cloned: its frame and the new one are as they
      were at the start. */
  lemma CloneReady(t: Task, want: seq<seq<Byte>>, w: Walk)
    requires TaskOk(t) && Placed(t, w) && LinksOk(t, w.next, w.tail, w.used) && !w.out && w.addr != POISON
    requires t.first <= w.seqNo <= t.last && w.used < |t.free| && CopiesOk(t, want, w)
    ensures w.addr == t.chain[w.seqNo] && w.seqNo == t.first + w.used
    ensures Clonable(t, w) && w.frames[w.addr] == t.frames[w.addr]
    ensures w.frames[t.free[w.used]] == t.frames[t.free[w.used]]
  {
    NotedAt(t, w);
    assert w.addr !in t.free[..w.used];
    assert t.free[w.used] !in t.free[..w.used];
  }

  lemma ClonePlaced(t: Task, w: Walk)
    requires TaskOk(t) && Placed(t, w) && LinksOk(t, w.next, w.tail, w.used) && !w.out && w.addr != POISON
    requires t.first <= w.seqNo <= t.last && Clonable(t, w)
    ensures Placed(t, CloneStep(t, w))
  {
    NotedAt(t, w);
  }

  lemma CloneMeta(t: Task, w: Walk)
    requires t.chain != [] && Clonable(t, w) && MetaOk(t, w.length, w.used, w.rm)
    ensures var w' := CloneStep(t, w); MetaOk(t, w'.length, w'.used, w'.rm)
  {
  }

  lemma CloneLinks(t: Task, w: Walk)
    requires TaskOk(t) && w.used < |t.free| && LinksOk(t, w.next, w.tail, w.used)
    ensures LinksOk(t, Linked(w.next, w.tail, t.free[w.used]), t.free[w.used], w.used + 1)
  {
    var clone := t.free[w.used];
    var clones := t.free[..w.used];
    LinkExtendsChain(w.next, clones, clone);
    assert clones + [clone] == t.free[..w.used + 1];
    ChainFrame(w.next, Linked(w.next, w.tail, clone), t.chain);
  }

  lemma CloneData(t: Task, want: seq<seq<Byte>>, frames: map<nat, seq<Byte>>, used: nat)
    requires used < |t.free| && used < |want| && DataOk(t, want, frames, used)
    requires forall i, j :: 0 <= i < j < |t.free| ==> t.free[i] != t.free[j]
    ensures DataOk(t, want, frames[t.free[used] := want[used]], used + 1)
  {
    assert t.free[..used + 1] == t.free[..used] + [t.free[used]];
  }

  /** The bytes that the clone step writes are the wanted ones. */
  lemma ClonedAsWanted(t: Task, want: seq<seq<Byte>>, w: Walk)
    requires TaskOk(t) && WantOk(t, want) && Clonable(t, w) && w.used < |want|
    requires w.addr == t.chain[t.first + w.used] && w.length == LengthAfter(t.length, t.mss, w.used)
    requires w.frames[w.addr] == t.frames[w.addr] && w.frames[t.free[w.used]] == t.frames[t.free[w.used]]
    ensures CloneStep(t, w).frames == w.frames[t.free[w.used] := want[w.used]]
  {
    assert want[w.used] == CloneOf(t, w.used);
  }

  lemma CloneOk(t: Task, w: Walk)
    requires TaskOk(t) && WalkOk(t, w) && !w.out && w.addr != POISON
    requires t.first <= w.seqNo <= t.last && Clonable(t, w)
    ensures WalkOk(t, CloneStep(t, w))
  {
    CloneLinks(t, w);
    CloneMeta(t, w);
    ClonePlaced(t, w);
  }

  lemma ClonedData(t: Task, want: seq<seq<Byte>>, w: Walk)
    requires TaskOk(t) && WantOk(t, want) && Clonable(t, w) && w.used < |want|
    requires w.addr == t.chain[t.first + w.used] && w.length == LengthAfter(t.length, t.mss, w.used)
    requires w.frames[w.addr] == t.frames[w.addr] && w.frames[t.free[w.used]] == t.frames[t.free[w.used]]
    requires CopiesOk(t, want, w)
    ensures CopiesOk(t, want, CloneStep(t, w))
  {
    ClonedAsWanted(t, want, w);
    CloneData(t, want, w.frames, w.used);
  }

  /** One turn of the loop keeps places, links and the record right. */
  lemma StepOk(t: Task, want: seq<seq<Byte>>, w: Walk)
    requires TaskOk(t) && WalkOk(t, w) && CopiesOk(t, want, w) && !w.out && w.addr != POISON
    ensures w.addr in w.next && (t.first <= w.seqNo <= t.last && w.used != |t.free| ==> Clonable(t, w))
    ensures WalkOk(t, StepWalk(t, w))
    ensures StepWalk(t, w).out || w.seqNo < StepWalk(t, w).seqNo
  {
    if !(t.first <= w.seqNo <= t.last) {
      SkipOk(t, w);
    } else if w.used == |t.free| {
      StopOk(t, w);
    } else {
      CloneReady(t, want, w);
      CloneOk(t, w);
    }
  }

  lemma CloneCopies(t: Task, want: seq<seq<Byte>>, w: Walk)
    requires TaskOk(t) && WantOk(t, want) && WalkOk(t, w) && CopiesOk(t, want, w) && !w.out && w.addr != POISON
    requires t.first <= w.seqNo <= t.last && w.used < |t.free|
    ensures Clonable(t, w) && CopiesOk(t, want, CloneStep(t, w))
  {
    CloneReady(t, want, w);
    ClonedData(t, want, w);
  }

  /** It also keeps the copies right. */
  lemma StepCopies(t: Task, want: seq<seq<Byte>>, w: Walk)
    requires TaskOk(t) && WantOk(t, want) && WalkOk(t, w) && CopiesOk(t, want, w) && !w.out && w.addr != POISON
    requires w.addr in w.next && (t.first <= w.seqNo <= t.last && w.used != |t.free| ==> Clonable(t, w))
    ensures CopiesOk(t, want, StepWalk(t, w))
  {
    if t.first <= w.seqNo <= t.last && w.used != |t.free| {
      CloneCopies(t, want, w);
    } else {
      SkipCopies(t, want, w);
    }
  }

  lemma SkipCopies(t: Task, want: seq<seq<Byte>>, w: Walk)
    requires CopiesOk(t, want, w) && w.addr in w.next
    requires !(t.first <= w.seqNo <= t.last) || w.used == |t.free|
    ensures CopiesOk(t, want, StepWalk(t, w))
  {
  }

  /** The walk met the last buffer of the chain: either there were buffers for
      the whole range, or the walk stopped at the last buffer itself. */
  predicate TailSeen(first: nat, wanted: nat, free: nat, n: nat) {
    wanted <= free || first + free == n - 1
  }

  // ----- the end of the walk -----

  ghost predicate Ended(t: Task, want: seq<seq<Byte>>, w: Walk)
    requires TaskOk(t)
  {
    WalkOk(t, w) && CopiesOk(t, want, w) && (w.out || w.addr == POISON)
  }

  /** The links after the clones have been hung behind the noted tail. */
  function FinalLinks(w: Walk): map<nat, nat> {
    if w.used > 0 then w.next[w.origTail := w.rm.addr] else w.next
  }

  lemma EndPlaces(t: Task, want: seq<seq<Byte>>, w: Walk)
    requires TaskOk(t) && Ended(t, want, w)
    ensures var wanted := Wanted(t.first, t.last, |t.chain|);
            && w.used == Min(wanted, |t.free|)
            && (w.used > 0 ==>
                  (w.origTail == t.chain[|t.chain| - 1] <==> TailSeen(t.first, wanted, |t.free|, |t.chain|)))
            && (w.used > 0 ==> w.origTail == t.chain[|t.chain| - 1] || w.origTail == POISON)
  {
    var n := |t.chain|;
    if w.seqNo < n { LinkAt(t.next, t.chain, w.seqNo); }
    LinkAt(t.next, t.chain, n - 1);
  }

  /** The clones end up linked behind the message's chain, acyclic and in
      order, exactly when there is nothing to clone or the walk met the tail. */
  lemma ChainAfterwards(t: Task, want: seq<seq<Byte>>, w: Walk)
    requires TaskOk(t) && Ended(t, want, w)
    ensures var wanted, clones := Wanted(t.first, t.last, |t.chain|), t.free[..w.used];
            && IsChain(FinalLinks(w), clones)
            && (IsChain(FinalLinks(w), t.chain + clones) <==>
                  wanted == 0 || |t.free| == 0 || TailSeen(t.first, wanted, |t.free|, |t.chain|))
  {
    EndPlaces(t, want, w);
    var clones := t.free[..w.used];
    if w.used == 0 {
      assert t.chain + clones == t.chain;
    } else {
      JoinChains(w.next, t.chain, clones);
      StrayLink(w.next, t.chain, clones);
    }
  }

  class Umem {
    var next: map<nat, nat>
    var frames: map<nat, seq<Byte>>
    var retransmissionQueue: seq<ResendMeta>

    constructor (next: map<nat, nat>, frames: map<nat, seq<Byte>>)
      ensures this.next == next && this.frames == frames && retransmissionQueue == []
    {
      this.next, this.frames, retransmissionQueue := next, frames, [];
    }

    /** `prepare_retransmission` of a request `r` for a message whose buffers are
        `chain`. `free` are the buffers that the cache can still hand out. */
    method Prepare(r: Resend, prio: nat, head: nat, free: seq<nat>, mss: nat, ghost chain: seq<nat>, ghost size: nat)
      returns (ghost t: Task, ghost want: seq<seq<Byte>>, ghost w: Walk)
      requires r.Resend? && 0 < mss
      requires TaskOk(Task(FirstSeq(r, mss), LastSeq(r, mss), r.length, mss, prio, free, chain, size, next, frames))
      requires head == chain[0]
      modifies this
      ensures t == Task(FirstSeq(r, mss), LastSeq(r, mss), r.length, mss, prio, free,
                        chain, size, old(next), old(frames))
      ensures TaskOk(t) && WantOk(t, want) && Ended(t, want, w)
      ensures next == FinalLinks(w) && frames == w.frames
      ensures retransmissionQueue == old(retransmissionQueue) + (if w.used > 0 then [w.rm] else [])
    {
      var first, last := r.offset / mss, ((r.offset + r.length - 1) % U32) / mss;
      t := Task(first, last, r.length, mss, prio, free, chain, size, next, frames);
      var v := Walk(map[], map[], head, 0, r.length, POISON, POISON, 0, false, ResendMeta(head, 0, 0, 0, prio));
      want := Wanting(t);
      v, w := WalkChain(v, first, last, free, mss, prio, t, want);
      if v.used > 0 {
        next := next[v.origTail := v.rm.addr];
        retransmissionQueue := retransmissionQueue + [v.rm];
      }
    }

    /** The loop over the chain. */
    method WalkChain(v0: Walk, first: nat, last: nat, free: seq<nat>, mss: nat, prio: nat, ghost t: Task,
                     ghost want: seq<seq<Byte>>)
      returns (v: Walk, ghost w: Walk)
      requires t.first == first && t.last == last && t.free == free && t.mss == mss && t.prio == prio
      requires TaskOk(t) && WantOk(t, want) && v0.(next := next, frames := frames) == Start(t)
      modifies `next, `frames
      ensures Ended(t, want, w) && w == v.(next := next, frames := frames)
    {
      v, w := v0, Start(t);
      StartOk(t, want);
      while v.addr != POISON && !v.out
        invariant w == v.(next := next, frames := frames) && WalkOk(t, w) && CopiesOk(t, want, w)
        decreases |t.chain| - v.seqNo, !v.out
      {
        StepOk(t, want, w);
        StepCopies(t, want, w);
        v := Visit(v, first, last, free, mss, prio, t, w);
        w := StepWalk(t, w);
      }
    }

    /** One buffer of the chain; `v` holds the local variables of the walk. */
    method Visit(v: Walk, first: nat, last: nat, free: seq<nat>, mss: nat, prio: nat,
                 ghost t: Task, ghost w: Walk) returns (v': Walk)
      requires t.first == first && t.last == last && t.free == free && t.mss == mss && t.prio == prio
      requires w == v.(next := next, frames := frames)
      requires w.addr in w.next && (first <= v.seqNo <= last && v.used != |free| ==> Clonable(t, w))
      requires v.used <= |free|
      modifies `next, `frames
      ensures v'.(next := next, frames := frames) == StepWalk(t, w)
    {
      v' := v;
      var bufferNext := next[v.addr];
      if bufferNext == POISON {
        v' := v'.(origTail := v.addr);
      }
      if first <= v.seqNo <= last {
        if v.used == |free| {
          return v'.(out := true);
        }
        var clone := free[v.used];
        CloneOne(v.addr, clone, v.tail, Min(mss, v.length), prio);
        v' := v'.(tail := clone);
        if v.used == 0 {
          v' := v'.(rm := v'.rm.(addr := clone));
        }
        v' := v'.(rm := v'.rm.(len := Min(mss, v.length), nrPkt := v'.rm.nrPkt + 1));
        if v.length > mss {
          v' := v'.(length := v.length - mss);
        }
        v' := v'.(used := v.used + 1);
      }
      v' := v'.(addr := bufferNext, seqNo := v.seqNo + 1);
    }

    /** Take one buffer, link it behind `tail` and copy a packet into it. */
    method CloneOne(orig: nat, clone: nat, tail: nat, m: nat, prio: nat)
      requires orig in frames && clone in frames && |frames[orig]| == |frames[clone]| > RETRANSMIT_AT
      requires m <= |frames[orig]| && tail != clone
      modifies `next, `frames
      ensures next == Linked(old(next), tail, clone)
      ensures frames == old(frames)[clone := Cloned(old(frames)[orig], old(frames)[clone], m, prio)]
      ensures IsClone(frames[clone], old(frames)[orig], old(frames)[clone], m, prio)
    {
      if tail != POISON {
        next := next[tail := clone];
      }
      next := next[clone := POISON];
      var pkt := frames[orig][..m] + frames[clone][m..];
      pkt := pkt[TOS_AT := (prio * 32) % 256];
      pkt := pkt[RETRANSMIT_AT := 1];
      frames := frames[clone := pkt];
    }
  }

  /** Every packet of the range is copied `mss` bytes far. */
  ghost predicate FullLengths(length: nat, mss: nat, n: nat) {
    forall k: nat :: k < n ==> Min(mss, LengthAfter(length, mss, k)) == mss
  }

  lemma RangeIsLinked(s: nat, e: nat, t: Task, want: seq<seq<Byte>>, w: Walk)
    requires s <= e && t.first == s && t.last == e && FullLengths(t.length, t.mss, e - s + 1)
    requires TaskOk(t) && Ended(t, want, w) && e < |t.chain| && e - s < |t.free|
    ensures w.used == e - s + 1 <= |want|
    ensures IsChain(FinalLinks(w), t.chain + t.free[..e - s + 1])
    ensures w.rm == ResendMeta(t.chain[0], t.free[0], t.mss, e - s + 1, t.prio)
  {
    EndPlaces(t, want, w);
    ChainAfterwards(t, want, w);
  }

  lemma CopiedFully(t: Task, want: seq<seq<Byte>>, s: nat, k: nat)
    requires TaskOk(t) && WantOk(t, want) && k < |want| && t.first == s
    requires Min(t.mss, LengthAfter(t.length, t.mss, k)) == t.mss
    ensures IsClone(want[k], t.frames[t.chain[s + k]], t.frames[t.free[k]], t.mss, t.prio)
  {
    assert want[k] == CloneOf(t, k);
    ClonedBytes(t.frames[t.chain[s + k]], t.frames[t.free[k]], t.mss, t.prio);
  }

  /** The free buffers hold clones of the packets `s .. e`, in order, `mss` bytes of
      each, and no other frame has changed. */
  ghost predicate ClonesOf(t: Task, s: nat, e: nat, frames: map<nat, seq<Byte>>)
    requires TaskOk(t) && s <= e < |t.chain| && e - s < |t.free|
  {
    && (forall k :: 0 <= k <= e - s ==>
          && t.free[k] in frames
          && IsClone(frames[t.free[k]], t.frames[t.chain[s + k]], t.frames[t.free[k]], t.mss, t.prio))
    && (forall a :: a in t.frames && a !in t.free[..e - s + 1] ==> a in frames && frames[a] == t.frames[a])
  }

  /** A RESEND for a hole `s .. e`, answered with enough buffers for a chain
      that reaches packet `e`: exactly the packets `s .. e` are cloned, in
      order, `mss` bytes of each, and hang acyclic behind the chain. */
  lemma HoleIsRetransmitted(s: nat, e: nat, mss: nat, t: Task, want: seq<seq<Byte>>, w: Walk)
    requires s <= e && 0 < mss && (e + 1) * mss < U32
    requires var r := HoleRange(s, e, mss);
             t.mss == mss && t.first == FirstSeq(r, mss) && t.last == LastSeq(r, mss) && t.length == r.length
    requires TaskOk(t) && WantOk(t, want) && Ended(t, want, w) && e < |t.chain| && e - s < |t.free|
    ensures w.used == e - s + 1
    ensures IsChain(FinalLinks(w), t.chain + t.free[..e - s + 1])
    ensures w.rm == ResendMeta(t.chain[0], t.free[0], mss, e - s + 1, t.prio)
    ensures ClonesOf(t, s, e, w.frames)
  {
    RangeNamesHole(s, e, mss);
    HoleLengths(s, e, mss);
    RangeIsLinked(s, e, t, want, w);
    forall k | 0 <= k <= e - s
      ensures t.free[k] in w.frames
      ensures IsClone(w.frames[t.free[k]], t.frames[t.chain[s + k]], t.frames[t.free[k]], mss, t.prio)
    {
      CopiedFully(t, want, s, k);
    }
  }

  lemma HoleLengths(s: nat, e: nat, mss: nat)
    requires s <= e && 0 < mss
    ensures FullLengths(HoleRange(s, e, mss).length, mss, e - s + 1)
  {
    forall k: nat | k < e - s + 1 ensures Min(mss, LengthAfter(HoleRange(s, e, mss).length, mss, k)) == mss {
      WholePackets(e - s + 1, mss, k);
    }
  }

  /** The request built from a bitmap, answered by the sender: with buffers for a
      chain that is long enough, the first hole's packets are cloned and hang
      behind the chain; without a hole nothing happens. */
  method AnswerHole(u: Umem, phase: RpcPhase, bitmap: Bitmap, bitWidth: nat, mss: nat,
                    head: nat, free: seq<nat>, ghost chain: seq<nat>, ghost size: nat)
    returns (r: Resend, prio: nat, ghost s: nat, ghost e: nat)
    requires !phase.Outgoing? && 0 < mss && BITS * mss < U32
    requires TaskOk(Task(0, 0, 0, mss, MAX_PRIORITIES - 1, free, chain, size, u.next, u.frames)) && head == chain[0]
    requires ScanWidth(bitWidth) <= |chain| && ScanWidth(bitWidth) <= |free|
    modifies u
    ensures prio == MAX_PRIORITIES - 1
    ensures r.NoResend? <==> AllReceived(bitmap, 0, ScanWidth(bitWidth))
    ensures r.NoResend? ==> u.next == old(u.next) && u.frames == old(u.frames)
    ensures r.Resend? ==>
              && FirstHole(bitmap, ScanWidth(bitWidth), s, e) && r == HoleRange(s, e, mss)
              && IsChain(u.next, chain + free[..e - s + 1])
              && ClonesOf(Task(0, 0, 0, mss, prio, free, chain, size, old(u.next), old(u.frames)), s, e, u.frames)
              && u.retransmissionQueue
                 == old(u.retransmissionQueue) + [ResendMeta(chain[0], free[0], mss, e - s + 1, prio)]
  {
    s, e := 0, 0;
    r, prio := GetResendRange(phase, bitmap, bitWidth, mss);
    if r.Resend? {
      s, e := HoleOf(r, bitmap, ScanWidth(bitWidth), mss);
      HoleFits(s, e, mss);
      AnswerRange(u, r, s, e, mss, prio, head, free, chain, size);
    }
  }

  method AnswerRange(u: Umem, r: Resend, ghost s: nat, ghost e: nat, mss: nat, prio: nat,
                     head: nat, free: seq<nat>, ghost chain: seq<nat>, ghost size: nat)
    requires s <= e && r == HoleRange(s, e, mss) && 0 < mss && (e + 1) * mss < U32
    requires TaskOk(Task(0, 0, 0, mss, prio, free, chain, size, u.next, u.frames)) && head == chain[0]
    requires e < |chain| && e - s < |free|
    modifies u
    ensures IsChain(u.next, chain + free[..e - s + 1])
    ensures u.retransmissionQueue
         == old(u.retransmissionQueue) + [ResendMeta(chain[0], free[0], mss, e - s + 1, prio)]
    ensures ClonesOf(Task(0, 0, 0, mss, prio, free, chain, size, old(u.next), old(u.frames)), s, e, u.frames)
  {
    var t, want, w := u.Prepare(r, prio, head, free, mss, chain, size);
    HoleIsRetransmitted(s, e, mss, t, want, w);
  }

  lemma HoleOf(r: Resend, bitmap: Bitmap, w: nat, mss: nat) returns (s: nat, e: nat)
    requires w <= BITS && AsksForFirstHole(r, bitmap, w, mss)
    ensures FirstHole(bitmap, w, s, e) && r == HoleRange(s, e, mss)
  {
    s, e :| FirstHole(bitmap, w, s, e) && r == HoleRange(s, e, mss);
  }

  lemma HoleFits(s: nat, e: nat, mss: nat)
    requires s <= e < BITS && 0 < mss && BITS * mss < U32
    ensures (e + 1) * mss < U32
  {
    MulAtMost(e + 1, BITS, mss);
  }

  lemma {:induction false} MulAtMost(a: nat, b: nat, c: nat)
    requires a <= b
    ensures a * c <= b * c
  {
    if a < b {
      MulAtMost(a, b - 1, c);
      assert b * c == (b - 1) * c + c;
    }
  }

  /** A chain of three packets, all requested, and one free buffer: the clone is
      queued, but the chain still ends where it did. */
  method TooFewBuffers() returns (u: Umem)
    ensures 3 in u.next && u.next[3] == POISON && IsChain(u.next, [4]) && !IsChain(u.next, [1, 2, 3] + [4])
    ensures u.retransmissionQueue == [ResendMeta(1, 4, 100, 1, 0)]
  {
    var frame: seq<Byte> := seq(100, _ => 0);
    u := new Umem(map[1 := 2, 2 := 3, 3 := POISON], map[1 := frame, 2 := frame, 3 := frame, 4 := frame]);
    var chain, free := [1, 2, 3], [4];
    ThreeInAChain(u.next);
    var t, want, w := u.Prepare(Resend(0, 300), 0, 1, free, 100, chain, 100);
    assert t.first == 0 && t.last == 2;
    EndPlaces(t, want, w);
    ChainAfterwards(t, want, w);
    assert free[..1] == free;
    LinkAt(w.next, chain, 2);
  }

  lemma ThreeInAChain(next: map<nat, nat>)
    requires next == map[1 := 2, 2 := 3, 3 := POISON]
    ensures IsChain(next, [1, 2, 3])
  {
    assert [1, 2, 3][1..] == [2, 3] && [2, 3][1..] == [3] && [3][1..] == [];
    assert IsChain(next, [3]);
    assert IsChain(next, [2, 3]);
  }
}
