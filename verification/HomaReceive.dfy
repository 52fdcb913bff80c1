/** Reassembly of multi-packet messages from packets in any order. */
module HomaReceive {
  import opened Basics
  import opened Words
  import opened HomaSegments

  /** A message buffer being filled and the packets it still waits for. */
  datatype Assembly = Assembly(buf: seq<Byte>, count: nat)

  /** One packet of a multi-packet message: the new assembly state and, on the
      last packet, the finished buffer. `alloc` is the buffer that the pool
      hands out for the first packet, with whatever bytes it holds. */
  function Receive(st: Option<Assembly>, p: Packet, alloc: seq<Byte>, mss: nat): (Option<Assembly>, Option<seq<Byte>>)
    requires 0 < mss < p.messageLength
    requires p.offset + |p.payload| <= |if st.Some? then st.value.buf else alloc|
  {
    if st.None? then
      (Some(Assembly(CopyAt(alloc, p.offset, p.payload), NumPackets(p.messageLength, mss) - 1)), None)
    else
      var buf := CopyAt(st.value.buf, p.offset, p.payload);
      var count := (st.value.count - 1) % U32;
      if count == 0 then (None, Some(buf)) else (Some(Assembly(buf, count)), None)
  }

  // ----- the buffer of one message -----

  /** The bytes of the packets in `got` are in place. */
  ghost predicate Filled(buf: seq<Byte>, msg: seq<Byte>, mss: nat, got: set<nat>)
    requires |msg| <= |buf|
  {
    forall i: nat :: i in got ==> InPlace(buf, msg, mss, i)
  }

  predicate InPlace(buf: seq<Byte>, msg: seq<Byte>, mss: nat, i: nat)
    requires |msg| <= |buf|
  {
    buf[Cut(|msg|, mss, i)..Cut(|msg|, mss, i + 1)] == Payload(msg, mss, i)
  }

  lemma CopyKeepsSlice(buf: seq<Byte>, at: nat, data: seq<Byte>, lo: nat, hi: nat)
    requires at + |data| <= |buf| && lo <= hi <= |buf| && (hi <= at || at + |data| <= lo)
    ensures CopyAt(buf, at, data)[lo..hi] == buf[lo..hi]
  {
  }

  /** Copying packet `i` into the buffer puts its bytes in place, and moves no
      other packet's. */
  lemma CopyFills(buf: seq<Byte>, msg: seq<Byte>, mss: nat, got: set<nat>, i: nat)
    requires |msg| <= |buf| && Filled(buf, msg, mss, got)
    ensures Cut(|msg|, mss, i) + |Payload(msg, mss, i)| <= |msg|
    ensures Filled(CopyAt(buf, Cut(|msg|, mss, i), Payload(msg, mss, i)), msg, mss, got + {i})
  {
    var at, data := Cut(|msg|, mss, i), Payload(msg, mss, i);
    var after := CopyAt(buf, at, data);
    forall j: nat | j in got + {i} ensures InPlace(after, msg, mss, j) {
      if j == i {
        assert after[at..at + |data|] == data;
      } else {
        assert InPlace(buf, msg, mss, j);
        CutMonotone(|msg|, mss, if j < i then j + 1 else i + 1, if j < i then i else j);
        CopyKeepsSlice(buf, at, data, Cut(|msg|, mss, j), Cut(|msg|, mss, j + 1));
      }
    }
  }

  lemma {:induction false} PrefixFilled(buf: seq<Byte>, msg: seq<Byte>, mss: nat, got: set<nat>, k: nat)
    requires |msg| <= |buf| && Filled(buf, msg, mss, got)
    requires forall i: nat :: i < k ==> i in got
    ensures buf[..Cut(|msg|, mss, k)] == msg[..Cut(|msg|, mss, k)]
  {
    if k > 0 {
      PrefixFilled(buf, msg, mss, got, k - 1);
      assert InPlace(buf, msg, mss, k - 1);
      var a, b := Cut(|msg|, mss, k - 1), Cut(|msg|, mss, k);
      assert buf[..b] == buf[..a] + buf[a..b] && msg[..b] == msg[..a] + msg[a..b];
    }
  }

  lemma AllFilled(buf: seq<Byte>, msg: seq<Byte>, mss: nat, got: set<nat>)
    requires 0 < mss && |msg| <= |buf| && Filled(buf, msg, mss, got)
    requires forall i: nat :: i < NumPackets(|msg|, mss) ==> i in got
    ensures buf[..|msg|] == msg
  {
    var n := NumPackets(|msg|, mss);
    PrefixFilled(buf, msg, mss, got, n);
    CutsEnd(|msg|, mss, n);
  }

  /** A buffer after the packets `ps` have been copied into it, one after the
      other, repeats included. */
  function Overlay(buf: seq<Byte>, msg: seq<Byte>, mss: nat, ps: seq<nat>): (r: seq<Byte>)
    requires |msg| <= |buf|
    ensures |r| == |buf|
  {
    if ps == [] then buf
    else
      var i := ps[|ps| - 1];
      CutMonotone(|msg|, mss, i, i + 1);
      CopyAt(Overlay(buf, msg, mss, ps[..|ps| - 1]), Cut(|msg|, mss, i), Payload(msg, mss, i))
  }

  lemma OverlaySnoc(buf: seq<Byte>, msg: seq<Byte>, mss: nat, ps: seq<nat>, i: nat)
    requires |msg| <= |buf|
    ensures Cut(|msg|, mss, i) + |Payload(msg, mss, i)| <= |msg|
    ensures Overlay(buf, msg, mss, ps + [i])
         == CopyAt(Overlay(buf, msg, mss, ps), Cut(|msg|, mss, i), Payload(msg, mss, i))
  {
    CutMonotone(|msg|, mss, i, i + 1);
    assert (ps + [i])[..|ps|] == ps;
  }

  /** The packet numbers in a list. */
  function Numbers(ps: seq<nat>): set<nat> {
    if ps == [] then {} else Numbers(ps[..|ps| - 1]) + {ps[|ps| - 1]}
  }

  ghost predicate Below(ps: seq<nat>, n: nat) {
    forall j :: 0 <= j < |ps| ==> ps[j] < n
  }

  ghost predicate Distinct(ps: seq<nat>) {
    forall j, k :: 0 <= j < k < |ps| ==> ps[j] != ps[k]
  }

  /** Every packet number below `n` is there. */
  ghost predicate Complete(got: set<nat>, n: nat) {
    forall i: nat :: i < n ==> i in got
  }

  lemma {:induction false} NumbersBelow(ps: seq<nat>, n: nat)
    requires Below(ps, n)
    ensures forall i :: i in Numbers(ps) ==> i < n
  {
    if ps != [] {
      NumbersBelow(ps[..|ps| - 1], n);
    }
  }

  lemma {:induction false} NumbersMember(ps: seq<nat>, j: nat)
    requires j < |ps|
    ensures ps[j] in Numbers(ps)
  {
    var m := |ps| - 1;
    if j < m {
      assert ps[..m][j] == ps[j];
      NumbersMember(ps[..m], j);
    }
  }

  lemma {:induction false} NumbersIndex(ps: seq<nat>, i: nat) returns (j: nat)
    requires i in Numbers(ps)
    ensures j < |ps| && ps[j] == i
  {
    var m := |ps| - 1;
    if ps[m] == i {
      j := m;
    } else {
      j := NumbersIndex(ps[..m], i);
    }
  }

  /** A list has as many numbers as entries exactly when it does not repeat. */
  lemma {:induction false} CountDistinct(ps: seq<nat>)
    ensures |Numbers(ps)| <= |ps|
    ensures |Numbers(ps)| == |ps| <==> Distinct(ps)
  {
    if ps != [] {
      var m := |ps| - 1;
      var front, last := ps[..m], ps[m];
      CountDistinct(front);
      LastIsNew(ps);
      assert last !in Numbers(front) ==> |Numbers(ps)| == |Numbers(front)| + 1;
      assert last in Numbers(front) ==> Numbers(ps) == Numbers(front);
    }
  }

  lemma LastIsNew(ps: seq<nat>)
    requires ps != []
    ensures Distinct(ps) <==> Distinct(ps[..|ps| - 1]) && ps[|ps| - 1] !in Numbers(ps[..|ps| - 1])
  {
    var m := |ps| - 1;
    var front := ps[..m];
    if ps[m] in Numbers(front) {
      var j := NumbersIndex(front, ps[m]);
      assert ps[j] == ps[m];
    } else {
      forall j | 0 <= j < m ensures ps[j] != ps[m] {
        NumbersMember(front, j);
        assert front[j] == ps[j];
      }
    }
    assert Distinct(ps) ==> forall j, k :: 0 <= j < k < m ==> front[j] == ps[j] && front[k] == ps[k];
    assert Distinct(front) ==> forall j, k :: 0 <= j < k < m ==> ps[j] == front[j] != front[k] == ps[k];
  }

  lemma {:induction false} AllBelow(s: set<nat>, n: nat)
    requires forall i :: i in s ==> i < n
    ensures |s| <= n
    ensures |s| == n ==> forall i: nat :: i < n ==> i in s
  {
    if n > 0 {
      AllBelow(s - {n - 1}, n - 1);
    } else {
      assert s == {};
    }
  }

  lemma {:induction false} CountAll(s: set<nat>, n: nat)
    requires forall i: nat :: i < n ==> i in s
    ensures |s| >= n
  {
    if n > 0 {
      CountAll(s - {n - 1}, n - 1);
    }
  }

  /** As many packets as the message has are all of them exactly when they do not
      repeat. */
  lemma CompleteIffDistinct(ps: seq<nat>, n: nat)
    requires Below(ps, n) && |ps| == n
    ensures Complete(Numbers(ps), n) <==> Distinct(ps)
  {
    NumbersBelow(ps, n);
    CountDistinct(ps);
    AllBelow(Numbers(ps), n);
    if Complete(Numbers(ps), n) {
      CountAll(Numbers(ps), n);
    }
  }

  lemma {:induction false} OverlayFills(buf: seq<Byte>, msg: seq<Byte>, mss: nat, ps: seq<nat>)
    requires |msg| <= |buf|
    ensures Filled(Overlay(buf, msg, mss, ps), msg, mss, Numbers(ps))
  {
    if ps != [] {
      var m := |ps| - 1;
      OverlayFills(buf, msg, mss, ps[..m]);
      CopyFills(Overlay(buf, msg, mss, ps[..m]), msg, mss, Numbers(ps[..m]), ps[m]);
    }
  }

  /** A byte of a packet that is not in the list stays as it was. */
  lemma {:induction false} OverlayMisses(buf: seq<Byte>, msg: seq<Byte>, mss: nat, ps: seq<nat>, i: nat)
    requires |msg| <= |buf| && i !in Numbers(ps) && Cut(|msg|, mss, i) < Cut(|msg|, mss, i + 1)
    ensures Overlay(buf, msg, mss, ps)[Cut(|msg|, mss, i)] == buf[Cut(|msg|, mss, i)]
  {
    if ps != [] {
      var m := |ps| - 1;
      var before, j := Overlay(buf, msg, mss, ps[..m]), ps[m];
      OverlayMisses(buf, msg, mss, ps[..m], i);
      CutMonotone(|msg|, mss, j, j + 1);
      CutMonotone(|msg|, mss, if j < i then j + 1 else i + 1, if j < i then i else j);
      CopyKeepsByte(before, Cut(|msg|, mss, j), Payload(msg, mss, j), Cut(|msg|, mss, i));
    }
  }

  lemma CopyKeepsByte(buf: seq<Byte>, at: nat, data: seq<Byte>, k: nat)
    requires at + |data| <= |buf| && k < |buf| && (k < at || at + |data| <= k)
    ensures CopyAt(buf, at, data)[k] == buf[k]
  {
  }

  /** The packets make up the message, whatever a buffer of that size held. */
  ghost predicate Delivers(msg: seq<Byte>, mss: nat, ps: seq<nat>, size: nat)
    requires |msg| <= size
  {
    forall alloc: seq<Byte> :: |alloc| == size ==> Overlay(alloc, msg, mss, ps)[..|msg|] == msg
  }

  /** They do exactly when none is missing. */
  lemma DeliversIff(msg: seq<Byte>, mss: nat, ps: seq<nat>, size: nat)
    requires 0 < mss && |msg| <= size
    ensures Delivers(msg, mss, ps, size) <==> Complete(Numbers(ps), NumPackets(|msg|, mss))
  {
    if Complete(Numbers(ps), NumPackets(|msg|, mss)) {
      forall alloc: seq<Byte> | |alloc| == size
        ensures Overlay(alloc, msg, mss, ps)[..|msg|] == msg
      {
        OverlayFills(alloc, msg, mss, ps);
        AllFilled(Overlay(alloc, msg, mss, ps), msg, mss, Numbers(ps));
      }
    } else {
      var i: nat :| i < NumPackets(|msg|, mss) && i !in Numbers(ps);
      MissingShows(msg, mss, ps, size, i);
    }
  }

  lemma MissingShows(msg: seq<Byte>, mss: nat, ps: seq<nat>, size: nat, i: nat)
    requires 0 < mss && |msg| <= size && i < NumPackets(|msg|, mss) && i !in Numbers(ps)
    ensures !Delivers(msg, mss, ps, size)
  {
    CutsEnd(|msg|, mss, i);
    var at := Cut(|msg|, mss, i);
    var other: Byte := if msg[at] == 0 then 1 else 0;
    var alloc: seq<Byte> := seq(size, _ => other);
    OverlayMisses(alloc, msg, mss, ps, i);
    assert Overlay(alloc, msg, mss, ps)[..|msg|][at] == other;
  }

  /** As many packets as the message has make it up exactly when they are
      distinct. */
  lemma DeliversIffDistinct(msg: seq<Byte>, mss: nat, ps: seq<nat>, size: nat)
    requires 0 < mss && |msg| <= size && Below(ps, NumPackets(|msg|, mss)) && |ps| == NumPackets(|msg|, mss)
    ensures Delivers(msg, mss, ps, size) <==> Distinct(ps)
  {
    DeliversIff(msg, mss, ps, size);
    CompleteIffDistinct(ps, |ps|);
  }

  // ----- receiving one message -----

  /** The buffer the pool hands out holds at least the message. */
  predicate Roomy(alloc: seq<Byte>, msg: seq<Byte>) {
    |msg| <= |alloc|
  }

  lemma {:induction false} AtLeastTwo(len: nat, mss: nat)
    requires 0 < mss < len
    ensures 2 <= NumPackets(len, mss) <= len
  {
    if len - mss > mss {
      AtLeastTwo(len - mss, mss);
    }
  }

  /** The assembly state after the packets `ps`, the first of which was given the
      buffer `alloc`. */
  function Open(alloc: seq<Byte>, msg: seq<Byte>, mss: nat, ps: seq<nat>): Option<Assembly>
    requires mss > 0 && Roomy(alloc, msg) && (ps == [] || |ps| < NumPackets(|msg|, mss))
  {
    if ps == [] then None else Some(Assembly(Overlay(alloc, msg, mss, ps), NumPackets(|msg|, mss) - |ps|))
  }

  /** One more packet, new or not: only the number of packets decides when the
      message is handed over. `alloc` is the buffer of the first packet. */
  lemma ReceiveOne(msg: seq<Byte>, mss: nat, ps: seq<nat>, i: nat, first: seq<Byte>, alloc: seq<Byte>)
    requires 0 < mss < |msg| < U32 && i < NumPackets(|msg|, mss) && |ps| < NumPackets(|msg|, mss)
    requires Roomy(first, msg) && Roomy(alloc, msg) && (ps == [] ==> first == alloc)
    ensures var st := Open(first, msg, mss, ps);
            Cut(|msg|, mss, i) + |Payload(msg, mss, i)| <= |if st.Some? then st.value.buf else alloc|
    ensures Receive(Open(first, msg, mss, ps), PacketOf(msg, mss, i), alloc, mss)
         == if |ps| + 1 == NumPackets(|msg|, mss) then (None, Some(Overlay(first, msg, mss, ps + [i])))
            else (Open(first, msg, mss, ps + [i]), None)
  {
    AtLeastTwo(|msg|, mss);
    OverlaySnoc(first, msg, mss, ps, i);
    if ps != [] {
      CountDown(Open(first, msg, mss, ps).value, PacketOf(msg, mss, i), alloc, mss);
    }
  }

  /** What a packet does to an open message. */
  lemma CountDown(asm: Assembly, p: Packet, alloc: seq<Byte>, mss: nat)
    requires 0 < mss < p.messageLength && p.offset + |p.payload| <= |asm.buf| && 0 < asm.count < U32
    ensures var buf := CopyAt(asm.buf, p.offset, p.payload);
            Receive(Some(asm), p, alloc, mss) ==
            if asm.count == 1 then (None, Some(buf)) else (Some(Assembly(buf, asm.count - 1)), None)
  {
  }

  /** The packets `ps` of one message from the start, and what each hands over. */
  ghost predicate ReceiveRun(msg: seq<Byte>, mss: nat, ps: seq<nat>, alloc: seq<Byte>,
                             states: seq<Option<Assembly>>, done: seq<Option<seq<Byte>>>)
    requires 0 < mss < |msg| && Roomy(alloc, msg)
  {
    && |states| == |ps| + 1 && |done| == |ps| && states[0] == None
    && forall t :: 0 <= t < |ps| ==> Received(msg, mss, ps[t], alloc, states[t], states[t + 1], done[t])
  }

  predicate Received(msg: seq<Byte>, mss: nat, i: nat, alloc: seq<Byte>,
                     st: Option<Assembly>, st': Option<Assembly>, done: Option<seq<Byte>>)
    requires 0 < mss < |msg|
  {
    var p := PacketOf(msg, mss, i);
    && p.offset + |p.payload| <= |if st.Some? then st.value.buf else alloc|
    && Receive(st, p, alloc, mss) == (st', done)
  }

  lemma {:induction false} RunOpens(msg: seq<Byte>, mss: nat, ps: seq<nat>, alloc: seq<Byte>,
                                    states: seq<Option<Assembly>>, done: seq<Option<seq<Byte>>>, t: nat)
    requires 0 < mss < |msg| < U32 && Roomy(alloc, msg) && Below(ps, NumPackets(|msg|, mss))
    requires ReceiveRun(msg, mss, ps, alloc, states, done)
    requires t <= |ps| && t < NumPackets(|msg|, mss)
    ensures states[t] == Open(alloc, msg, mss, ps[..t])
  {
    if t > 0 {
      var s := t - 1;
      RunOpens(msg, mss, ps, alloc, states, done, s);
      assert Received(msg, mss, ps[s], alloc, states[s], states[s + 1], done[s]);
      ReceiveOne(msg, mss, ps[..s], ps[s], alloc, alloc);
      assert ps[..t] == ps[..s] + [ps[s]];
    }
  }

  /** Of the packets of a message, repeats included, exactly the one that brings
      their number to that of the message hands it over; what it hands over is
      the message, whatever the buffer held before, exactly when they are distinct. */
  lemma CompletesExactly(msg: seq<Byte>, mss: nat, ps: seq<nat>, alloc: seq<Byte>,
                         states: seq<Option<Assembly>>, done: seq<Option<seq<Byte>>>, t: nat)
    requires 0 < mss < |msg| < U32 && Roomy(alloc, msg) && Below(ps, NumPackets(|msg|, mss))
    requires ReceiveRun(msg, mss, ps, alloc, states, done)
    requires t < |ps| <= NumPackets(|msg|, mss)
    ensures done[t].Some? <==> t + 1 == NumPackets(|msg|, mss)
    ensures done[t].Some? ==> done[t].value == Overlay(alloc, msg, mss, ps)
    ensures |ps| == NumPackets(|msg|, mss) ==> (Delivers(msg, mss, ps, |alloc|) <==> Distinct(ps))
  {
    RunOpens(msg, mss, ps, alloc, states, done, t);
    assert Received(msg, mss, ps[t], alloc, states[t], states[t + 1], done[t]);
    ReceiveOne(msg, mss, ps[..t], ps[t], alloc, alloc);
    if |ps| == NumPackets(|msg|, mss) {
      assert t + 1 == |ps| ==> ps[..t] + [ps[t]] == ps;
      DeliversIffDistinct(msg, mss, ps, |alloc|);
    }
  }

  /** A packet that arrives twice completes a two-packet message whose second
      half never arrived. */
  lemma RepeatCompletesEarly()
    ensures var msg: seq<Byte> := [7, 8, 9];
            var zero: seq<Byte> := [0, 0, 0, 0];
            var p := PacketOf(msg, 2, 0);
            && NumPackets(|msg|, 2) == 2
            && p.offset + |p.payload| <= 4
            && Receive(Receive(None, p, zero, 2).0, p, zero, 2).1 == Some([7, 8, 0, 0])
  {
    var msg: seq<Byte> := [7, 8, 9];
    var zero: seq<Byte> := [0, 0, 0, 0];
    var p := PacketOf(msg, 2, 0);
    assert p.payload == [7, 8] && p.offset == 0;
    assert CopyAt(zero, 0, p.payload) == [7, 8, 0, 0];
    assert CopyAt([7, 8, 0, 0], 0, p.payload) == [7, 8, 0, 0];
  }

  // ----- responses -----

  /** The client side: one request slot, reused for the response. A buffer whose
      actual size is 0 means that no packet of the response has arrived. */
  class ClientSlot {
    const mss: nat
    var actualSize: nat
    var buf: seq<Byte>
    var recvCount: nat

    constructor (mss: nat)
      ensures this.mss == mss && View() == None
    {
      this.mss := mss;
      actualSize, buf, recvCount := 0, [], 0;
    }

    function View(): Option<Assembly>
      reads this
    {
      if actualSize == 0 then None else Some(Assembly(buf, recvCount))
    }

    /** `client_response`: the same assembly as the server's, on the slot. */
    method ClientResponse(p: Packet, alloc: seq<Byte>) returns (done: Option<seq<Byte>>)
      requires mss > 0
      requires if p.messageLength <= mss then p.messageLength <= |p.payload|
               else p.offset + |p.payload| <= |if actualSize == 0 then alloc else buf|
      modifies this
      ensures p.messageLength <= mss ==> done == Some(p.payload[..p.messageLength])
      ensures p.messageLength > mss ==>
                var (st, d) := Receive(old(View()), p, alloc, mss);
                done == d && (d.None? ==> View() == st)
      ensures done.Some? ==> buf == done.value
    {
      if p.messageLength <= mss {
        buf, actualSize := p.payload[..p.messageLength], p.messageLength;
        return Some(buf);
      }
      done := None;
      if actualSize == 0 {
        buf, actualSize := CopyAt(alloc, p.offset, p.payload), p.messageLength;
        NumPacketsIsCeiling(p.messageLength, mss);
        recvCount := (p.messageLength + mss - 1) / mss - 1;
      } else {
        buf := CopyAt(buf, p.offset, p.payload);
        recvCount := (recvCount - 1) % U32;
        if recvCount == 0 {
          done := Some(buf);
        }
      }
    }

    /** The packets of a response, in any order and with repeats: the slot hands it
        over on exactly one of them, and what it hands over is the response,
        whatever the pool's buffer held, exactly when the packets are distinct. */
    method Responses(msg: seq<Byte>, ps: seq<nat>, alloc: seq<Byte>) returns (done: seq<Option<seq<Byte>>>)
      requires 0 < mss < |msg| < U32 && View() == None && Roomy(alloc, msg)
      requires Below(ps, NumPackets(|msg|, mss)) && |ps| <= NumPackets(|msg|, mss)
      modifies this
      ensures |done| == |ps|
      ensures forall t :: 0 <= t < |ps| ==> (done[t].Some? <==> t + 1 == NumPackets(|msg|, mss))
      ensures |ps| == NumPackets(|msg|, mss) ==>
                && done[|ps| - 1] == Some(Overlay(alloc, msg, mss, ps))
                && (Delivers(msg, mss, ps, |alloc|) <==> Distinct(ps))
    {
      done := [];
      AtLeastTwo(|msg|, mss);
      ghost var n, got: seq<nat> := NumPackets(|msg|, mss), [];
      for t := 0 to |ps|
        invariant |done| == t && got == ps[..t] && (t < n ==> View() == Open(alloc, msg, mss, got))
        invariant forall s :: 0 <= s < t ==> (done[s].Some? <==> s + 1 == n)
        invariant t == n ==> done[t - 1] == Some(Overlay(alloc, msg, mss, got))
      {
        var d := OneResponse(msg, got, ps[t], alloc);
        done, got := done + [d], got + [ps[t]];
      }
      assert got == ps;
      if |ps| == n {
        DeliversIffDistinct(msg, mss, ps, |alloc|);
      }
    }

    method OneResponse(msg: seq<Byte>, ghost ps: seq<nat>, i: nat, alloc: seq<Byte>) returns (done: Option<seq<Byte>>)
      requires 0 < mss < |msg| < U32 && Roomy(alloc, msg)
      requires i < NumPackets(|msg|, mss) && |ps| < NumPackets(|msg|, mss)
      requires View() == Open(alloc, msg, mss, ps)
      modifies this
      ensures |ps| + 1 == NumPackets(|msg|, mss) ==> done == Some(Overlay(alloc, msg, mss, ps + [i]))
      ensures |ps| + 1 < NumPackets(|msg|, mss) ==> done == None && View() == Open(alloc, msg, mss, ps + [i])
    {
      ReceiveOne(msg, mss, ps, i, alloc, alloc);
      done := ClientResponse(PacketOf(msg, mss, i), alloc);
    }
  }
}
