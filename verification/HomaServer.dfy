/** The requests that arrive at a Homa server: messages of many clients, their
    packets interleaved. */
module HomaServer {
  import opened Basics
  import opened Words
  import opened HomaSegments
  import opened HomaReceive

  /** What identifies a request: remote address, remote port and RPC id. */
  datatype Key = Key(ip: nat, port: nat, rpcid: nat)

  function Lookup(handles: map<Key, Assembly>, key: Key): Option<Assembly> {
    if key in handles then Some(handles[key]) else None
  }

  function Store(handles: map<Key, Assembly>, key: Key, st: Option<Assembly>): map<Key, Assembly> {
    if st.Some? then handles[key := st.value] else handles - {key}
  }

  /** The receive buffers are large enough for the packet. */
  predicate Fits(handles: map<Key, Assembly>, key: Key, p: Packet, alloc: seq<Byte>, mss: nat) {
    if p.messageLength <= mss then p.messageLength <= |p.payload|
    else p.offset + |p.payload| <= |if key in handles then handles[key].buf else alloc|
  }

  /** `server_request` on the table of open requests. */
  function ServerStep(handles: map<Key, Assembly>, key: Key, p: Packet, alloc: seq<Byte>, mss: nat)
    : (map<Key, Assembly>, Option<seq<Byte>>)
    requires mss > 0 && Fits(handles, key, p, alloc, mss)
  {
    if p.messageLength <= mss then (handles, Some(p.payload[..p.messageLength]))
    else
      var (st, done) := Receive(Lookup(handles, key), p, alloc, mss);
      (Store(handles, key, st), done)
  }

  class RpcServer {
    const mss: nat
    var reqHandles: map<Key, Assembly>
    /** Requests passed to the application's handler, in order. */
    var handled: seq<(Key, seq<Byte>)>

    constructor (mss: nat)
      ensures this.mss == mss && reqHandles == map[] && handled == []
    {
      this.mss := mss;
      reqHandles, handled := map[], [];
    }

    method ServerRequest(key: Key, p: Packet, alloc: seq<Byte>)
      requires mss > 0 && Fits(reqHandles, key, p, alloc, mss)
      modifies this
      ensures var (handles, done) := ServerStep(old(reqHandles), key, p, alloc, mss);
              && reqHandles == handles
              && handled == old(handled) + (if done.Some? then [(key, done.value)] else [])
    {
      if p.messageLength <= mss {
        handled := handled + [(key, p.payload[..p.messageLength])];
      } else if key !in reqHandles {
        NumPacketsIsCeiling(p.messageLength, mss);
        var buf := CopyAt(alloc, p.offset, p.payload);
        reqHandles := reqHandles[key := Assembly(buf, (p.messageLength + mss - 1) / mss - 1)];
      } else {
        var h := reqHandles[key];
        h := h.(buf := CopyAt(h.buf, p.offset, p.payload));
        h := h.(count := (h.count - 1) % U32);
        reqHandles := reqHandles[key := h];
        if h.count == 0 {
          handled := handled + [(key, h.buf)];
          reqHandles := reqHandles - {key};
        }
      }
    }
  }

  // ----- runs -----

  /** A packet of some message arriving at the server, and the buffer that the pool
      would hand out for it. */
  datatype Arrival = Arrival(key: Key, i: nat, alloc: seq<Byte>)

  type Messages = map<Key, seq<Byte>>

  function PacketIn(a: Arrival, msgs: Messages, mss: nat): Packet
    requires a.key in msgs
  {
    PacketOf(msgs[a.key], mss, a.i)
  }

  predicate MessageOk(msg: seq<Byte>) { 0 < |msg| < U32 }

  predicate ArrivalOk(a: Arrival, msg: seq<Byte>, mss: nat)
    requires mss > 0
  {
    a.i < NumPackets(|msg|, mss) && Roomy(a.alloc, msg)
  }

  /** Every arrival is a packet of the message its key stands for. Messages
      interleave freely, and packets may repeat. */
  ghost predicate Deliveries(arrivals: seq<Arrival>, msgs: Messages, mss: nat)
    requires mss > 0
  {
    && (forall key :: key in msgs ==> MessageOk(msgs[key]))
    && (forall t :: 0 <= t < |arrivals| ==>
          arrivals[t].key in msgs && ArrivalOk(arrivals[t], msgs[arrivals[t].key], mss))
  }

  /** No packet arrives twice. */
  ghost predicate OnceEach(arrivals: seq<Arrival>) {
    forall s, t :: 0 <= s < t < |arrivals| ==>
      arrivals[s].key != arrivals[t].key || arrivals[s].i != arrivals[t].i
  }

  /** The arrivals of one message among the first `t`. */
  function Mine(arrivals: seq<Arrival>, t: nat, key: Key): seq<Arrival>
    requires t <= |arrivals|
  {
    if t == 0 then []
    else Mine(arrivals, t - 1, key) + (if arrivals[t - 1].key == key then [arrivals[t - 1]] else [])
  }

  function Nums(mine: seq<Arrival>): (ps: seq<nat>)
    ensures |ps| == |mine| && forall j :: 0 <= j < |ps| ==> ps[j] == mine[j].i
  {
    seq(|mine|, j requires 0 <= j < |mine| => mine[j].i)
  }

  /** The packets of `key` among the first `t` arrivals. */
  ghost function Got(arrivals: seq<Arrival>, t: nat, key: Key): set<nat>
    requires t <= |arrivals|
  {
    Numbers(Nums(Mine(arrivals, t, key)))
  }

  /** The arrivals since the message was last handed over, which happens at every
      `n`-th of them. */
  function Current(mine: seq<Arrival>, n: nat): (cur: seq<Arrival>)
    requires n > 0
    ensures |cur| < n && forall a :: a in cur ==> a in mine
  {
    if mine == [] then []
    else
      var cur := Current(mine[..|mine| - 1], n) + [mine[|mine| - 1]];
      if |cur| == n then [] else cur
  }

  /** They are the last of the message's arrivals, as many as the division by `n`
      leaves over. */
  lemma {:induction false} CurrentIsRemainder(mine: seq<Arrival>, n: nat)
    requires n > 0
    ensures |Current(mine, n)| == |mine| % n <= |mine|
    ensures Current(mine, n) == mine[|mine| - |mine| % n..]
  {
    if mine != [] {
      var m := |mine| - 1;
      CurrentIsRemainder(mine[..m], n);
      ModNext(m, n);
      assert mine == mine[..m] + [mine[m]];
    }
  }

  lemma ModNext(k: nat, n: nat)
    requires n > 0
    ensures k % n <= k
    ensures (k + 1) % n == if k % n + 1 == n then 0 else k % n + 1
  {
    var q, r := k / n, k % n;
    assert k == n * q + r;
    if r + 1 == n {
      assert n * (q + 1) == n * q + n;
      DivModUnique(k + 1, n, q + 1, 0);
    } else {
      DivModUnique(k + 1, n, q, r + 1);
    }
  }

  lemma CurrentGrows(mine: seq<Arrival>, a: Arrival, n: nat)
    requires n > 0
    ensures var cur := Current(mine, n) + [a];
            Current(mine + [a], n) == if |cur| == n then [] else cur
  {
    assert (mine + [a])[..|mine|] == mine;
  }

  /** The table's entry for a message: nothing, or the packets since it was last
      handed over in the buffer that the first of them was given. */
  ghost predicate EntryIs(st: Option<Assembly>, msg: seq<Byte>, mss: nat, cur: seq<Arrival>)
    requires mss > 0
  {
    if cur == [] then st == None
    else |cur| < NumPackets(|msg|, mss) && Roomy(cur[0].alloc, msg) && st == Open(cur[0].alloc, msg, mss, Nums(cur))
  }

  /** What the arrivals so far of a message make of it. */
  function Built(round: seq<Arrival>, msg: seq<Byte>, mss: nat): seq<Byte>
    requires round != [] && Roomy(round[0].alloc, msg)
  {
    Overlay(round[0].alloc, msg, mss, Nums(round))[..|msg|]
  }

  lemma OnePacket(msg: seq<Byte>, mss: nat)
    requires 0 < |msg| <= mss
    ensures NumPackets(|msg|, mss) == 1 && Payload(msg, mss, 0) == msg
  {
    assert Cut(|msg|, mss, 1) == |msg|;
  }

  /** What an arrival does to its message: it hands it over exactly if the packets
      since the last time are as many as the message has. */
  ghost predicate Outcome(handles: map<Key, Assembly>, a: Arrival, msg: seq<Byte>, mss: nat, cur: seq<Arrival>)
    requires mss > 0 && Fits(handles, a.key, PacketOf(msg, mss, a.i), a.alloc, mss)
    requires Roomy((cur + [a])[0].alloc, msg)
  {
    var (after, done) := ServerStep(handles, a.key, PacketOf(msg, mss, a.i), a.alloc, mss);
    if |cur| + 1 == NumPackets(|msg|, mss) then
      && EntryIs(Lookup(after, a.key), msg, mss, [])
      && done.Some? && |msg| <= |done.value| && done.value[..|msg|] == Built(cur + [a], msg, mss)
    else done == None && EntryIs(Lookup(after, a.key), msg, mss, cur + [a])
  }

  /** A message of one packet. */
  lemma SingleArrival(handles: map<Key, Assembly>, msg: seq<Byte>, mss: nat, a: Arrival)
    requires 0 < |msg| <= mss && ArrivalOk(a, msg, mss) && Lookup(handles, a.key) == None
    ensures Fits(handles, a.key, PacketOf(msg, mss, a.i), a.alloc, mss)
    ensures Outcome(handles, a, msg, mss, [])
  {
    OnePacket(msg, mss);
    OverlaySnoc(a.alloc, msg, mss, [], 0);
    assert Nums([] + [a]) == [] + [0];
    assert Built([] + [a], msg, mss) == msg;
  }

  /** A message of several packets. */
  lemma MultiArrival(handles: map<Key, Assembly>, msg: seq<Byte>, mss: nat, a: Arrival, cur: seq<Arrival>)
    requires 0 < mss < |msg| < U32 && ArrivalOk(a, msg, mss) && |cur| < NumPackets(|msg|, mss)
    requires EntryIs(Lookup(handles, a.key), msg, mss, cur)
    ensures Fits(handles, a.key, PacketOf(msg, mss, a.i), a.alloc, mss)
    ensures Roomy((cur + [a])[0].alloc, msg) && Outcome(handles, a, msg, mss, cur)
  {
    var first := (cur + [a])[0].alloc;
    ReceiveOne(msg, mss, Nums(cur), a.i, first, a.alloc);
    assert Nums(cur + [a]) == Nums(cur) + [a.i];
    assert cur == [] ==> Nums(cur) == [];
  }

  lemma AnyArrival(handles: map<Key, Assembly>, msg: seq<Byte>, mss: nat, a: Arrival, cur: seq<Arrival>)
    requires 0 < mss && MessageOk(msg) && ArrivalOk(a, msg, mss) && |cur| < NumPackets(|msg|, mss)
    requires EntryIs(Lookup(handles, a.key), msg, mss, cur)
    ensures Fits(handles, a.key, PacketOf(msg, mss, a.i), a.alloc, mss)
    ensures Roomy((cur + [a])[0].alloc, msg) && Outcome(handles, a, msg, mss, cur)
  {
    if |msg| <= mss {
      OnePacket(msg, mss);
      SingleArrival(handles, msg, mss, a);
    } else {
      MultiArrival(handles, msg, mss, a, cur);
    }
  }

  /** The arrivals of a message since it was last handed over. */
  ghost function Since(arrivals: seq<Arrival>, msgs: Messages, mss: nat, t: nat, key: Key): seq<Arrival>
    requires mss > 0 && t <= |arrivals| && key in msgs && MessageOk(msgs[key])
  {
    Current(Mine(arrivals, t, key), NumPackets(|msgs[key]|, mss))
  }

  lemma SinceGrows(arrivals: seq<Arrival>, msgs: Messages, mss: nat, t: nat, key: Key)
    requires mss > 0 && t < |arrivals| && key in msgs && MessageOk(msgs[key])
    ensures arrivals[t].key != key ==> Since(arrivals, msgs, mss, t + 1, key) == Since(arrivals, msgs, mss, t, key)
    ensures arrivals[t].key == key ==>
              var cur := Since(arrivals, msgs, mss, t, key) + [arrivals[t]];
              Since(arrivals, msgs, mss, t + 1, key) == if |cur| == NumPackets(|msgs[key]|, mss) then [] else cur
  {
    if arrivals[t].key == key {
      CurrentGrows(Mine(arrivals, t, key), arrivals[t], NumPackets(|msgs[key]|, mss));
    } else {
      assert Mine(arrivals, t + 1, key) == Mine(arrivals, t, key);
    }
  }

  ghost predicate TableIs(handles: map<Key, Assembly>, msgs: Messages, mss: nat, arrivals: seq<Arrival>, t: nat)
    requires mss > 0 && t <= |arrivals| && forall key :: key in msgs ==> MessageOk(msgs[key])
  {
    forall key :: key in msgs ==> EntryIs(Lookup(handles, key), msgs[key], mss, Since(arrivals, msgs, mss, t, key))
  }

  /** One arrival fits its buffer and does what it should. */
  lemma ArrivalCompletes(handles: map<Key, Assembly>, arrivals: seq<Arrival>, msgs: Messages, mss: nat, t: nat)
    requires mss > 0 && Deliveries(arrivals, msgs, mss) && t < |arrivals|
    requires TableIs(handles, msgs, mss, arrivals, t)
    ensures var a := arrivals[t];
            var cur := Since(arrivals, msgs, mss, t, a.key);
            && Fits(handles, a.key, PacketIn(a, msgs, mss), a.alloc, mss)
            && Roomy((cur + [a])[0].alloc, msgs[a.key])
            && Outcome(handles, a, msgs[a.key], mss, cur)
  {
    var a := arrivals[t];
    AnyArrival(handles, msgs[a.key], mss, a, Since(arrivals, msgs, mss, t, a.key));
  }

  ghost predicate Follows(before: map<Key, Assembly>, a: Arrival, msgs: Messages, mss: nat, after: map<Key, Assembly>)
    requires mss > 0 && a.key in msgs
  {
    && Fits(before, a.key, PacketIn(a, msgs, mss), a.alloc, mss)
    && after == ServerStep(before, a.key, PacketIn(a, msgs, mss), a.alloc, mss).0
  }

  lemma OthersUntouched(before: map<Key, Assembly>, a: Arrival, msgs: Messages, mss: nat, after: map<Key, Assembly>,
                        key: Key)
    requires mss > 0 && a.key in msgs && Follows(before, a, msgs, mss, after) && key != a.key
    ensures Lookup(after, key) == Lookup(before, key)
  {
  }

  /** One arrival keeps the table right, and leaves the other requests alone. */
  lemma ArrivalKeepsTable(before: map<Key, Assembly>, after: map<Key, Assembly>,
                          arrivals: seq<Arrival>, msgs: Messages, mss: nat, t: nat)
    requires mss > 0 && Deliveries(arrivals, msgs, mss) && t < |arrivals|
    requires TableIs(before, msgs, mss, arrivals, t)
    requires Follows(before, arrivals[t], msgs, mss, after)
    ensures TableIs(after, msgs, mss, arrivals, t + 1)
  {
    var a := arrivals[t];
    forall key | key in msgs
      ensures EntryIs(Lookup(after, key), msgs[key], mss, Since(arrivals, msgs, mss, t + 1, key))
    {
      SinceGrows(arrivals, msgs, mss, t, key);
      if key == a.key {
        ArrivalCompletes(before, arrivals, msgs, mss, t);
      } else {
        OthersUntouched(before, a, msgs, mss, after, key);
      }
    }
  }

  /** `tables` are the tables of open requests before and after every arrival,
      from an empty one. */
  ghost predicate ServerRun(tables: seq<map<Key, Assembly>>, arrivals: seq<Arrival>, msgs: Messages, mss: nat)
    requires mss > 0 && Deliveries(arrivals, msgs, mss)
  {
    && |tables| == |arrivals| + 1 && tables[0] == map[]
    && (forall t :: 0 <= t < |arrivals| ==> Follows(tables[t], arrivals[t], msgs, mss, tables[t + 1]))
  }

  lemma {:induction false} RunKeepsTable(tables: seq<map<Key, Assembly>>, arrivals: seq<Arrival>,
                                         msgs: Messages, mss: nat, t: nat)
    requires mss > 0 && Deliveries(arrivals, msgs, mss) && ServerRun(tables, arrivals, msgs, mss) && t <= |arrivals|
    ensures TableIs(tables[t], msgs, mss, arrivals, t)
  {
    if t > 0 {
      var s := t - 1;
      RunKeepsTable(tables, arrivals, msgs, mss, s);
      assert Follows(tables[s], arrivals[s], msgs, mss, tables[s + 1]);
      ArrivalKeepsTable(tables[s], tables[s + 1], arrivals, msgs, mss, s);
    }
  }

  /** The run never gets stuck: the next packet always fits its buffer. */
  lemma RunContinues(tables: seq<map<Key, Assembly>>, arrivals: seq<Arrival>, msgs: Messages, mss: nat, next: Arrival)
    requires mss > 0 && Deliveries(arrivals, msgs, mss) && ServerRun(tables, arrivals, msgs, mss)
    requires next.key in msgs && ArrivalOk(next, msgs[next.key], mss)
    ensures Deliveries(arrivals + [next], msgs, mss)
    ensures Fits(tables[|arrivals|], next.key, PacketIn(next, msgs, mss), next.alloc, mss)
    ensures exists table :: ServerRun(tables + [table], arrivals + [next], msgs, mss)
  {
    var t := |arrivals|;
    RunKeepsTable(tables, arrivals, msgs, mss, t);
    ArrivalFits(tables[t], msgs[next.key], mss, next, Since(arrivals, msgs, mss, t, next.key));
    MoreDeliveries(arrivals, msgs, mss, next);
    ExtendRun(tables, arrivals, msgs, mss, next);
  }

  lemma ArrivalFits(handles: map<Key, Assembly>, msg: seq<Byte>, mss: nat, a: Arrival, cur: seq<Arrival>)
    requires 0 < mss && MessageOk(msg) && ArrivalOk(a, msg, mss) && |cur| < NumPackets(|msg|, mss)
    requires EntryIs(Lookup(handles, a.key), msg, mss, cur)
    ensures Fits(handles, a.key, PacketOf(msg, mss, a.i), a.alloc, mss)
  {
    AnyArrival(handles, msg, mss, a, cur);
  }

  lemma MoreDeliveries(arrivals: seq<Arrival>, msgs: Messages, mss: nat, next: Arrival)
    requires mss > 0 && Deliveries(arrivals, msgs, mss)
    requires next.key in msgs && ArrivalOk(next, msgs[next.key], mss)
    ensures Deliveries(arrivals + [next], msgs, mss)
  {
  }

  lemma ExtendRun(tables: seq<map<Key, Assembly>>, arrivals: seq<Arrival>, msgs: Messages, mss: nat, next: Arrival)
    requires mss > 0 && Deliveries(arrivals, msgs, mss) && ServerRun(tables, arrivals, msgs, mss)
    requires next.key in msgs && Deliveries(arrivals + [next], msgs, mss)
    requires Fits(tables[|arrivals|], next.key, PacketIn(next, msgs, mss), next.alloc, mss)
    ensures exists table :: ServerRun(tables + [table], arrivals + [next], msgs, mss)
  {
    var t, more := |arrivals|, arrivals + [next];
    var table := ServerStep(tables[t], next.key, PacketIn(next, msgs, mss), next.alloc, mss).0;
    forall s | 0 <= s < |more|
      ensures Follows((tables + [table])[s], more[s], msgs, mss, (tables + [table])[s + 1])
    {
      if s < t {
        assert Follows(tables[s], arrivals[s], msgs, mss, tables[s + 1]);
      }
    }
    assert ServerRun(tables + [table], more, msgs, mss);
  }

  /** What the arrival at time `t` of a run hands over. */
  function HandedOver(tables: seq<map<Key, Assembly>>, arrivals: seq<Arrival>, msgs: Messages, mss: nat, t: nat)
    : Option<seq<Byte>>
    requires mss > 0 && t < |arrivals| && t < |tables| && arrivals[t].key in msgs
    requires Fits(tables[t], arrivals[t].key, PacketIn(arrivals[t], msgs, mss), arrivals[t].alloc, mss)
  {
    ServerStep(tables[t], arrivals[t].key, PacketIn(arrivals[t], msgs, mss), arrivals[t].alloc, mss).1
  }

  /** Whole runs, with packets in any order, interleaved and repeated. `round` are
      the arrivals of the message since it was last handed over. It is handed over
      exactly when they are as many as its packets, and what is handed over is the
      message, whatever the pool's buffer held before, exactly when they are distinct. */
  lemma CompletesIffDistinct(tables: seq<map<Key, Assembly>>, arrivals: seq<Arrival>, msgs: Messages, mss: nat, t: nat)
    requires mss > 0 && Deliveries(arrivals, msgs, mss) && ServerRun(tables, arrivals, msgs, mss) && t < |arrivals|
    ensures var a := arrivals[t];
            var msg, round := msgs[a.key], Since(arrivals, msgs, mss, t, a.key) + [a];
            && Fits(tables[t], a.key, PacketIn(a, msgs, mss), a.alloc, mss)
            && Roomy(round[0].alloc, msg)
            && Handed(HandedOver(tables, arrivals, msgs, mss, t), round, msg, mss)
            && (|round| == NumPackets(|msg|, mss) ==>
                  (Delivers(msg, mss, Nums(round), |round[0].alloc|) <==> Distinct(Nums(round))))
  {
    var a := arrivals[t];
    var msg, cur := msgs[a.key], Since(arrivals, msgs, mss, t, a.key);
    RunKeepsTable(tables, arrivals, msgs, mss, t);
    AnyArrival(tables[t], msg, mss, a, cur);
    OutcomeHands(tables[t], a, msg, mss, cur);
    MineOk(arrivals, msgs, mss, t, a.key);
    RoundDelivers(cur + [a], msg, mss);
  }

  /** A message is handed over exactly after as many packets as it has, as they
      built it. */
  predicate Handed(done: Option<seq<Byte>>, round: seq<Arrival>, msg: seq<Byte>, mss: nat)
    requires mss > 0 && round != [] && Roomy(round[0].alloc, msg)
  {
    && (done.Some? <==> |round| == NumPackets(|msg|, mss))
    && (done.Some? ==> |msg| <= |done.value| && done.value[..|msg|] == Built(round, msg, mss))
  }

  lemma OutcomeHands(handles: map<Key, Assembly>, a: Arrival, msg: seq<Byte>, mss: nat, cur: seq<Arrival>)
    requires mss > 0 && Fits(handles, a.key, PacketOf(msg, mss, a.i), a.alloc, mss)
    requires Roomy((cur + [a])[0].alloc, msg) && Outcome(handles, a, msg, mss, cur)
    ensures Handed(ServerStep(handles, a.key, PacketOf(msg, mss, a.i), a.alloc, mss).1, cur + [a], msg, mss)
  {
  }

  lemma RoundDelivers(round: seq<Arrival>, msg: seq<Byte>, mss: nat)
    requires mss > 0 && round != [] && Roomy(round[0].alloc, msg) && forall a :: a in round ==> ArrivalOk(a, msg, mss)
    ensures |round| == NumPackets(|msg|, mss) ==>
              (Delivers(msg, mss, Nums(round), |round[0].alloc|) <==> Distinct(Nums(round)))
  {
    if |round| == NumPackets(|msg|, mss) {
      assert forall j :: 0 <= j < |round| ==> round[j] in round;
      DeliversIffDistinct(msg, mss, Nums(round), |round[0].alloc|);
    }
  }

  lemma {:induction false} MineOk(arrivals: seq<Arrival>, msgs: Messages, mss: nat, t: nat, key: Key)
    requires mss > 0 && Deliveries(arrivals, msgs, mss) && t <= |arrivals| && key in msgs
    ensures forall a :: a in Mine(arrivals, t, key) ==> ArrivalOk(a, msgs[key], mss)
  {
    if t > 0 {
      MineOk(arrivals, msgs, mss, t - 1, key);
    }
  }

  // ----- packets delivered once each -----

  lemma {:induction false} MineAt(arrivals: seq<Arrival>, t: nat, key: Key, j: nat) returns (s: nat)
    requires t <= |arrivals| && j < |Mine(arrivals, t, key)|
    ensures s < t && arrivals[s] == Mine(arrivals, t, key)[j] && arrivals[s].key == key
    ensures arrivals[s].key == key && j == |Mine(arrivals, s, key)|
  {
    if j < |Mine(arrivals, t - 1, key)| {
      s := MineAt(arrivals, t - 1, key, j);
    } else {
      s := t - 1;
    }
  }

  lemma {:induction false} MineGrows(arrivals: seq<Arrival>, s: nat, t: nat, key: Key)
    requires s <= t <= |arrivals|
    ensures |Mine(arrivals, s, key)| <= |Mine(arrivals, t, key)|
  {
    if s < t {
      MineGrows(arrivals, s, t - 1, key);
    }
  }

  lemma OnceEachDistinct(arrivals: seq<Arrival>, t: nat, key: Key)
    requires t <= |arrivals| && OnceEach(arrivals)
    ensures Distinct(Nums(Mine(arrivals, t, key)))
  {
    var mine := Mine(arrivals, t, key);
    forall j, k | 0 <= j < k < |mine|
      ensures Nums(mine)[j] != Nums(mine)[k]
    {
      var r := MineAt(arrivals, t, key, j);
      var s := MineAt(arrivals, t, key, k);
      if s <= r {
        MineGrows(arrivals, s, r, key);
      }
    }
  }

  /** The arrivals of a message, without repeats, are at most its packets. */
  lemma OnceEachBounded(arrivals: seq<Arrival>, msgs: Messages, mss: nat, t: nat, key: Key)
    requires mss > 0 && Deliveries(arrivals, msgs, mss) && OnceEach(arrivals) && t <= |arrivals| && key in msgs
    ensures var mine, n := Mine(arrivals, t, key), NumPackets(|msgs[key]|, mss);
            && |mine| <= n && Below(Nums(mine), n) && Distinct(Nums(mine))
            && (Complete(Got(arrivals, t, key), n) <==> |mine| == n)
  {
    var mine, n := Mine(arrivals, t, key), NumPackets(|msgs[key]|, mss);
    var ps := Nums(mine);
    MineOk(arrivals, msgs, mss, t, key);
    assert forall j :: 0 <= j < |mine| ==> mine[j] in mine;
    OnceEachDistinct(arrivals, t, key);
    NumbersBelow(ps, n);
    CountDistinct(ps);
    AllBelow(Numbers(ps), n);
    if Complete(Numbers(ps), n) {
      CountAll(Numbers(ps), n);
    }
  }

  /** Packets delivered once each: each message is handed to the application on its
      last packet and on no other, with its original bytes. */
  lemma EveryMessageCompletesOnce(tables: seq<map<Key, Assembly>>, arrivals: seq<Arrival>,
                                  msgs: Messages, mss: nat, t: nat)
    requires mss > 0 && Deliveries(arrivals, msgs, mss) && OnceEach(arrivals)
    requires ServerRun(tables, arrivals, msgs, mss) && t < |arrivals|
    ensures var a := arrivals[t];
            && Fits(tables[t], a.key, PacketIn(a, msgs, mss), a.alloc, mss)
            && var done := HandedOver(tables, arrivals, msgs, mss, t);
            && (done.Some? <==> Complete(Got(arrivals, t + 1, a.key), NumPackets(|msgs[a.key]|, mss)))
            && (done.Some? ==> |msgs[a.key]| <= |done.value| && done.value[..|msgs[a.key]|] == msgs[a.key])
  {
    var a := arrivals[t];
    CompletesIffDistinct(tables, arrivals, msgs, mss, t);
    OnceEachBounded(arrivals, msgs, mss, t + 1, a.key);
    OnlyRound(arrivals, msgs, mss, t);
  }

  /** Without repeats the message has not been handed over before. */
  lemma OnlyRound(arrivals: seq<Arrival>, msgs: Messages, mss: nat, t: nat)
    requires mss > 0 && Deliveries(arrivals, msgs, mss) && OnceEach(arrivals) && t < |arrivals|
    ensures var a := arrivals[t];
            Since(arrivals, msgs, mss, t, a.key) + [a] == Mine(arrivals, t + 1, a.key)
  {
    var a := arrivals[t];
    OnceEachBounded(arrivals, msgs, mss, t + 1, a.key);
    ShortIsCurrent(Mine(arrivals, t, a.key), NumPackets(|msgs[a.key]|, mss));
  }

  lemma {:induction false} ShortIsCurrent(mine: seq<Arrival>, n: nat)
    requires |mine| < n
    ensures Current(mine, n) == mine
  {
    if mine != [] {
      ShortIsCurrent(mine[..|mine| - 1], n);
      assert mine == mine[..|mine| - 1] + [mine[|mine| - 1]];
    }
  }
}
