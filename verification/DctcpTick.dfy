/** The two implementations of the congestion-control tick: the counter-delta
    block with `dctcp_wnd_cc`, and the MTP chain `slows_congc_ep` /
    `set_tx_rate_ep`. Both compute one `Step` of `DctcpSpec` from the same
    counter snapshots. */
module DctcpTick {
  import opened Words
  import opened DctcpSpec

  /** The counters that the eBPF side accumulates: drops and ACKs modulo 2^16, bytes
      modulo 2^32. */
  datatype Counters = Counters(drops: nat, acks: nat, ackb: nat, ecnb: nat)

  predicate CountersOk(s: Counters) {
    s.drops < U16 && s.acks < U16 && s.ackb < U32 && s.ecnb < U32
  }

  /** The part of a connection that both implementations share. */
  datatype View = View(lastDrops: nat, lastAckb: nat, lastEcnb: nat, rexmits: nat, cc: Cc)

  predicate ViewOk(v: View) {
    v.lastDrops < U16 && v.lastAckb < U32 && v.lastEcnb < U32 && CcOk(v.cc)
  }

  /** Differences of wrapped counters. */
  function DeltasOf(v: View, s: Counters): Deltas {
    Deltas(Sub16(s.drops, v.lastDrops), Sub32(s.ackb, v.lastAckb), Sub32(s.ecnb, v.lastEcnb))
  }

  /** As long as fewer than 2^16 drops and 2^32 bytes happen between two ticks, the
      differences are the true counts, however far the counters have run. */
  lemma DeltasCount(last: Counters, now: Counters, rexmits: nat, cc: Cc)
    requires last.drops <= now.drops < last.drops + U16
    requires last.ackb <= now.ackb < last.ackb + U32 && last.ecnb <= now.ecnb < last.ecnb + U32
    ensures DeltasOf(View(last.drops % U16, last.ackb % U32, last.ecnb % U32, rexmits, cc),
                     Counters(now.drops % U16, now.acks % U16, now.ackb % U32, now.ecnb % U32))
         == Deltas(now.drops - last.drops, now.ackb - last.ackb, now.ecnb - last.ecnb)
  {
    DifferenceOfWrapped(now.drops, last.drops, U16);
    DifferenceOfWrapped(now.ackb, last.ackb, U32);
    DifferenceOfWrapped(now.ecnb, last.ecnb, U32);
  }

  lemma DifferenceOfWrapped(a: nat, b: nat, m: nat)
    requires b <= a < b + m
    ensures (a % m - b % m) % m == a - b
  {
    var qa, qb := a / m, b / m;
    assert a == m * qa + a % m && b == m * qb + b % m;
    assert a % m - b % m == m * (qb - qa) + (a - b);
    DivModUnique(a % m - b % m, m, qb - qa, a - b);
  }

  function TickOf(v: View, p: Params, s: Counters): View
    requires ParamsOk(p) && CcOk(v.cc)
  {
    var d := DeltasOf(v, s);
    RateStaysInRange(v.cc, p, d, v.rexmits);
    View(s.drops, s.ackb, s.ecnb, 0, Step(v.cc, p, d, v.rexmits))
  }

  lemma TickKeepsView(v: View, p: Params, s: Counters)
    requires ParamsOk(p) && ViewOk(v) && CountersOk(s)
    ensures ViewOk(TickOf(v, p, s)) && MSS <= TickOf(v, p, s).cc.window <= p.txBufSize
  {
    StepKeepsBounds(v.cc, p, DeltasOf(v, s), v.rexmits);
  }

  /** The 32-bit overflow guard fires exactly on a real overflow: a sum that
      does not exceed the window has wrapped or added nothing. */
  lemma GuardIsExact(window: nat, x: nat)
    requires window < U32 && x < U32
    ensures (if (window + x) % U32 > window then (window + x) % U32 else window) == GuardedAdd(window, x)
  {
    if window + x >= U32 {
      DivModUnique(window + x, U32, 1, window + x - U32);
    }
  }

  /** The additive increase fits 32 bits, as the window is at least one segment. */
  lemma IncrementFits(ackb: nat, window: nat)
    requires ackb < U32 && window >= MSS
    ensures ackb * MSS < U64 && Increment(ackb, window) < U32
  {
    MulMonotone(MSS, window, ackb);
    assert window * ackb == ackb * window;
    DivBound(ackb * MSS, window, ackb);
  }

  lemma FractionFits(marked: nat)
    requires marked < U32
    ensures marked * UINT32_MAX < U64
  {
    MulMonotone(marked, UINT32_MAX, UINT32_MAX);
  }

  lemma CutFits(window: nat, rate: nat)
    requires window < U32 && rate <= UINT32_MAX
    ensures window * (UINT32_MAX - rate / 2) < U64
    ensures EcnCut(window, rate) < U32
  {
    MulMonotone(window, UINT32_MAX, UINT32_MAX - rate / 2);
    EcnCutAtLeastHalf(window, rate);
  }

  /** The fixed-point average as 64-bit code computes it: no product or sum
      leaves 64 bits, and the result fits 32. */
  method EwmaU64(rate: nat, marked: nat, acked: nat, weight: nat) returns (r: nat)
    requires rate <= UINT32_MAX && marked <= acked < U32 && acked > 0 && weight <= UINT32_MAX
    ensures r == Ewma(rate, marked, acked, weight) <= UINT32_MAX
  {
    var ecnRate := FractionU64(marked, acked);
    ecnRate := SumU64(ecnRate, rate, weight);
    EwmaBound(rate, marked, acked, weight);
    ecnRate := ecnRate / UINT32_MAX;
    r := ecnRate % U32;
  }

  method SumU64(f: nat, rate: nat, weight: nat) returns (sum: nat)
    requires f <= UINT32_MAX && rate <= UINT32_MAX && weight <= UINT32_MAX
    ensures sum == WeightedSum(f, rate, weight)
  {
    WeightedSumBound(f, rate, weight);
    var a, b := Times(f, weight), Times(rate, UINT32_MAX - weight);
    FitsWord(a);
    FitsWord(b);
    FitsWord(a + b);
    sum := (a % U64 + b % U64) % U64;
  }

  lemma FitsWord(x: nat)
    ensures x < U64 ==> x % U64 == x
  {
  }

  method FractionU64(marked: nat, acked: nat) returns (f: nat)
    requires marked <= acked < U32 && acked > 0
    ensures f == Fraction(marked, acked) <= UINT32_MAX
  {
    FractionFits(marked);
    FractionBound(marked, acked);
    var x := (marked * UINT32_MAX) % U64;
    f := x / acked;
  }

  method CutU64(window: nat, rate: nat) returns (w: nat)
    requires window < U32 && rate <= UINT32_MAX
    ensures w == EcnCut(window, rate) && IsCut(window, rate, w)
  {
    EcnCutTracks(window, rate);
    CutFits(window, rate);
    w := (((window * (UINT32_MAX - rate / 2)) % U64) / UINT32_MAX) % U32;
  }

  method IncreaseU32(window: nat, ackb: nat) returns (w: nat)
    requires MSS <= window < U32 && ackb < U32
    ensures w == GuardedAdd(window, Increment(ackb, window))
  {
    IncrementFits(ackb, window);
    var bytes := (ackb * MSS) % U64;
    var incr := bytes / window;
    assert incr == Increment(ackb, window);
    GuardIsExact(window, incr);
    w := window;
    if (window + incr) % U32 > w {
      w := (window + incr) % U32;
    }
  }

  class Connection {
    const p: Params
    var ccLastDrops: nat
    var ccLastAcks: nat
    var ccLastAckb: nat
    var ccLastEcnb: nat
    var ccRexmits: nat
    var window: nat
    var ecnRate: nat
    var slowstart: bool
    /** Counter fields that only the MTP chain uses. */
    var cntTxDrops: nat
    var cntRxAckBytes: nat
    var cntRxEcnBytes: nat

    function V(): View
      reads this
    {
      View(ccLastDrops, ccLastAckb, ccLastEcnb, ccRexmits, Cc(window, ecnRate, slowstart))
    }

    predicate Valid()
      reads this
    {
      ParamsOk(p) && ViewOk(V())
    }

    /** A connection as it is registered. */
    constructor (p: Params)
      requires ParamsOk(p)
      ensures Valid() && this.p == p && V() == View(0, 0, 0, 0, INITIAL)
    {
      this.p := p;
      ccLastDrops, ccLastAcks, ccLastAckb, ccLastEcnb, ccRexmits := 0, 0, 0, 0, 0;
      window, ecnRate, slowstart := 2 * 1448, 0, true;
      cntTxDrops, cntRxAckBytes, cntRxEcnBytes := 0, 0, 0;
    }

    /** The delta block followed by `dctcp_wnd_cc`. */
    method OriginalTick(s: Counters)
      requires Valid() && CountersOk(s)
      modifies this
      ensures Valid() && V() == TickOf(old(V()), p, s) && MSS <= window <= p.txBufSize
      ensures ccLastDrops == s.drops && ccLastAckb == s.ackb && ccLastEcnb == s.ecnb && ccRexmits == 0
      ensures ccLastAcks == s.acks
    {
      TickKeepsView(V(), p, s);
      var last := ccLastDrops;
      ccLastDrops := s.drops;
      var cDrops := (s.drops - last) % U16;
      last := ccLastAcks;
      ccLastAcks := s.acks;
      var cAcks := (s.acks - last) % U16;
      last := ccLastAckb;
      ccLastAckb := s.ackb;
      var cAckb := (s.ackb - last) % U32;
      last := ccLastEcnb;
      ccLastEcnb := s.ecnb;
      var cEcnb := (s.ecnb - last) % U32;
      DctcpWndCc(cDrops, cAckb, cEcnb);
    }

    method DctcpWndCc(cDrops: nat, cAckb: nat, ecnb0: nat)
      requires ParamsOk(p) && CcOk(V().cc)  // win >= 1448
      requires cDrops < U32 && cAckb < U32 && ecnb0 < U32
      modifies `window, `ecnRate, `slowstart, `ccRexmits
      ensures NewRate(old(V().cc), p, Deltas(cDrops, cAckb, ecnb0), old(ccRexmits)) <= UINT32_MAX
      ensures V().cc == Step(old(V().cc), p, Deltas(cDrops, cAckb, ecnb0), old(ccRexmits))
      ensures ccRexmits == 0
    {
      var win, cEcnb := window, ecnb0;
      RateStaysInRange(V().cc, p, Deltas(cDrops, cAckb, ecnb0), ccRexmits);
      if slowstart {
        if cDrops == 0 && cEcnb == 0 && ccRexmits == 0 {
          GuardIsExact(win, cAckb);
          if (win + cAckb) % U32 > win {
            win := (win + cAckb) % U32;
          }
        } else {
          slowstart := false;
        }
      }
      if !slowstart {
        if cDrops > 0 || ccRexmits > 0 {
          win := win / 2;
        } else {
          if cAckb > 0 {
            cEcnb := if cEcnb <= cAckb then cEcnb else cAckb;
            ecnRate := EwmaU64(ecnRate, cEcnb, cAckb, p.weight);
          }
          if cEcnb > 0 {
            win := CutU64(win, ecnRate);
          } else {
            assert win != 0;
            win := IncreaseU32(win, cAckb);
          }
        }
      }
      if win < 1448 {
        win := 1448;
      }
      if win > p.txBufSize {
        win := p.txBufSize;
      }
      window := win;
      ccRexmits := 0;
    }

    /** The MTP chain: snapshot, `slows_congc_ep`, and the window store of
        `set_tx_rate_ep`. The deltas replace the snapshot in the connection. */
    method MtpTick(s: Counters)
      requires Valid() && CountersOk(s)
      modifies this
      ensures Valid() && V() == TickOf(old(V()), p, s) && MSS <= window <= p.txBufSize
      ensures ccLastDrops == s.drops && ccLastAckb == s.ackb && ccLastEcnb == s.ecnb && ccRexmits == 0
      ensures ccLastAcks == old(ccLastAcks)
    {
      TickKeepsView(V(), p, s);
      TakeDeltas(s);
      window := SlowsCongc();
    }

    /** The snapshot, and the deltas that replace it. */
    method TakeDeltas(s: Counters)
      requires Valid() && CountersOk(s)
      modifies `ccLastDrops, `ccLastAckb, `ccLastEcnb, `cntTxDrops, `cntRxAckBytes, `cntRxEcnBytes
      ensures Deltas(cntTxDrops, cntRxAckBytes, cntRxEcnBytes) == DeltasOf(old(V()), s)
      ensures ccLastDrops == s.drops && ccLastAckb == s.ackb && ccLastEcnb == s.ecnb
    {
      cntTxDrops := s.drops;
      cntRxAckBytes := s.ackb;
      cntRxEcnBytes := s.ecnb;
      var last := ccLastDrops;
      ccLastDrops := cntTxDrops;
      cntTxDrops := (cntTxDrops - last) % U16;
      last := ccLastAckb;
      ccLastAckb := cntRxAckBytes;
      cntRxAckBytes := (cntRxAckBytes - last) % U32;
      last := ccLastEcnb;
      ccLastEcnb := cntRxEcnBytes;
      cntRxEcnBytes := (cntRxEcnBytes - last) % U32;
    }

    method SlowsCongc() returns (win: nat)
      requires ParamsOk(p) && CcOk(V().cc)  // win >= 1448
      requires DeltasOk(Deltas(cntTxDrops, cntRxAckBytes, cntRxEcnBytes))
      modifies `ecnRate, `slowstart, `ccRexmits, `cntRxEcnBytes
      ensures var d := old(Deltas(cntTxDrops, cntRxAckBytes, cntRxEcnBytes));
              && NewRate(old(V().cc), p, d, old(ccRexmits)) <= UINT32_MAX
              && Cc(win, ecnRate, slowstart) == Step(old(V().cc), p, d, old(ccRexmits))
      ensures ccRexmits == 0
    {
      win := window;
      RateStaysInRange(V().cc, p, Deltas(cntTxDrops, cntRxAckBytes, cntRxEcnBytes), ccRexmits);
      if slowstart {
        if cntTxDrops == 0 && cntRxEcnBytes == 0 && ccRexmits == 0 {
          GuardIsExact(win, cntRxAckBytes);
          if (win + cntRxAckBytes) % U32 > win {
            win := (win + cntRxAckBytes) % U32;
          }
        } else {
          slowstart := false;
        }
      }
      if !slowstart {
        if cntTxDrops > 0 || ccRexmits > 0 {
          win := win / 2;
        } else {
          if cntRxAckBytes > 0 {
            cntRxEcnBytes := if cntRxEcnBytes <= cntRxAckBytes then cntRxEcnBytes else cntRxAckBytes;
            ecnRate := EwmaU64(ecnRate, cntRxEcnBytes, cntRxAckBytes, p.weight);
          }
          if cntRxEcnBytes > 0 {
            win := CutU64(win, ecnRate);
          } else {
            assert win != 0;
            win := IncreaseU32(win, cntRxAckBytes);
          }
        }
      }
      if win < 1448 {
        win := 1448;
      }
      if win > p.txBufSize {
        win := p.txBufSize;
      }
      ccRexmits := 0;
    }

    /** Retransmissions counted between two ticks. */
    method NoteRexmits(n: nat)
      requires Valid()
      modifies `ccRexmits
      ensures Valid() && V() == old(V()).(rexmits := n)
    {
      ccRexmits := n;
    }
  }

  /** The state after the first `n` ticks of a run, by the reference. */
  function ViewAfter(p: Params, snapshots: seq<Counters>, rexmits: seq<nat>, n: nat): (v: View)
    requires ParamsOk(p) && n <= |snapshots| == |rexmits|
    requires forall i :: 0 <= i < |snapshots| ==> CountersOk(snapshots[i])
    ensures ViewOk(v) && (n > 0 ==> MSS <= v.cc.window <= p.txBufSize)
  {
    if n == 0 then View(0, 0, 0, 0, INITIAL)
    else
      var v := ViewAfter(p, snapshots, rexmits, n - 1).(rexmits := rexmits[n - 1]);
      TickKeepsView(v, p, snapshots[n - 1]);
      TickOf(v, p, snapshots[n - 1])
  }

  /** Over any sequence of counter snapshots, wrap-around included, and with the
      same retransmission counts, the two implementations stay identical. */
  method Lockstep(p: Params, snapshots: seq<Counters>, rexmits: seq<nat>) returns (a: Connection, b: Connection)
    requires ParamsOk(p) && |rexmits| == |snapshots|
    requires forall i :: 0 <= i < |snapshots| ==> CountersOk(snapshots[i])
    ensures a.Valid() && b.Valid()
    ensures a.V() == b.V() == ViewAfter(p, snapshots, rexmits, |snapshots|)
  {
    a := new Connection(p);
    b := new Connection(p);
    for i := 0 to |snapshots|
      invariant fresh(a) && fresh(b) && a != b && a.p == p == b.p
      invariant a.Valid() && b.Valid()
      invariant a.V() == b.V() == ViewAfter(p, snapshots, rexmits, i)
    {
      a.NoteRexmits(rexmits[i]);
      b.NoteRexmits(rexmits[i]);
      a.OriginalTick(snapshots[i]);
      b.MtpTick(snapshots[i]);
    }
  }
}
