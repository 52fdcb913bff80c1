/** Reordering of received TCP segments: what is credited to the application and
    what waits in the single out-of-order interval. */
module TcpReorder {
  import opened Words

  /** A non-empty segment whose payload has not been trimmed. Payload lengths have
      16 bits, all ones meaning that there is none. */
  datatype Seg = Seg(start: nat, len: nat)

  predicate SegOk(s: Seg) {
    s.start < U32 && 0 < s.len < U16 - 1
  }

  function End(s: Seg): nat { Add32(s.start, s.len) }

  /** The reordering state of the receiving thread, the two packet lists of the
      connection, and the bytes credited so far. */
  datatype Rx = Rx(following: bool, expected: nat, oooStart: nat, oooLen: nat,
                   rxAddrs: seq<Seg>, oooAddrs: seq<Seg>, bump: nat)

  const IDLE: Rx := Rx(false, 0, 0, 0, [], [], 0)

  /** The segment closes the gap before the out-of-order interval. */
  predicate Merges(st: Rx, s: Seg) {
    st.following && st.expected == s.start && st.oooLen > 0 && End(s) == st.oooStart
  }

  /** The segment is held: it starts, precedes or follows the interval. */
  predicate Held(st: Rx, s: Seg) {
    && st.following && st.expected != s.start
    && (st.oooLen == 0 || End(s) == st.oooStart || Add32(st.oooStart, st.oooLen) == s.start)
  }

  function Step(st: Rx, s: Seg): Rx {
    if !st.following then
      st.(following := true, bump := st.bump + s.len, expected := End(s), rxAddrs := st.rxAddrs + [s])
    else if st.expected == s.start then
      if Merges(st, s) then
        st.(bump := st.bump + Add32(s.len, st.oooLen), rxAddrs := st.rxAddrs + st.oooAddrs + [s], oooAddrs := [],
            expected := Add32(st.oooStart, st.oooLen), oooLen := 0)
      else
        st.(expected := Add32(st.expected, s.len), bump := st.bump + s.len, rxAddrs := st.rxAddrs + [s])
    else if st.oooLen == 0 then
      st.(oooStart := s.start, oooLen := s.len, oooAddrs := st.oooAddrs + [s])
    else if End(s) == st.oooStart then
      st.(oooStart := s.start, oooLen := Add32(st.oooLen, s.len), oooAddrs := st.oooAddrs + [s])
    else if Add32(st.oooStart, st.oooLen) == s.start then
      st.(oooLen := Add32(st.oooLen, s.len), oooAddrs := st.oooAddrs + [s])
    else st
  }

  class Receiver {
    var following: bool
    var expected: nat
    var oooStart: nat
    var oooLen: nat
    var rxAddrs: seq<Seg>
    var oooAddrs: seq<Seg>
    var cachedRxBump: nat

    function View(): Rx
      reads this
    {
      Rx(following, expected, oooStart, oooLen, rxAddrs, oooAddrs, cachedRxBump)
    }

    constructor ()
      ensures View() == IDLE
    {
      following, expected, oooStart, oooLen := false, 0, 0, 0;
      rxAddrs, oooAddrs, cachedRxBump := [], [], 0;
    }

    /** `mtp_add_data_seg_wrapper`, without the receive-buffer positions. */
    method AddDataSeg(s: Seg)
      modifies this
      ensures View() == Step(old(View()), s)
    {
      var endSeq := (s.start + s.len) % U32;
      if !following {
        cachedRxBump := cachedRxBump + s.len;
        expected := endSeq;
        following := true;
        rxAddrs := rxAddrs + [s];
      } else if expected == s.start {
        if oooLen > 0 && endSeq == oooStart {
          cachedRxBump := cachedRxBump + (s.len + oooLen) % U32;
          rxAddrs := rxAddrs + oooAddrs;
          oooAddrs := [];
          rxAddrs := rxAddrs + [s];
          expected := (oooStart + oooLen) % U32;
          oooLen := 0;
        } else {
          expected := (expected + s.len) % U32;
          cachedRxBump := cachedRxBump + s.len;
          rxAddrs := rxAddrs + [s];
        }
      } else {
        if oooLen == 0 {
          oooStart := s.start;
          oooLen := s.len;
        } else if endSeq == oooStart {
          oooStart := s.start;
          oooLen := (oooLen + s.len) % U32;
        } else if (oooStart + oooLen) % U32 == s.start {
          oooLen := (oooLen + s.len) % U32;
        } else {
          return;
        }
        oooAddrs := oooAddrs + [s];
      }
    }
  }

  // ----- tilings -----

  /** The segments follow one another from `a` to `b`, modulo 2^32. */
  predicate Chain(segs: seq<Seg>, a: nat, b: nat) {
    if segs == [] then a == b else segs[0].start == a && Chain(segs[1..], End(segs[0]), b)
  }

  function Total(segs: seq<Seg>): nat {
    if segs == [] then 0 else segs[0].len + Total(segs[1..])
  }

  lemma {:induction false} ChainJoin(xs: seq<Seg>, ys: seq<Seg>, a: nat, b: nat, c: nat)
    requires Chain(xs, a, b) && Chain(ys, b, c)
    ensures Chain(xs + ys, a, c) && Total(xs + ys) == Total(xs) + Total(ys)
  {
    if xs == [] {
      assert xs + ys == ys;
    } else {
      ChainJoin(xs[1..], ys, End(xs[0]), b, c);
      assert (xs + ys)[1..] == xs[1..] + ys;
    }
  }

  lemma ChainOne(s: Seg)
    ensures Chain([s], s.start, End(s)) && Total([s]) == s.len
  {
    assert [s][1..] == [];
  }

  /** A chain's ends are its total apart. */
  lemma {:induction false} ChainLength(segs: seq<Seg>, a: nat, b: nat)
    requires Chain(segs, a, b) && a < U32
    ensures b == (a + Total(segs)) % U32
  {
    if segs != [] {
      ChainLength(segs[1..], End(segs[0]), b);
      WrapSum(a, segs[0].len, Total(segs[1..]));
    }
  }

  lemma WrapSum(a: nat, x: nat, y: nat)
    ensures (Add32(a, x) + y) % U32 == (a + (x + y)) % U32
  {
  }

  /** The bookkeeping of the proof: where the stream began, and the credited and
      the held segments in sequence order. */
  datatype Ledger = Ledger(first: nat, credited: seq<Seg>, held: seq<Seg>)

  function Enter(l: Ledger, st: Rx, s: Seg): Ledger {
    if !st.following then Ledger(s.start, [s], l.held)
    else if st.expected == s.start then
      if Merges(st, s) then Ledger(l.first, l.credited + [s] + l.held, [])
      else l.(credited := l.credited + [s])
    else if st.oooLen == 0 then l.(held := [s])
    else if End(s) == st.oooStart then l.(held := [s] + l.held)
    else if Add32(st.oooStart, st.oooLen) == s.start then l.(held := l.held + [s])
    else l
  }

  /** What is credited tiles the stream up to the expected byte; what is held
      tiles the out-of-order interval; the byte counts agree. */
  ghost predicate Inv(st: Rx, l: Ledger) {
    && l.first < U32 && st.oooStart < U32
    && multiset(st.rxAddrs) == multiset(l.credited)
    && multiset(st.oooAddrs) == multiset(l.held)
    && st.bump == Total(l.credited)
    && st.oooLen == Total(l.held) < U32
    && (forall s :: s in l.held ==> SegOk(s))
    && (st.following ==> Chain(l.credited, l.first, st.expected))
    && (!st.following ==> l.credited == [] && l.held == [])
    && (st.oooLen > 0 ==> Chain(l.held, st.oooStart, Add32(st.oooStart, st.oooLen)))
  }

  /** The 32-bit length of the interval, with this segment, does not overflow. */
  predicate Fits(st: Rx, s: Seg) {
    Merges(st, s) || (Held(st, s) && st.oooLen > 0) ==> s.len + st.oooLen < U32
  }

  lemma TotalPositive(segs: seq<Seg>)
    requires segs != [] && forall s :: s in segs ==> SegOk(s)
    ensures Total(segs) > 0
  {
    assert segs[0] in segs;
  }

  lemma CreditInOrder(st: Rx, l: Ledger, s: Seg)
    requires Inv(st, l) && SegOk(s) && st.following && st.expected == s.start && !Merges(st, s)
    ensures Inv(Step(st, s), Enter(l, st, s))
  {
    ChainOne(s);
    ChainJoin(l.credited, [s], l.first, st.expected, End(s));
  }

  lemma Merging(st: Rx, l: Ledger, s: Seg)
    requires Inv(st, l) && SegOk(s) && Merges(st, s) && Fits(st, s)
    ensures Inv(Step(st, s), Enter(l, st, s))
  {
    var sum := s.len + st.oooLen;
    assert Add32(s.len, st.oooLen) == sum;
    JoinThree(l.credited, s, l.held, l.first, Add32(st.oooStart, st.oooLen));
    SamePackets(st.rxAddrs, st.oooAddrs, s, l.credited, l.held);
  }

  lemma SamePackets(xs: seq<Seg>, ys: seq<Seg>, s: Seg, xs': seq<Seg>, ys': seq<Seg>)
    requires multiset(xs) == multiset(xs') && multiset(ys) == multiset(ys')
    ensures multiset(xs + ys + [s]) == multiset(xs' + [s] + ys')
  {
  }

  lemma JoinThree(xs: seq<Seg>, s: Seg, ys: seq<Seg>, a: nat, c: nat)
    requires Chain(xs, a, s.start) && Chain(ys, End(s), c)
    ensures Chain(xs + [s] + ys, a, c) && Total(xs + [s] + ys) == Total(xs) + s.len + Total(ys)
  {
    ChainOne(s);
    ChainJoin(xs, [s], a, s.start, End(s));
    ChainJoin(xs + [s], ys, a, End(s), c);
  }

  lemma HoldFirst(st: Rx, l: Ledger, s: Seg)
    requires Inv(st, l) && SegOk(s) && Held(st, s) && st.oooLen == 0
    ensures Inv(Step(st, s), Enter(l, st, s))
  {
    ChainOne(s);
    if l.held != [] { TotalPositive(l.held); }
    assert |st.oooAddrs| == |multiset(st.oooAddrs)| == 0;
    assert st.oooAddrs + [s] == [s];
  }

  lemma HoldBefore(st: Rx, l: Ledger, s: Seg)
    requires Inv(st, l) && SegOk(s) && Held(st, s) && st.oooLen > 0 && End(s) == st.oooStart && Fits(st, s)
    ensures Inv(Step(st, s), Enter(l, st, s))
  {
    JoinBefore(s, l.held, Add32(st.oooStart, st.oooLen));
  }

  lemma JoinBefore(s: Seg, ys: seq<Seg>, c: nat)
    requires SegOk(s) && Chain(ys, End(s), c) && s.len + Total(ys) < U32
    ensures Total([s] + ys) == s.len + Total(ys) == Add32(Total(ys), s.len)
    ensures Chain([s] + ys, s.start, Add32(s.start, Add32(Total(ys), s.len)))
  {
    ChainOne(s);
    ChainJoin([s], ys, s.start, End(s), c);
    ChainLength([s] + ys, s.start, c);
  }

  lemma HoldAfter(st: Rx, l: Ledger, s: Seg)
    requires Inv(st, l) && SegOk(s) && Held(st, s) && st.oooLen > 0 && End(s) != st.oooStart && Fits(st, s)
    ensures Inv(Step(st, s), Enter(l, st, s))
  {
    JoinAfter(l.held, s, st.oooStart);
  }

  lemma JoinAfter(xs: seq<Seg>, s: Seg, a: nat)
    requires Chain(xs, a, s.start) && a < U32 && s.len + Total(xs) < U32
    ensures Total(xs + [s]) == s.len + Total(xs) == Add32(Total(xs), s.len)
    ensures Chain(xs + [s], a, Add32(a, Add32(Total(xs), s.len)))
  {
    ChainOne(s);
    ChainJoin(xs, [s], a, s.start, End(s));
    ChainLength(xs + [s], a, End(s));
  }

  lemma FirstSegment(st: Rx, l: Ledger, s: Seg)
    requires Inv(st, l) && SegOk(s) && !st.following
    ensures Inv(Step(st, s), Enter(l, st, s))
  {
    ChainOne(s);
    assert |st.rxAddrs| == |multiset(st.rxAddrs)| == 0;
    assert st.rxAddrs + [s] == [s];
  }

  lemma StepKeepsInv(st: Rx, l: Ledger, s: Seg)
    requires Inv(st, l) && SegOk(s) && Fits(st, s)
    ensures Inv(Step(st, s), Enter(l, st, s))
  {
    if !st.following {
      FirstSegment(st, l, s);
    } else if Merges(st, s) {
      Merging(st, l, s);
    } else if st.expected == s.start {
      CreditInOrder(st, l, s);
    } else if !Held(st, s) {
    } else if st.oooLen == 0 {
      HoldFirst(st, l, s);
    } else if End(s) == st.oooStart {
      HoldBefore(st, l, s);
    } else {
      HoldAfter(st, l, s);
    }
  }

  /** One arrival keeps the tiling and the byte counts exactly when the 32-bit
      interval length does not overflow. */
  lemma StepKeepsInvIff(st: Rx, l: Ledger, s: Seg)
    requires Inv(st, l) && SegOk(s)
    ensures Inv(Step(st, s), Enter(l, st, s)) <==> Fits(st, s)
  {
    if Fits(st, s) {
      StepKeepsInv(st, l, s);
    } else {
      var st', l' := Step(st, s), Enter(l, st, s);
      ChainTotals(l, s);
      WrapsDown(s.len, st.oooLen);
    }
  }

  lemma WrapsDown(x: nat, y: nat)
    requires x < U32 && y < U32 && x + y >= U32
    ensures Add32(x, y) == x + y - U32 == Add32(y, x)
  {
    DivModUnique(x + y, U32, 1, x + y - U32);
  }

  lemma {:induction false} TotalAppend(xs: seq<Seg>, ys: seq<Seg>)
    ensures Total(xs + ys) == Total(xs) + Total(ys)
  {
    if xs == [] {
      assert xs + ys == ys;
    } else {
      TotalAppend(xs[1..], ys);
      assert (xs + ys)[1..] == xs[1..] + ys;
    }
  }

  lemma ChainTotals(l: Ledger, s: Seg)
    ensures Total(l.credited + [s] + l.held) == Total(l.credited) + s.len + Total(l.held)
    ensures Total([s] + l.held) == s.len + Total(l.held) == Total(l.held + [s])
  {
    ChainOne(s);
    TotalAppend(l.credited + [s], l.held);
    TotalAppend(l.credited, [s]);
    TotalAppend([s], l.held);
    TotalAppend(l.held, [s]);
  }

  // ----- whole runs -----

  ghost predicate IsRun(arrivals: seq<Seg>, states: seq<Rx>, ledgers: seq<Ledger>) {
    && |states| == |ledgers| == |arrivals| + 1
    && states[0] == IDLE && ledgers[0] == Ledger(0, [], [])
    && (forall t :: 0 <= t < |arrivals| ==>
          Follows(states[t], ledgers[t], arrivals[t], states[t + 1], ledgers[t + 1]))
  }

  predicate Follows(st: Rx, l: Ledger, s: Seg, st': Rx, l': Ledger) {
    SegOk(s) && st' == Step(st, s) && l' == Enter(l, st, s)
  }

  /** No arrival before time `t` makes the interval's length overflow. */
  ghost predicate AllFit(arrivals: seq<Seg>, states: seq<Rx>, t: nat)
    requires t <= |arrivals| < |states|
  {
    forall u :: 0 <= u < t ==> Fits(states[u], arrivals[u])
  }

  /** After arrivals that fit: the segments credited to the application tile the
      stream from the first start to the expected byte, the credited bytes are
      their total, and the held segments tile the out-of-order interval. */
  lemma {:induction false} RunTiles(arrivals: seq<Seg>, states: seq<Rx>, ledgers: seq<Ledger>, t: nat)
    requires IsRun(arrivals, states, ledgers) && t <= |arrivals| && AllFit(arrivals, states, t)
    ensures Inv(states[t], ledgers[t])
    ensures states[t].following ==> states[t].expected == (ledgers[t].first + states[t].bump) % U32
  {
    if t > 0 {
      var u := t - 1;
      RunTiles(arrivals, states, ledgers, u);
      assert Follows(states[u], ledgers[u], arrivals[u], states[u + 1], ledgers[u + 1]);
      StepKeepsInv(states[u], ledgers[u], arrivals[u]);
    }
    CreditSpans(states[t], ledgers[t]);
  }

  lemma CreditSpans(st: Rx, l: Ledger)
    requires Inv(st, l)
    ensures st.following ==> st.expected == (l.first + st.bump) % U32
  {
    if st.following {
      ChainLength(l.credited, l.first, st.expected);
    }
  }

  /** A run keeps its tilings throughout exactly when every arrival fits. */
  lemma RunTilesIff(arrivals: seq<Seg>, states: seq<Rx>, ledgers: seq<Ledger>)
    requires IsRun(arrivals, states, ledgers)
    ensures (forall t :: 0 <= t <= |arrivals| ==> Inv(states[t], ledgers[t]))
            <==> AllFit(arrivals, states, |arrivals|)
  {
    if AllFit(arrivals, states, |arrivals|) {
      forall t | 0 <= t <= |arrivals|
        ensures Inv(states[t], ledgers[t])
      {
        RunTiles(arrivals, states, ledgers, t);
      }
    } else {
      var t :| 0 <= t < |arrivals| && !Fits(states[t], arrivals[t]);
      var u := t + 1;
      assert Follows(states[t], ledgers[t], arrivals[t], states[u], ledgers[u]);
      if Inv(states[t], ledgers[t]) {
        StepKeepsInvIff(states[t], ledgers[t], arrivals[t]);
        assert !Inv(states[u], ledgers[u]);
      }
    }
  }

  /** Less than 2^32 bytes in all always fit. */
  lemma {:induction false} ShortRunFits(arrivals: seq<Seg>, states: seq<Rx>, ledgers: seq<Ledger>, t: nat)
    requires IsRun(arrivals, states, ledgers) && Total(arrivals) < U32 && t <= |arrivals|
    ensures AllFit(arrivals, states, t)
    ensures Inv(states[t], ledgers[t])
    ensures Total(ledgers[t].credited) + Total(ledgers[t].held) <= Total(arrivals[..t])
  {
    if t > 0 {
      var u := t - 1;
      var st, l, s := states[u], ledgers[u], arrivals[u];
      ShortRunFits(arrivals, states, ledgers, u);
      assert Follows(st, l, s, states[u + 1], ledgers[u + 1]);
      PrefixTotal(arrivals, u);
      StepKeepsInv(st, l, s);
      EnterTotal(st, l, s);
    }
  }

  lemma PrefixTotal(arrivals: seq<Seg>, u: nat)
    requires u < |arrivals|
    ensures Total(arrivals[..u + 1]) == Total(arrivals[..u]) + arrivals[u].len <= Total(arrivals)
  {
    assert arrivals[..u + 1] == arrivals[..u] + [arrivals[u]];
    assert arrivals == arrivals[..u + 1] + arrivals[u + 1..];
    ChainOne(arrivals[u]);
    TotalAppend(arrivals[..u], [arrivals[u]]);
    TotalAppend(arrivals[..u + 1], arrivals[u + 1..]);
  }

  lemma EnterTotal(st: Rx, l: Ledger, s: Seg)
    requires Inv(st, l)
    ensures var l' := Enter(l, st, s);
            Total(l'.credited) + Total(l'.held) <= Total(l.credited) + Total(l.held) + s.len
  {
    ChainTotals(l, s);
    TotalAppend(l.credited, [s]);
    ChainOne(s);
  }

  /** The state after any arrivals. */
  function After(arrivals: seq<Seg>): Rx {
    if arrivals == [] then IDLE else Step(After(arrivals[..|arrivals| - 1]), arrivals[|arrivals| - 1])
  }

  lemma AfterOne(arrivals: seq<Seg>, s: Seg)
    ensures After(arrivals + [s]) == Step(After(arrivals), s)
  {
    assert (arrivals + [s])[..|arrivals|] == arrivals;
  }

  /** Segments of 1 KB, one behind the other, behind a gap of 5 bytes. */
  const HELD_LEN: nat := 1024

  function HeldSeg(k: nat): Seg { Seg((10 + HELD_LEN * k) % U32, HELD_LEN) }

  function Behind(k: nat): seq<Seg> {
    if k == 0 then [] else Behind(k - 1) + [HeldSeg(k - 1)]
  }

  function HeldState(k: nat): Rx { Rx(true, 5, 10, HELD_LEN * k, [Seg(0, 5)], Behind(k), 5) }

  lemma {:induction false} BehindHeld(k: nat)
    requires 0 < k && HELD_LEN * k < U32
    ensures After([Seg(0, 5)] + Behind(k)) == HeldState(k)
  {
    var first := [Seg(0, 5)];
    AfterOne(first + Behind(k - 1), HeldSeg(k - 1));
    assert first + Behind(k - 1) + [HeldSeg(k - 1)] == first + Behind(k);
    if k == 1 {
      assert first + Behind(0) == first;
      FirstHeld();
    } else {
      BehindHeld(k - 1);
      NextHeld(k - 1);
    }
  }

  lemma NextHeld(k: nat)
    requires 0 < k && HELD_LEN * (k + 1) < U32
    ensures Step(HeldState(k), HeldSeg(k)) == HeldState(k + 1)
  {
    OneMoreHeld(HELD_LEN * k, [Seg(0, 5)], Behind(k));
  }

  lemma FirstHeld()
    ensures Step(After([Seg(0, 5)]), HeldSeg(0)) == HeldState(1)
  {
    var a := Seg(0, 5);
    AfterOne([], a);
    assert [] + [a] == [a];
    assert Step(IDLE, a) == Rx(true, 5, 0, 0, [a], [], 5);
    assert Behind(1) == [HeldSeg(0)] && [] + [HeldSeg(0)] == [HeldSeg(0)];
  }

  lemma OneMoreHeld(len: nat, rx: seq<Seg>, held: seq<Seg>)
    requires 0 < len && len + HELD_LEN < U32
    ensures var s := Seg((10 + len) % U32, HELD_LEN);
            Step(Rx(true, 5, 10, len, rx, held, 5), s) == Rx(true, 5, 10, len + HELD_LEN, rx, held + [s], 5)
  {
    var s := Seg((10 + len) % U32, HELD_LEN);
    assert s.start == 10 + len;
    assert End(s) != 10;
  }

  lemma LastHeld(len: nat, rx: seq<Seg>, held: seq<Seg>)
    requires len + HELD_LEN == U32
    ensures var s := Seg((10 + len) % U32, HELD_LEN);
            var st := Step(Rx(true, 5, 10, len, rx, held, 5), s);
            st.oooLen == 0 && st.oooAddrs == held + [s]
  {
    var s := Seg((10 + len) % U32, HELD_LEN);
    assert s.start == 10 + len;
  }

  lemma {:induction false} BehindOk(k: nat)
    ensures |Behind(k)| == k && forall s :: s in Behind(k) ==> SegOk(s)
  {
    if k > 0 {
      BehindOk(k - 1);
    }
  }

  /** Segments held one behind the other until their total reaches 2^32 leave an
      interval of length 0, with all of them still in the list. */
  lemma OverflowLosesInterval()
    ensures var held := Behind(U32 / HELD_LEN);
            var st := After([Seg(0, 5)] + held);
            && SegOk(Seg(0, 5)) && (forall s :: s in held ==> SegOk(s))
            && st.oooLen == 0 && st.oooAddrs == held && |held| == U32 / HELD_LEN
  {
    var k := U32 / HELD_LEN;
    var first := [Seg(0, 5)];
    BehindOk(k);
    BehindHeld(k - 1);
    AfterOne(first + Behind(k - 1), HeldSeg(k - 1));
    assert first + Behind(k - 1) + [HeldSeg(k - 1)] == first + Behind(k);
    LastHeld(HELD_LEN * (k - 1), first, Behind(k - 1));
  }

  // ----- what happens to every segment -----

  /** There is a gap before the interval that waits. */
  predicate GapOpen(st: Rx) {
    if st.following then st.oooLen > 0 ==> st.expected != st.oooStart else st.oooLen == 0
  }

  /** In every run, overflows included, an interval never waits at the expected byte:
      whatever closes its gap releases it. */
  lemma {:induction false} GapStaysOpen(arrivals: seq<Seg>, states: seq<Rx>, ledgers: seq<Ledger>, t: nat)
    requires IsRun(arrivals, states, ledgers) && t <= |arrivals|
    ensures GapOpen(states[t])
  {
    if t > 0 {
      var u := t - 1;
      GapStaysOpen(arrivals, states, ledgers, u);
      assert Follows(states[u], ledgers[u], arrivals[u], states[u + 1], ledgers[u + 1]);
      StepKeepsGap(states[u], arrivals[u]);
    }
  }

  lemma StepKeepsGap(st: Rx, s: Seg)
    requires GapOpen(st)
    ensures GapOpen(Step(st, s))
  {
  }

  /** Neither adjacent to the interval that waits nor at the expected byte. */
  predicate OutOfReach(st: Rx, s: Seg) {
    && st.following && s.start != st.expected && st.oooLen > 0
    && (s.start + s.len) % U32 != st.oooStart && (st.oooStart + st.oooLen) % U32 != s.start
  }

  /** Every segment is kept once, in one of the two lists, unless it is out of reach,
      and then nothing changes; a segment at the expected byte is credited at once. */
  lemma EverySegmentKept(st: Rx, s: Seg)
    ensures OutOfReach(st, s) ==> Step(st, s) == st
    ensures !OutOfReach(st, s) ==>
              multiset(Step(st, s).rxAddrs) + multiset(Step(st, s).oooAddrs)
              == multiset(st.rxAddrs) + multiset(st.oooAddrs) + multiset{s}
    ensures !st.following || s.start == st.expected ==> s in Step(st, s).rxAddrs
  {
    var st' := Step(st, s);
    if !OutOfReach(st, s) && st.following {
      if st.expected == s.start {
        assert st'.rxAddrs[|st'.rxAddrs| - 1] == s;
      }
    }
  }

  /** The state after more arrivals. */
  function Steps(st: Rx, segs: seq<Seg>): Rx {
    if segs == [] then st else Step(Steps(st, segs[..|segs| - 1]), segs[|segs| - 1])
  }

  /** Segments that arrive one by one, each extending the interval of `len` bytes from
      `a` in front or behind. */
  predicate Grows(segs: seq<Seg>, a: nat, len: nat) {
    if segs == [] then false
    else
      var s, before := segs[|segs| - 1], segs[..|segs| - 1];
      && SegOk(s) && s.len <= len
      && if before == [] then a == s.start && len == s.len
         else
           || (s.start == Add32(a, len - s.len) && Grows(before, a, len - s.len))
           || (s.start == a && Grows(before, End(s), len - s.len))
  }

  /** The state `st` with these segments held. */
  function Holding(st: Rx, a: nat, len: nat, held: seq<Seg>): Rx {
    st.(oooStart := a, oooLen := len, oooAddrs := held)
  }

  /** All of them are held, if the interval stays `gap` bytes behind the expected one
      without wrapping around to it. */
  lemma {:induction false} HoldsAll(st: Rx, segs: seq<Seg>, a: nat, len: nat, gap: nat)
    requires st.following && st.oooLen == 0 && st.expected < U32
    requires Grows(segs, a, len) && a == Add32(st.expected, gap) && 0 < gap && gap + len < U32
    ensures Steps(st, segs) == Holding(st, a, len, st.oooAddrs + segs)
  {
    var s, before := segs[|segs| - 1], segs[..|segs| - 1];
    assert st.oooAddrs + segs == st.oooAddrs + before + [s];
    if before == [] {
      NotBack(st.expected, gap);
      assert st.oooAddrs + segs == st.oooAddrs + [s];
    } else if s.start == Add32(a, len - s.len) && Grows(before, a, len - s.len) {
      HoldsAll(st, before, a, len - s.len, gap);
      LenPositive(before, a, len - s.len);
      HoldsBehind(st, a, len - s.len, st.oooAddrs + before, s, gap);
    } else {
      GapBefore(st.expected, gap, s);
      HoldsAll(st, before, End(s), len - s.len, gap + s.len);
      LenPositive(before, End(s), len - s.len);
      HoldsInFront(st, len - s.len, st.oooAddrs + before, s, gap);
    }
  }

  lemma LenPositive(segs: seq<Seg>, a: nat, len: nat)
    requires Grows(segs, a, len)
    ensures len > 0
  {
  }

  lemma GapBefore(expected: nat, gap: nat, s: Seg)
    requires s.start == Add32(expected, gap)
    ensures End(s) == Add32(expected, gap + s.len)
  {
    WrapSum(expected, gap, s.len);
  }

  /** Two ends of an interval that lies `gap` bytes behind `expected`. */
  lemma Apart(expected: nat, gap: nat, a: nat, len: nat, more: nat)
    requires expected < U32 && a == Add32(expected, gap) && 0 < gap && 0 < len && gap + len + more < U32
    ensures Add32(a, len) != expected && Add32(Add32(a, len), more) != a && Add32(len, more) == len + more
  {
    WrapSum(expected, gap, len);
    NotBack(expected, gap + len);
    WrapSum(a, len, more);
    NotBack(a, len + more);
  }

  lemma HoldsBehind(st: Rx, a: nat, len: nat, held: seq<Seg>, s: Seg, gap: nat)
    requires st.following && st.expected < U32 && SegOk(s)
    requires s.start == Add32(a, len) && a == Add32(st.expected, gap)
    requires 0 < gap && 0 < len && gap + len + s.len < U32
    ensures Step(Holding(st, a, len, held), s) == Holding(st, a, len + s.len, held + [s])
  {
    Apart(st.expected, gap, a, len, s.len);
  }

  lemma HoldsInFront(st: Rx, len: nat, held: seq<Seg>, s: Seg, gap: nat)
    requires st.following && st.expected < U32 && SegOk(s) && s.start == Add32(st.expected, gap)
    requires 0 < gap && 0 < len && gap + len + s.len < U32
    ensures Step(Holding(st, End(s), len, held), s) == Holding(st, s.start, len + s.len, held + [s])
  {
    NotBack(st.expected, gap);
  }

  /** Segments behind a gap, in any order that keeps them one interval, and then the
      segment that fills the gap: all of them are credited. */
  lemma GapFills(st: Rx, segs: seq<Seg>, a: nat, len: nat, s: Seg)
    requires st.following && st.oooLen == 0 && st.expected < U32
    requires Grows(segs, a, len) && SegOk(s) && s.start == st.expected && End(s) == a && s.len + len < U32
    ensures var st' := Step(Steps(st, segs), s);
            && st'.expected == Add32(st.expected, s.len + len) && st'.bump == st.bump + s.len + len
            && st'.oooLen == 0 && st'.oooAddrs == []
            && multiset(st'.rxAddrs) == multiset(st.rxAddrs) + multiset(st.oooAddrs) + multiset(segs) + multiset{s}
  {
    HoldsAll(st, segs, a, len, s.len);
    LenPositive(segs, a, len);
    Releases(st, a, len, st.oooAddrs + segs, s);
  }

  lemma Releases(st: Rx, a: nat, len: nat, held: seq<Seg>, s: Seg)
    requires st.following && s.start == st.expected && End(s) == a && 0 < len && s.len + len < U32
    ensures var st' := Step(Holding(st, a, len, held), s);
            && st'.expected == Add32(st.expected, s.len + len) && st'.bump == st.bump + s.len + len
            && st'.oooLen == 0 && st'.oooAddrs == [] && st'.rxAddrs == st.rxAddrs + held + [s]
  {
    WrapSum(st.expected, s.len, len);
  }

  // ----- the order of the application's list -----

  /** Every start in a chain is at its distance from the beginning. */
  lemma NoStartBehind(segs: seq<Seg>, a: nat, b: nat, s: Seg)
    requires Chain(segs, a, b) && a == End(s) && SegOk(s) && Total(segs) + s.len < U32
    ensures s !in segs
  {
    StartsAhead(segs, a, b, s.start, s.len);
  }

  lemma {:induction false} StartsAhead(segs: seq<Seg>, a: nat, b: nat, origin: nat, dist: nat)
    requires Chain(segs, a, b) && a == Add32(origin, dist) && origin < U32 && 0 < dist && dist + Total(segs) < U32
    ensures forall s :: s in segs && s.len > 0 ==> s.start != origin
  {
    if segs != [] {
      WrapSum(origin, dist, segs[0].len);
      StartsAhead(segs[1..], End(segs[0]), b, origin, dist + segs[0].len);
      NotBack(origin, dist);
      assert forall s :: s in segs ==> s == segs[0] || s in segs[1..];
    }
  }

  lemma NotBack(origin: nat, dist: nat)
    requires origin < U32 && 0 < dist < U32
    ensures Add32(origin, dist) != origin
  {
  }

  /** The list that the application reads stays in sequence order exactly until
      a gap is closed: the segments behind the gap are put before the one that
      closes it. */
  lemma OrderKeptIff(st: Rx, l: Ledger, s: Seg)
    requires Inv(st, l) && SegOk(s) && Fits(st, s) && st.rxAddrs == l.credited
    ensures Step(st, s).rxAddrs == Enter(l, st, s).credited <==> !Merges(st, s)
  {
    if Merges(st, s) {
      NoStartBehind(l.held, st.oooStart, Add32(st.oooStart, st.oooLen), s);
      assert l.held != [];
      assert |st.oooAddrs| == |multiset(st.oooAddrs)| == |multiset(l.held)| == |l.held|;
      var n := |st.rxAddrs|;
      assert st.oooAddrs[0] in multiset(st.oooAddrs);
      assert (st.rxAddrs + st.oooAddrs + [s])[n] == st.oooAddrs[0];
      assert (l.credited + [s] + l.held)[n] == s;
    } else if !st.following {
      assert st.rxAddrs + [s] == [s];
    }
  }

  /** Three segments suffice: the one that closes the gap is put last. */
  lemma OrderLost()
    ensures var a, b, c := Seg(0, 5), Seg(10, 5), Seg(5, 5);
            && SegOk(a) && SegOk(b) && SegOk(c)
            && After([a, b, c]).rxAddrs == [a, b, c] && Chain([a, c, b], 0, 15)
  {
    var a, b, c := Seg(0, 5), Seg(10, 5), Seg(5, 5);
    AfterOne([], a);
    AfterOne([a], b);
    AfterOne([a, b], c);
    assert [] + [a] == [a] && [a] + [b] == [a, b] && [a, b] + [c] == [a, b, c];
    ChainOne(b);
    assert [a, c, b][1..] == [c, b] && [c, b][1..] == [b];
  }
}
