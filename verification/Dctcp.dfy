/** The window update of DCTCP, as arithmetic on unbounded integers and reals:
    the reference that both implementations of the control plane compute, and
    the properties of its runs (section 3.3 of RFC 8257). */
module DctcpSpec {
  import opened Words
  import opened RealSteps

  const MSS: nat := 1448
  const UINT32_MAX: nat := 0xffff_ffff

  /** Connection parameters: the gain, as a fraction of 2^32 - 1, and the size of
      the transmit buffer. */
  datatype Params = Params(weight: nat, txBufSize: nat)

  predicate ParamsOk(p: Params) {
    1 <= p.weight <= UINT32_MAX && 2048 <= p.txBufSize <= 524288
  }

  datatype Cc = Cc(window: nat, ecnRate: nat, slowstart: bool)

  /** What happened since the last tick. */
  datatype Deltas = Deltas(drops: nat, ackb: nat, ecnb: nat)

  predicate DeltasOk(d: Deltas) {
    d.drops < U32 && d.ackb < U32 && d.ecnb < U32
  }

  predicate CcOk(cc: Cc) {
    MSS <= cc.window < U32 && cc.ecnRate <= UINT32_MAX
  }

  /** Growth that is dropped when the sum does not fit 32 bits. */
  function GuardedAdd(window: nat, x: nat): nat {
    if window + x < U32 then window + x else window
  }

  function Clamp(window: nat, p: Params): nat {
    var w := if window < MSS then MSS else window;
    if w > p.txBufSize then p.txBufSize else w
  }

  /** Marked bytes count at most as many as were acknowledged. */
  function Marked(d: Deltas): nat {
    if d.ackb > 0 && d.ecnb > d.ackb then d.ackb else d.ecnb
  }

  /** The marked fraction, as a fraction of 2^32 - 1. */
  function Fraction(marked: nat, acked: nat): nat
    requires acked > 0
  {
    (marked * UINT32_MAX) / acked
  }

  function WeightedSum(f: nat, rate: nat, weight: nat): nat
    requires weight <= UINT32_MAX
  {
    var keep: nat := UINT32_MAX - weight;
    var a, b := Times(f, weight), Times(rate, keep);
    a + b
  }

  function Times(a: nat, b: nat): nat { a * b }

  function Ewma(rate: nat, marked: nat, acked: nat, weight: nat): nat
    requires acked > 0 && weight <= UINT32_MAX
  {
    WeightedSum(Fraction(marked, acked), rate, weight) / UINT32_MAX
  }

  function EcnCut(window: nat, rate: nat): nat
    requires rate <= UINT32_MAX
  {
    (window * (UINT32_MAX - rate / 2)) / UINT32_MAX
  }

  /** The additive increase: one segment per acknowledged window. */
  function Increment(ackb: nat, window: nat): nat
    requires window > 0
  {
    var bytes: nat := ackb * MSS;
    bytes / window
  }

  /** No sign of congestion during slow start. */
  predicate StaysSlow(cc: Cc, d: Deltas, rexmits: nat) {
    cc.slowstart && d.drops == 0 && d.ecnb == 0 && rexmits == 0
  }

  /** The tick updates the ECN average. */
  predicate UpdatesRate(cc: Cc, d: Deltas, rexmits: nat) {
    !StaysSlow(cc, d, rexmits) && d.drops == 0 && rexmits == 0 && d.ackb > 0
  }

  function NewRate(cc: Cc, p: Params, d: Deltas, rexmits: nat): nat
    requires p.weight <= UINT32_MAX
  {
    if UpdatesRate(cc, d, rexmits) then Ewma(cc.ecnRate, Marked(d), d.ackb, p.weight) else cc.ecnRate
  }

  /** The window before it is clamped. */
  function RawWindow(cc: Cc, p: Params, d: Deltas, rexmits: nat): nat
    requires p.weight <= UINT32_MAX && cc.window > 0 && NewRate(cc, p, d, rexmits) <= UINT32_MAX
  {
    if StaysSlow(cc, d, rexmits) then GuardedAdd(cc.window, d.ackb)
    else if d.drops > 0 || rexmits > 0 then cc.window / 2
    else if Marked(d) > 0 then EcnCut(cc.window, NewRate(cc, p, d, rexmits))
    else GuardedAdd(cc.window, Increment(d.ackb, cc.window))
  }

  function Step(cc: Cc, p: Params, d: Deltas, rexmits: nat): Cc
    requires p.weight <= UINT32_MAX && cc.window > 0 && NewRate(cc, p, d, rexmits) <= UINT32_MAX
  {
    Cc(Clamp(RawWindow(cc, p, d, rexmits), p), NewRate(cc, p, d, rexmits), StaysSlow(cc, d, rexmits))
  }

  const INITIAL: Cc := Cc(2 * MSS, 0, true)

  // ----- bounds -----

  lemma MulMonotone(a: int, b: int, c: int)
    requires a <= b && c >= 0
    ensures a * c <= b * c
  {
    assert b * c - a * c == (b - a) * c;
  }

  lemma DivBound(x: int, d: int, q: int)
    requires d > 0 && x <= d * q
    ensures x / d <= q
  {
    var k := x / d;
    assert x == d * k + x % d;
    assert d * (k - q) == d * k - d * q;
    if k > q { MulAtLeast(d, k - q); }
  }

  lemma FractionBound(marked: nat, acked: nat)
    requires marked <= acked && acked > 0
    ensures Fraction(marked, acked) <= UINT32_MAX
  {
    MulMonotone(marked, acked, UINT32_MAX);
    DivBound(marked * UINT32_MAX, acked, UINT32_MAX);
  }

  /** The weighted sum that the average divides: it fits 64 bits. */
  lemma WeightedSumBound(f: nat, rate: nat, weight: nat)
    requires f <= UINT32_MAX && rate <= UINT32_MAX && weight <= UINT32_MAX
    ensures f * weight <= UINT32_MAX * weight && rate * (UINT32_MAX - weight) <= UINT32_MAX * (UINT32_MAX - weight)
    ensures WeightedSum(f, rate, weight) <= UINT32_MAX * UINT32_MAX < U64
  {
    MulMonotone(f, UINT32_MAX, weight);
    MulMonotone(rate, UINT32_MAX, UINT32_MAX - weight);
    assert UINT32_MAX * weight + UINT32_MAX * (UINT32_MAX - weight) == UINT32_MAX * UINT32_MAX;
  }

  lemma EwmaBound(rate: nat, marked: nat, acked: nat, weight: nat)
    requires rate <= UINT32_MAX && marked <= acked && acked > 0 && weight <= UINT32_MAX
    ensures Ewma(rate, marked, acked, weight) <= UINT32_MAX
  {
    FractionBound(marked, acked);
    WeightedSumBound(Fraction(marked, acked), rate, weight);
    DivBound(WeightedSum(Fraction(marked, acked), rate, weight), UINT32_MAX, UINT32_MAX);
  }

  lemma RateStaysInRange(cc: Cc, p: Params, d: Deltas, rexmits: nat)
    requires ParamsOk(p) && CcOk(cc)
    ensures NewRate(cc, p, d, rexmits) <= UINT32_MAX
  {
    if UpdatesRate(cc, d, rexmits) {
      EwmaBound(cc.ecnRate, Marked(d), d.ackb, p.weight);
    }
  }

  /** An ECN cut lies between half the window and the window. */
  lemma EcnCutAtLeastHalf(window: nat, rate: nat)
    requires rate <= UINT32_MAX
    ensures window / 2 <= EcnCut(window, rate) <= window
  {
    var keep := UINT32_MAX - rate / 2;
    MulMonotone(keep, UINT32_MAX, window);
    assert window * keep == keep * window;
    DivBound(window * keep, UINT32_MAX, window);
    var half := window / 2;
    assert 2 * keep >= UINT32_MAX;
    MulMonotone(UINT32_MAX, 2 * keep, half);
    MulMonotone(2 * half, window, keep);
    assert (2 * half) * keep == (2 * keep) * half;
    var q := EcnCut(window, rate);
    assert window * keep == UINT32_MAX * q + (window * keep) % UINT32_MAX;
    if q < half { MulMonotone(q + 1, half, UINT32_MAX); }
  }

  /** Every tick leaves the window between one segment and the send buffer, and
      the average within 32 bits. */
  lemma StepKeepsBounds(cc: Cc, p: Params, d: Deltas, rexmits: nat)
    requires ParamsOk(p) && CcOk(cc)
    ensures NewRate(cc, p, d, rexmits) <= UINT32_MAX
    ensures CcOk(Step(cc, p, d, rexmits))
    ensures MSS <= Step(cc, p, d, rexmits).window <= p.txBufSize
  {
    RateStaysInRange(cc, p, d, rexmits);
  }

  // ----- the fixed-point average against the exact one -----

  /** The exact average, scaled like the fixed-point one. */
  function ExactEwma(exact: real, marked: nat, acked: nat, weight: nat): real
    requires acked > 0
  {
    var m := UINT32_MAX as real;
    ((marked as real * m / acked as real) * weight as real + exact * (m - weight as real)) / m
  }

  /** The rounding error stays below a fixed bound. */
  ghost predicate Close(rate: nat, exact: real, weight: nat)
    requires weight > 0
  {
    var m := UINT32_MAX as real;
    0.0 <= exact - rate as real < (m + weight as real) / weight as real
  }

  /** Euclidean division, seen in the reals. */
  lemma DivisionLoses(x: nat, d: nat)
    requires d > 0
    ensures (x / d) as real == (x as real - (x % d) as real) / d as real
    ensures 0.0 <= x as real / d as real - (x / d) as real < 1.0
  {
    var q, r := x / d, x % d;
    assert x == d * q + r;
    assert x as real == d as real * q as real + r as real;
    QuotientInReals(x as real, d as real, q as real, r as real);
  }

  lemma FractionError(marked: nat, acked: nat)
    requires acked > 0
    ensures 0.0 <= marked as real * UINT32_MAX as real / acked as real - Fraction(marked, acked) as real < 1.0
  {
    var x := Times(marked, UINT32_MAX);
    DivisionLoses(x, acked);
    assert x as real == marked as real * UINT32_MAX as real;
  }

  lemma SumInReals(f: nat, rate: nat, weight: nat)
    requires weight <= UINT32_MAX
    ensures WeightedSum(f, rate, weight) as real
         == f as real * weight as real + rate as real * (UINT32_MAX as real - weight as real)
  {
    var keep: nat := UINT32_MAX - weight;
    assert (f * weight) as real == f as real * weight as real;
    assert (rate * keep) as real == rate as real * keep as real;
  }

  /** What the division by 2^32 - 1 loses. */
  function Lost(f: nat, rate: nat, weight: nat): real
    requires weight <= UINT32_MAX
  {
    (WeightedSum(f, rate, weight) % UINT32_MAX) as real
  }

  lemma EwmaInReals(f: nat, rate: nat, weight: nat)
    requires weight <= UINT32_MAX
    ensures var m, w := UINT32_MAX as real, weight as real;
            (WeightedSum(f, rate, weight) / UINT32_MAX) as real
            == (f as real * w + rate as real * (m - w) - Lost(f, rate, weight)) / m
  {
    SumInReals(f, rate, weight);
    DivisionLoses(WeightedSum(f, rate, weight), UINT32_MAX);
  }

  /** The fixed-point update keeps the error below the bound. */
  lemma EwmaTracks(rate: nat, exact: real, marked: nat, acked: nat, weight: nat)
    requires 1 <= weight <= UINT32_MAX && acked > 0 && Close(rate, exact, weight)
    ensures Close(Ewma(rate, marked, acked, weight), ExactEwma(exact, marked, acked, weight), weight)
  {
    var m, w := UINT32_MAX as real, weight as real;
    var x, f := marked as real * m / acked as real, Fraction(marked, acked);
    FractionError(marked, acked);
    EwmaInReals(f, rate, weight);
    ErrorSum(x, f as real, exact, rate as real, w, m, Lost(f, rate, weight));
    ErrorStays(x - f as real, exact - rate as real, Lost(f, rate, weight), w, m);
  }

  // ----- the cut against the exact one -----

  /** The cut of section 3.3 of RFC 8257: the window loses half of its marked share. */
  function ExactCut(window: nat, rate: nat): real {
    window as real * (1.0 - rate as real / (2.0 * UINT32_MAX as real))
  }

  /** A whole number of bytes within one byte of the exact cut. */
  ghost predicate IsCut(window: nat, rate: nat, cut: nat) {
    -1.0 < cut as real - ExactCut(window, rate) <= 0.5
  }

  lemma EcnCutTracks(window: nat, rate: nat)
    requires window <= UINT32_MAX && rate <= UINT32_MAX
    ensures IsCut(window, rate, EcnCut(window, rate))
  {
    var keep: nat := UINT32_MAX - rate / 2;
    var x := Times(window, keep);
    DivisionLoses(x, UINT32_MAX);
    assert x as real == window as real * keep as real;
    CutInReals(window as real, (rate / 2) as real, (rate % 2) as real, UINT32_MAX as real,
               x as real / UINT32_MAX as real - EcnCut(window, rate) as real);
    assert rate as real == 2.0 * (rate / 2) as real + (rate % 2) as real;
  }

  /** A higher marked share never leaves a larger window. */
  lemma HigherRateCutsMore(window: nat, lower: nat, higher: nat)
    requires lower <= higher <= UINT32_MAX
    ensures EcnCut(window, higher) <= EcnCut(window, lower)
  {
    var a: nat, b: nat := UINT32_MAX - higher / 2, UINT32_MAX - lower / 2;
    MulMonotone(a, b, window);
    assert window * a == a * window && window * b == b * window;
    var q := window * b / UINT32_MAX;
    assert window * b < UINT32_MAX * (q + 1);
    DivBelow(window * a, UINT32_MAX, q + 1);
  }

  lemma DivBelow(x: int, d: int, q: int)
    requires d > 0 && x < d * q
    ensures x / d < q
  {
    var k := x / d;
    assert x == d * k + x % d;
    assert d * (k - q) == d * k - d * q;
    if k >= q && k != q { MulAtLeast(d, k - q); }
  }

  // ----- what a tick does, case by case -----

  /** `w` is `raw` brought between one segment and the transmit buffer. */
  predicate Limited(w: nat, raw: nat, p: Params) {
    && (raw < MSS ==> w == MSS)
    && (MSS <= raw <= p.txBufSize ==> w == raw)
    && (p.txBufSize < raw ==> w == p.txBufSize)
  }

  /** Growth by `x` bytes, or none if the sum does not fit 32 bits. */
  predicate GrownBy(w: nat, window: nat, x: nat, p: Params) {
    && (window + x < U32 ==> Limited(w, window + x, p))
    && (window + x >= U32 ==> Limited(w, window, p))
  }

  /** `x` bytes are one segment per acknowledged window. */
  predicate IsIncrement(x: nat, ackb: nat, window: nat) {
    x * window <= ackb * MSS < (x + 1) * window
  }

  /** After a drop or a retransmission the window is half the old one, and slow start
      is over. */
  lemma LossHalves(cc: Cc, p: Params, d: Deltas, rexmits: nat)
    requires ParamsOk(p) && CcOk(cc) && (d.drops > 0 || rexmits > 0)
    ensures NewRate(cc, p, d, rexmits) <= UINT32_MAX
    ensures var cc' := Step(cc, p, d, rexmits);
            Limited(cc'.window, cc.window / 2, p) && cc'.ecnRate == cc.ecnRate && !cc'.slowstart
  {
    RateStaysInRange(cc, p, d, rexmits);
  }

  /** Slow start without congestion: the window grows by the acknowledged bytes. */
  lemma SlowStartGrows(cc: Cc, p: Params, d: Deltas)
    requires ParamsOk(p) && CcOk(cc) && cc.slowstart && d.drops == 0 && d.ecnb == 0
    ensures NewRate(cc, p, d, 0) <= UINT32_MAX
    ensures var cc' := Step(cc, p, d, 0);
            GrownBy(cc'.window, cc.window, d.ackb, p) && cc'.ecnRate == cc.ecnRate && cc'.slowstart
  {
    RateStaysInRange(cc, p, d, 0);
  }

  /** Marks without loss: the window is cut by the updated rate, and slow start is
      over. */
  lemma MarksCut(cc: Cc, p: Params, d: Deltas)
    requires ParamsOk(p) && CcOk(cc) && d.drops == 0 && d.ecnb > 0
    ensures NewRate(cc, p, d, 0) <= UINT32_MAX
    ensures var cc' := Step(cc, p, d, 0);
            && !cc'.slowstart
            && exists cut: nat :: IsCut(cc.window, cc'.ecnRate, cut) && Limited(cc'.window, cut, p)
  {
    RateStaysInRange(cc, p, d, 0);
    EcnCutTracks(cc.window, NewRate(cc, p, d, 0));
  }

  /** Congestion avoidance without marks: one segment per window. */
  lemma AvoidanceGrows(cc: Cc, p: Params, d: Deltas)
    requires ParamsOk(p) && CcOk(cc) && !cc.slowstart && d.drops == 0 && d.ecnb == 0
    ensures NewRate(cc, p, d, 0) <= UINT32_MAX
    ensures var cc' := Step(cc, p, d, 0);
            && !cc'.slowstart
            && exists x: nat :: IsIncrement(x, d.ackb, cc.window) && GrownBy(cc'.window, cc.window, x, p)
  {
    RateStaysInRange(cc, p, d, 0);
    IncrementMeaning(d.ackb, cc.window);
    assert GrownBy(Step(cc, p, d, 0).window, cc.window, Increment(d.ackb, cc.window), p);
  }

  lemma IncrementMeaning(ackb: nat, window: nat)
    requires window > 0
    ensures IsIncrement(Increment(ackb, window), ackb, window)
  {
    var bytes: nat := ackb * MSS;
    var x := bytes / window;
    assert bytes == window * x + bytes % window;
    assert x * window == window * x && (x + 1) * window == window * x + window;
  }

  /** The rate follows the marked share of the acknowledged bytes in every tick that
      acknowledges any, unless there was a loss or slow start goes on; otherwise it
      stays. */
  lemma RateFollowsMarks(cc: Cc, p: Params, d: Deltas, rexmits: nat, exact: real)
    requires ParamsOk(p) && CcOk(cc) && Close(cc.ecnRate, exact, p.weight)
    ensures NewRate(cc, p, d, rexmits) <= UINT32_MAX
    ensures var rate := Step(cc, p, d, rexmits).ecnRate;
            if d.ackb > 0 && d.drops == 0 && rexmits == 0 && (!cc.slowstart || d.ecnb > 0)
            then Close(rate, ExactEwma(exact, if d.ecnb < d.ackb then d.ecnb else d.ackb, d.ackb, p.weight), p.weight)
            else rate == cc.ecnRate
  {
    RateStaysInRange(cc, p, d, rexmits);
    StepTracks(cc, exact, p, TickIn(d, rexmits));
  }

  // ----- whole runs -----

  /** One tick of a run: the counter deltas and the retransmissions seen. */
  datatype TickIn = TickIn(d: Deltas, rexmits: nat)

  function ExactStep(cc: Cc, exact: real, p: Params, i: TickIn): real {
    if UpdatesRate(cc, i.d, i.rexmits) then ExactEwma(exact, Marked(i.d), i.d.ackb, p.weight) else exact
  }

  /** The controller and the exact average after a sequence of ticks. */
  ghost predicate IsRun(p: Params, ticks: seq<TickIn>, states: seq<Cc>, exact: seq<real>)
    requires ParamsOk(p)
  {
    && |states| == |exact| == |ticks| + 1
    && states[0] == INITIAL && exact[0] == 0.0
    && (forall t :: 0 <= t < |ticks| ==> Follows(p, ticks[t], states[t], exact[t], states[t + 1], exact[t + 1]))
  }

  predicate Follows(p: Params, i: TickIn, cc: Cc, exact: real, cc': Cc, exact': real)
    requires p.weight <= UINT32_MAX
  {
    && exact' == ExactStep(cc, exact, p, i)
    && (cc.window > 0 && NewRate(cc, p, i.d, i.rexmits) <= UINT32_MAX ==> cc' == Step(cc, p, i.d, i.rexmits))
  }

  /** In every run the window after every tick is between one segment and the
      send buffer, the average fits 32 bits, and the average is within a fixed
      distance of the exact one, which does not grow with the length of the run. */
  lemma {:induction false} RunStaysInBounds(p: Params, ticks: seq<TickIn>, states: seq<Cc>, exact: seq<real>, t: nat)
    requires ParamsOk(p) && IsRun(p, ticks, states, exact) && t <= |ticks|
    ensures CcOk(states[t]) && Close(states[t].ecnRate, exact[t], p.weight)
    ensures t > 0 ==> MSS <= states[t].window <= p.txBufSize
  {
    if t == 0 {
      ZeroIsClose(p.weight);
    } else {
      var s := t - 1;
      RunStaysInBounds(p, ticks, states, exact, s);
      assert Follows(p, ticks[s], states[s], exact[s], states[s + 1], exact[s + 1]);
      StepKeepsBounds(states[s], p, ticks[s].d, ticks[s].rexmits);
      StepTracks(states[s], exact[s], p, ticks[s]);
    }
  }

  lemma ZeroIsClose(weight: nat)
    requires weight > 0
    ensures Close(0, 0.0, weight)
  {
    var m, w := UINT32_MAX as real, weight as real;
    assert w * ((m + w) / w) == m + w;
    RealMulLess(w, 0.0, (m + w) / w);
  }

  lemma StepTracks(cc: Cc, exact: real, p: Params, i: TickIn)
    requires ParamsOk(p) && Close(cc.ecnRate, exact, p.weight)
    ensures Close(NewRate(cc, p, i.d, i.rexmits), ExactStep(cc, exact, p, i), p.weight)
  {
    if UpdatesRate(cc, i.d, i.rexmits) {
      EwmaTracks(cc.ecnRate, exact, Marked(i.d), i.d.ackb, p.weight);
    }
  }
}
