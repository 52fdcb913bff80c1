/** The other half of the timer: a stalled RPC does time out, and a server's RPC
    whose response is not acknowledged does ask for the acknowledgement, each within
    a fixed number of ticks. */
module HomaTimerLive {
  import opened Basics
  import opened Words
  import opened HomaTimer

  /** Nothing can move without the peer: the next packet ends beyond what is granted
      (or all of them are out), or a packet that was granted has not arrived. */
  predicate Stalled(cfg: Config, o: Snapshot)
    requires cfg.mss > 0
  {
    match o.phase
    case Dead => false
    case InService => true
    case Outgoing =>
      || o.messageLength <= o.nextXmitOffset
      || (o.seen.granted < o.messageLength && o.seen.granted < o.nextXmitOffset + cfg.mss)
    case Incoming =>
      var received, whole := o.messageLength - o.seen.bytesRemaining, o.seen.incoming / cfg.mss * cfg.mss;
      received < whole || (received == whole && o.seen.incoming == o.messageLength)
  }

  /** The widths of the fields, and no more bytes missing than the message has. */
  predicate SnapshotOk(o: Snapshot) {
    o.messageLength < U32 && o.seen.bytesRemaining <= o.messageLength
  }

  /** RPCs that RESENDs are for: a client's, and a server's that receives. */
  predicate TimesOut(o: Snapshot) { IsClient(o.id) || o.phase.Incoming? }

  /** A server's RPC whose response is out. */
  predicate Answered(o: Snapshot) {
    !IsClient(o.id) && o.phase.Outgoing? && o.messageLength <= o.nextXmitOffset
  }

  /** Unless an acknowledgement is due, a check starts the count afresh exactly when the
      RPC is not one of these, is not stalled, or has made progress. */
  lemma ResetsIff(cfg: Config, tick: nat, sh: Shadow, o: Snapshot, sent: bool)
    requires ConfigOk(cfg) && !o.phase.Dead? && SnapshotOk(o) && !Answered(o)
    ensures CheckTimeout(cfg, tick, sh, o, sent).1.Reset? <==>
              !TimesOut(o) || !Stalled(cfg, o) || o.seen != sh.seen
  {
    SendsIff(cfg, o);
    AwaitsIff(cfg, o);
  }

  lemma SendsIff(cfg: Config, o: Snapshot)
    requires cfg.mss > 0 && SnapshotOk(o)
    ensures o.phase.Outgoing? ==> (CanStillSend(cfg, o) <==> !Stalled(cfg, o))
  {
  }

  lemma AwaitsIff(cfg: Config, o: Snapshot)
    requires cfg.mss > 0 && SnapshotOk(o)
    ensures o.phase.Incoming? ==> (WaitsForGrant(cfg, o) <==> !Stalled(cfg, o))
  {
    var received := o.messageLength - o.seen.bytesRemaining;
    assert received % U64 == received;
  }

  // ----- a stalled RPC -----

  /** Ticks from one RESEND to the next. */
  function Period(cfg: Config): nat {
    if cfg.resendTick <= 2 then 1 else cfg.resendTick - 1
  }

  /** The tick counts fit their 32-bit fields. */
  predicate CountsFit(cfg: Config) {
    cfg.resendTick + cfg.abortResend < U32
  }

  predicate StalledInput(cfg: Config, i: Input, seen: Progress, busy: nat)
    requires cfg.mss > 0
  {
    && i.found.Some? && i.socketOpen
    && var o := i.found.value;
    && TimesOut(o) && SnapshotOk(o) && Stalled(cfg, o) && o.seen == seen && o.busyCount == busy
  }

  /** At tick `t` of the run the RPC is there and stalled, with these fields. */
  predicate StalledAt(cfg: Config, run: Run, t: nat, seen: Progress, busy: nat)
    requires cfg.mss > 0 && t < |run.inputs|
  {
    StalledInput(cfg, run.inputs[t], seen, busy)
  }

  /** The counts of a client's record stay below what the thresholds allow. */
  predicate CountsOk(cfg: Config, sh: Shadow) {
    sh.resendTry <= cfg.abortResend && sh.silentTicks <= cfg.resendTick + sh.resendTry
  }

  predicate InStep(cfg: Config, st: Option<Shadow>, seen: Progress, busy: nat) {
    st.Some? && st.value.seen == seen && st.value.busyCount == busy && CountsOk(cfg, st.value)
  }

  /** How far the record is on its way to the abort, in ticks. */
  function Spent(cfg: Config, sh: Shadow): int {
    Times(sh.resendTry, Period(cfg)) + Min(sh.silentTicks, Period(cfg) - 1)
  }

  function Times(a: nat, b: nat): nat { a * b }

  lemma OneMoreTime(a: nat, b: nat)
    ensures Times(a + 1, b) == Times(a, b) + b
  {
  }

  /** What a check does to a stalled RPC that is in step. */
  lemma StalledCheck(cfg: Config, tick: nat, sh: Shadow, o: Snapshot, sent: bool)
    requires ConfigOk(cfg) && TimesOut(o) && SnapshotOk(o) && Stalled(cfg, o) && o.seen == sh.seen
    ensures CheckTimeout(cfg, tick, sh, o, sent)
         == if sh.silentTicks < cfg.resendTick - 1 then (sh, Waiting)
            else (sh.(resendTry := (sh.resendTry + 1) % U32, silentTicks := if sent then 0 else sh.silentTicks),
                  Attempt(sent))
  {
    SendsIff(cfg, o);
    AwaitsIff(cfg, o);
  }

  /** The record after one more stalled tick. */
  function Later(cfg: Config, tick: nat, sh: Shadow, sent: bool): Shadow {
    if sh.silentTicks + 1 < cfg.resendTick - 1
    then sh.(lastScanTick := tick, silentTicks := sh.silentTicks + 1)
    else sh.(lastScanTick := tick, resendTry := sh.resendTry + 1, silentTicks := if sent then 0 else sh.silentTicks + 1)
  }

  lemma StalledTick(cfg: Config, tick: nat, sh: Shadow, i: Input, seen: Progress, busy: nat)
    requires ConfigOk(cfg) && CountsFit(cfg) && StalledInput(cfg, i, seen, busy)
    requires InStep(cfg, Some(sh), seen, busy) && sh.resendTry < cfg.abortResend
    ensures Tick(cfg, tick, Some(sh), i)
         == (Some(Later(cfg, tick, sh, i.sent)),
             if sh.silentTicks + 1 < cfg.resendTick - 1 then Waiting else Attempt(i.sent))
  {
    StalledCheck(cfg, tick, Noticed(tick, sh, i.found.value), i.found.value, i.sent);
  }

  /** Every tick brings it at least one tick closer to the abort. */
  lemma Nearer(cfg: Config, tick: nat, sh: Shadow, sent: bool)
    requires ConfigOk(cfg) && CountsOk(cfg, sh) && sh.resendTry < cfg.abortResend
    ensures CountsOk(cfg, Later(cfg, tick, sh, sent)) && Spent(cfg, Later(cfg, tick, sh, sent)) > Spent(cfg, sh)
  {
    OneMoreTime(sh.resendTry, Period(cfg));
  }

  /** The first stalled tick: the record is in step afterwards, unless it was aborted. */
  lemma FirstStalledTick(cfg: Config, tick: nat, st: Option<Shadow>, i: Input, seen: Progress, busy: nat)
    requires ConfigOk(cfg) && CountsFit(cfg) && StalledInput(cfg, i, seen, busy)
    requires st.Some? ==> CountsOk(cfg, st.value)
    ensures var (st', e) := Tick(cfg, tick, st, i);
            e.Aborted? || InStep(cfg, st', seen, busy)
  {
    var o := i.found.value;
    SendsIff(cfg, o);
    AwaitsIff(cfg, o);
  }

  lemma {:induction false} CountsAlwaysOk(cfg: Config, run: Run, t: nat)
    requires ConfigOk(cfg) && CountsFit(cfg) && IsRun(cfg, run) && ClientRun(run) && t <= |run.inputs|
    ensures run.states[t].Some? ==> CountsOk(cfg, run.states[t].value)
  {
    if t > 0 {
      CountsAlwaysOk(cfg, run, t - 1);
      assert Ticked(cfg, run, t - 1);
      CountsStayOk(cfg, At(run, t - 1), run.states[t - 1], run.inputs[t - 1]);
    }
  }

  lemma CountsStayOk(cfg: Config, tick: nat, st: Option<Shadow>, i: Input)
    requires ConfigOk(cfg) && CountsFit(cfg) && (st.Some? ==> CountsOk(cfg, st.value))
    requires i.found.Some? ==> IsClient(i.found.value.id)
    ensures var st' := Tick(cfg, tick, st, i).0; st'.Some? ==> CountsOk(cfg, st'.value)
  {
  }

  ghost predicate NoAbort(run: Run, lo: nat, hi: nat)
    requires hi <= |run.events|
  {
    forall t :: lo <= t < hi ==> !run.events[t].Aborted?
  }

  lemma {:induction false} Countdown(cfg: Config, run: Run, r: nat, n: nat, seen: Progress, busy: nat)
    requires ConfigOk(cfg) && CountsFit(cfg) && IsRun(cfg, run) && r + n <= |run.inputs|
    requires InStep(cfg, run.states[r], seen, busy) && NoAbort(run, r, r + n)
    requires forall t :: r <= t < r + n ==> StalledAt(cfg, run, t, seen, busy)
    ensures InStep(cfg, run.states[r + n], seen, busy) && Spent(cfg, run.states[r + n].value) >= n
  {
    if n > 0 {
      var t := r + n - 1;
      Countdown(cfg, run, r, n - 1, seen, busy);
      assert Ticked(cfg, run, t) && StalledAt(cfg, run, t, seen, busy);
      StalledTick(cfg, At(run, t), run.states[t].value, run.inputs[t], seen, busy);
      Nearer(cfg, At(run, t), run.states[t].value, run.inputs[t].sent);
    }
  }

  /** Ticks after which a stalled RPC is certainly gone. */
  function Deadline(cfg: Config): nat { Times(cfg.abortResend, Period(cfg)) + 1 }

  lemma SpentAll(cfg: Config, sh: Shadow)
    requires ConfigOk(cfg) && sh.resendTry <= cfg.abortResend
    requires Spent(cfg, sh) >= Times(cfg.abortResend, Period(cfg))
    ensures sh.resendTry == cfg.abortResend
  {
    if sh.resendTry < cfg.abortResend {
      OneMoreTime(sh.resendTry, Period(cfg));
      TimesAtMost(sh.resendTry + 1, cfg.abortResend, Period(cfg));
    }
  }

  lemma {:induction false} TimesAtMost(a: nat, b: nat, c: nat)
    requires a <= b
    ensures Times(a, c) <= Times(b, c)
  {
    if a < b {
      TimesAtMost(a, b - 1, c);
      OneMoreTime(b - 1, c);
    }
  }

  /** A client's RPC that is stalled at every tick, with the same progress and busy
      count, is aborted within `abortResend` periods and one tick, whatever its record
      held before and whether or not the RESENDs could be sent. */
  lemma StalledAborts(cfg: Config, run: Run, r: nat, seen: Progress, busy: nat)
    requires ConfigOk(cfg) && CountsFit(cfg) && IsRun(cfg, run) && ClientRun(run)
    requires r + Deadline(cfg) < |run.inputs|
    requires forall t :: r <= t <= r + Deadline(cfg) ==> StalledAt(cfg, run, t, seen, busy)
    ensures exists t :: r <= t <= r + Deadline(cfg) && run.events[t].Aborted?
  {
    var n := Deadline(cfg) - 1;
    if NoAbort(run, r, r + n + 1) {
      CountsAlwaysOk(cfg, run, r);
      assert Ticked(cfg, run, r) && StalledAt(cfg, run, r, seen, busy);
      FirstStalledTick(cfg, At(run, r), run.states[r], run.inputs[r], seen, busy);
      Countdown(cfg, run, r + 1, n, seen, busy);
      var last := r + 1 + n;
      SpentAll(cfg, run.states[last].value);
      assert Ticked(cfg, run, last) && StalledAt(cfg, run, last, seen, busy);
      assert run.events[last].Aborted?;
    } else {
      var t :| r <= t < r + n + 1 && run.events[t].Aborted?;
    }
  }

  /** The record of tick `r`, unchanged but for `n` silent ticks. */
  predicate SilentFor(run: Run, r: nat, n: nat)
    requires r + n < |run.states| && run.states[r].Some?
  {
    && run.states[r + n].Some?
    && run.states[r + n].value.(lastScanTick := 0) == run.states[r].value.(lastScanTick := 0, silentTicks := n)
  }

  /** From a record whose count is fresh, a stalled RPC waits, and its RESEND is due
      when `resendTick - 1` silent ticks are over, not before. */
  lemma {:induction false} TryAfterSilence(cfg: Config, run: Run, r: nat, n: nat, seen: Progress, busy: nat)
    requires ConfigOk(cfg) && CountsFit(cfg) && IsRun(cfg, run) && n < Period(cfg) && r + n < |run.inputs|
    requires InStep(cfg, run.states[r], seen, busy)
    requires run.states[r].value.silentTicks == 0 && run.states[r].value.resendTry < cfg.abortResend
    requires forall t :: r <= t <= r + n ==> StalledAt(cfg, run, t, seen, busy)
    ensures SilentFor(run, r, n)
    ensures run.events[r + n].Waiting? || run.events[r + n].Attempt?
    ensures run.events[r + n].Attempt? <==> n + 1 == Period(cfg)
  {
    var t := r + n;
    if n > 0 {
      TryAfterSilence(cfg, run, r, n - 1, seen, busy);
      assert Ticked(cfg, run, t - 1) && StalledAt(cfg, run, t - 1, seen, busy);
      StalledTick(cfg, At(run, t - 1), run.states[t - 1].value, run.inputs[t - 1], seen, busy);
    }
    assert Ticked(cfg, run, t) && StalledAt(cfg, run, t, seen, busy);
    StalledTick(cfg, At(run, t), run.states[t].value, run.inputs[t], seen, busy);
  }

  /** A fresh record of a stalled RPC, all of whose RESENDs go out up to tick `hi`. */
  ghost predicate StalledFrom(cfg: Config, run: Run, r: nat, hi: nat, seen: Progress, busy: nat)
    requires cfg.mss > 0 && r <= hi <= |run.inputs| && |run.states| == |run.inputs| + 1
  {
    && InStep(cfg, run.states[r], seen, busy)
    && run.states[r].value.silentTicks == 0 && run.states[r].value.resendTry == 0
    && (forall t :: r <= t < hi ==> StalledAt(cfg, run, t, seen, busy))
    && (forall t :: r <= t < hi ==> run.inputs[t].sent)
  }

  /** After `j` periods it has made `j` tries and starts to wait again. */
  lemma {:induction false} TriesSoFar(cfg: Config, run: Run, r: nat, j: nat, seen: Progress, busy: nat)
    requires ConfigOk(cfg) && CountsFit(cfg) && IsRun(cfg, run) && j <= cfg.abortResend
    requires r + Times(j, Period(cfg)) <= |run.inputs|
    requires StalledFrom(cfg, run, r, r + Times(j, Period(cfg)), seen, busy)
    ensures var st := run.states[r + Times(j, Period(cfg))];
            InStep(cfg, st, seen, busy) && st.value.silentTicks == 0 && st.value.resendTry == j
  {
    if j > 0 {
      OneMoreTime(j - 1, Period(cfg));
      var lo, t := r + Times(j - 1, Period(cfg)), r + Times(j, Period(cfg)) - 1;
      TriesSoFar(cfg, run, r, j - 1, seen, busy);
      TryAfterSilence(cfg, run, lo, Period(cfg) - 1, seen, busy);
      assert Ticked(cfg, run, t) && StalledAt(cfg, run, t, seen, busy);
      StalledTick(cfg, At(run, t), run.states[t].value, run.inputs[t], seen, busy);
    }
  }

  /** So its RESENDs are due at the end of every period, and at no other tick. */
  lemma StalledSchedule(cfg: Config, run: Run, r: nat, j: nat, n: nat, seen: Progress, busy: nat)
    requires ConfigOk(cfg) && CountsFit(cfg) && IsRun(cfg, run) && j < cfg.abortResend && n < Period(cfg)
    requires r + Times(j, Period(cfg)) + n < |run.inputs|
    requires StalledFrom(cfg, run, r, r + Times(j, Period(cfg)) + n + 1, seen, busy)
    ensures run.events[r + Times(j, Period(cfg)) + n] == if n + 1 == Period(cfg) then Attempt(true) else Waiting
  {
    var t := r + Times(j, Period(cfg)) + n;
    TriesSoFar(cfg, run, r, j, seen, busy);
    TryAfterSilence(cfg, run, r + Times(j, Period(cfg)), n, seen, busy);
    assert Ticked(cfg, run, t) && StalledAt(cfg, run, t, seen, busy);
    StalledTick(cfg, At(run, t), run.states[t].value, run.inputs[t], seen, busy);
  }

  /** And it is aborted at the tick after the last of them. */
  lemma StalledAbortsOnTime(cfg: Config, run: Run, r: nat, seen: Progress, busy: nat)
    requires ConfigOk(cfg) && CountsFit(cfg) && IsRun(cfg, run)
    requires r + Times(cfg.abortResend, Period(cfg)) < |run.inputs|
    requires StalledFrom(cfg, run, r, r + Times(cfg.abortResend, Period(cfg)) + 1, seen, busy)
    ensures run.events[r + Times(cfg.abortResend, Period(cfg))].Aborted?
  {
    var t := r + Times(cfg.abortResend, Period(cfg));
    TriesSoFar(cfg, run, r, cfg.abortResend, seen, busy);
    assert Ticked(cfg, run, t) && StalledAt(cfg, run, t, seen, busy);
  }

  // ----- a busy peer -----

  /** For the last `n` ticks before tick `t` every snapshot showed this busy count. */
  ghost predicate QuietFor(run: Run, t: nat, n: nat, busy: nat)
    requires t <= |run.inputs|
  {
    n <= t && forall j :: t - n <= j < t ==> run.inputs[j].found.Some? && run.inputs[j].found.value.busyCount == busy
  }

  /** The silent ticks of a record are ticks without a word from the peer. */
  lemma {:induction false} SilenceIsQuiet(cfg: Config, run: Run, t: nat)
    requires ConfigOk(cfg) && CountsFit(cfg) && IsRun(cfg, run) && ClientRun(run) && t <= |run.inputs|
    ensures run.states[t].Some? ==>
              QuietFor(run, t, run.states[t].value.silentTicks, run.states[t].value.busyCount)
  {
    if t > 0 && run.states[t].Some? {
      var u := t - 1;
      SilenceIsQuiet(cfg, run, u);
      CountsAlwaysOk(cfg, run, u);
      assert Ticked(cfg, run, u);
    }
  }

  /** So a BUSY packet postpones the next RESEND by a whole period: one is due only
      after `resendTick - 1` ticks with the same busy count. */
  lemma BusyPostpones(cfg: Config, run: Run, t: nat)
    requires ConfigOk(cfg) && CountsFit(cfg) && IsRun(cfg, run) && ClientRun(run) && t < |run.inputs|
    requires run.events[t].Attempt?
    ensures run.inputs[t].found.Some?
    ensures cfg.resendTick - 1 <= t + 1
    ensures QuietFor(run, t + 1, cfg.resendTick - 1, run.inputs[t].found.value.busyCount)
  {
    SilenceIsQuiet(cfg, run, t);
    CountsAlwaysOk(cfg, run, t);
    assert Ticked(cfg, run, t);
  }

  // ----- a server RPC that waits for an acknowledgement -----

  /** At tick `t` the response is out, and its acknowledgement has not come. */
  predicate AwaitsAck(run: Run, t: nat)
    requires t < |run.inputs|
  {
    var i := run.inputs[t];
    i.found.Some? && i.socketOpen && Answered(i.found.value)
  }

  const HALF: nat := 0x8000_0000

  /** The comparison of tick counts is right across the wrap-around: it holds from
      `needAckTick` ticks after the start on, for half the range of the counter. */
  lemma AckDueIff(cfg: Config, start: nat, i: nat)
    requires 0 < cfg.needAckTick <= HALF && i < cfg.needAckTick + HALF
    ensures AckDue(cfg, (start + i) % U32, start % U32) <==> i >= cfg.needAckTick
  {
    WrappedDistance(start, i, cfg.needAckTick - 1);
    var d := cfg.needAckTick - 1 - i;
    if d < 0 {
      DivModUnique(d, U32, -1, d + U32);
    }
  }

  lemma WrappedDistance(start: nat, i: nat, n: nat)
    ensures (start % U32 + n - (start + i) % U32) % U32 == (n - i) % U32
  {
    var a, b := start / U32, (start + i) / U32;
    assert start % U32 + n - (start + i) % U32 == (n - i) + U32 * (b - a);
    ModPlus(n - i, b - a);
  }

  lemma ModPlus(x: int, k: int)
    ensures (x + U32 * k) % U32 == x % U32
  {
    DivModUnique(x + U32 * k, U32, x / U32 + k, x % U32);
  }

  /** The record `k` ticks after the wait began. */
  predicate AckCount(cfg: Config, run: Run, r: nat, k: nat)
    requires r + k < |run.states|
  {
    && run.states[r + k].Some?
    && run.states[r + k].value.doneTimerTicks == At(run, r)
    && run.states[r + k].value.resendTry == if k <= cfg.needAckTick then 0 else k - cfg.needAckTick
  }

  lemma AckTick(cfg: Config, run: Run, r: nat, k: nat)
    requires ConfigOk(cfg) && cfg.needAckTick + cfg.abortResend <= HALF && IsRun(cfg, run)
    requires 0 < k < cfg.needAckTick + cfg.abortResend && r + k < |run.inputs| && At(run, r) != 0
    requires AckCount(cfg, run, r, k) && AwaitsAck(run, r + k)
    ensures AckCount(cfg, run, r, k + 1)
    ensures run.events[r + k] == if k < cfg.needAckTick then AckWait else NeedAck
  {
    assert Ticked(cfg, run, r + k);
    AckDueIff(cfg, run.tick0 + r, k);
    assert run.tick0 + (r + k) == (run.tick0 + r) + k;
  }

  lemma {:induction false} AckCounts(cfg: Config, run: Run, r: nat, n: nat)
    requires ConfigOk(cfg) && cfg.needAckTick + cfg.abortResend <= HALF && IsRun(cfg, run)
    requires 0 < n <= cfg.needAckTick + cfg.abortResend && r + n <= |run.inputs| && At(run, r) != 0
    requires run.states[r].Some? && run.states[r].value.doneTimerTicks == 0
    requires run.states[r].value.resendTry != cfg.abortResend
    requires forall t :: r <= t < r + n ==> AwaitsAck(run, t)
    ensures AckCount(cfg, run, r, n)
    ensures forall t :: r <= t < r + n ==> run.events[t] == if t < r + cfg.needAckTick then AckWait else NeedAck
  {
    if n == 1 {
      assert Ticked(cfg, run, r) && AwaitsAck(run, r);
    } else {
      AckCounts(cfg, run, r, n - 1);
      AckTick(cfg, run, r, n - 1);
    }
  }

  /** When the wait for the acknowledgement begins: at the first tick, or at the next
      one if the first has number 0, the value that stands for no wait. */
  function WaitBegins(run: Run, r: nat): nat { if At(run, r) == 0 then r + 1 else r }

  lemma AfterTickZero(cfg: Config, run: Run, r: nat)
    requires ConfigOk(cfg) && IsRun(cfg, run) && r < |run.inputs| && At(run, r) == 0 && AwaitsAck(run, r)
    requires run.states[r].Some? && run.states[r].value.doneTimerTicks == 0
    requires run.states[r].value.resendTry != cfg.abortResend
    ensures run.events[r].AckWait? && At(run, r + 1) != 0
    ensures run.states[r + 1].Some? && run.states[r + 1].value.doneTimerTicks == 0
    ensures run.states[r + 1].value.resendTry == 0
  {
    assert Ticked(cfg, run, r);
    assert (run.tick0 + r + 1) % U32 == (At(run, r) + 1) % U32;
  }

  /** A server RPC whose response stays unacknowledged: `needAckTick` ticks of waiting,
      then a NEED_ACK at each of the next `abortResend` ticks, and then the abort. */
  lemma UnackedAborts(cfg: Config, run: Run, r: nat)
    requires ConfigOk(cfg) && cfg.needAckTick + cfg.abortResend <= HALF && IsRun(cfg, run)
    requires WaitBegins(run, r) + cfg.needAckTick + cfg.abortResend < |run.inputs|
    requires run.states[r].Some? && run.states[r].value.doneTimerTicks == 0
    requires run.states[r].value.resendTry != cfg.abortResend
    requires forall t :: r <= t <= WaitBegins(run, r) + cfg.needAckTick + cfg.abortResend ==> AwaitsAck(run, t)
    ensures var due := WaitBegins(run, r) + cfg.needAckTick;
            && (forall t :: r <= t < due ==> run.events[t].AckWait?)
            && (forall t :: due <= t < due + cfg.abortResend ==> run.events[t].NeedAck?)
            && run.events[due + cfg.abortResend].Aborted?
  {
    var s, n := WaitBegins(run, r), cfg.needAckTick + cfg.abortResend;
    if s == r + 1 {
      AfterTickZero(cfg, run, r);
    }
    AckCounts(cfg, run, s, n);
    assert Ticked(cfg, run, s + n) && AwaitsAck(run, s + n);
  }
}
