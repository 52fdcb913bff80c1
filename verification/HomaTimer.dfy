/** The retransmission timer of the Homa control plane: what one tick does to
    the shadow record of one RPC, and what that means over whole runs. */
module HomaTimer {
  import opened Basics
  import opened Words

  /** The tick constants and the packet payload size. */
  datatype Config = Config(resendTick: nat, abortResend: nat, needAckTick: nat, mss: nat)

  predicate ConfigOk(cfg: Config) {
    0 < cfg.resendTick && 0 < cfg.abortResend < U32 && 0 < cfg.needAckTick && 0 < cfg.mss
  }

  datatype Phase = Dead | Outgoing | Incoming | InService

  /** The four observed fields whose change counts as progress. */
  datatype Progress = Progress(bytesRemaining: nat, granted: nat, incoming: nat, resendCount: nat)

  /** A snapshot of the RPC's eBPF state. */
  datatype Snapshot = Snapshot(id: nat, phase: Phase, busyCount: nat, messageLength: nat, nextXmitOffset: nat,
                               seen: Progress)

  datatype Shadow = Shadow(seen: Progress, busyCount: nat, lastScanTick: nat, doneTimerTicks: nat, silentTicks: nat,
                           resendTry: nat)

  /** What a tick did for an RPC. `Attempt(sent)`: a RESEND was due, and `sent`
      says whether it could be built and transmitted. */
  datatype Event = Unknown | Deleted | Inserted | Aborted | Reset | Waiting | Attempt(sent: bool) | AckWait | NeedAck

  predicate IsClient(id: nat) { id % 2 == 0 }

  predicate AckDue(cfg: Config, tick: nat, done: nat) {
    (done + cfg.needAckTick - 1 - tick) % U32 >= 0x8000_0000
  }

  /** Granted bytes that the sender has not transmitted yet. */
  predicate CanStillSend(cfg: Config, o: Snapshot) {
    && o.phase.Outgoing? && o.nextXmitOffset < o.messageLength
    && var left := o.messageLength - o.nextXmitOffset;
    && (o.nextXmitOffset + if left < cfg.mss then left else cfg.mss) % U64 <= o.seen.granted
  }

  /** Everything granted so far has been received. */
  predicate WaitsForGrant(cfg: Config, o: Snapshot)
    requires cfg.mss > 0
  {
    var received := (o.messageLength - o.seen.bytesRemaining) % U64;
    var whole := (o.seen.incoming / cfg.mss) * cfg.mss;
    received > whole || (received == whole && o.seen.incoming != o.messageLength)
  }

  function Cleared(sh: Shadow): Shadow { sh.(silentTicks := 0, resendTry := 0) }

  function CheckTimeout(cfg: Config, tick: nat, sh: Shadow, o: Snapshot, sent: bool): (Shadow, Event)
    requires cfg.mss > 0
  {
    if !IsClient(o.id) && o.phase.Outgoing? && o.nextXmitOffset >= o.messageLength then
      if sh.doneTimerTicks == 0 then (sh.(doneTimerTicks := tick, resendTry := 0), AckWait)
      else if AckDue(cfg, tick, sh.doneTimerTicks) then (sh.(resendTry := (sh.resendTry + 1) % U32), NeedAck)
      else (sh, AckWait)
    else if CanStillSend(cfg, o) then (Cleared(sh), Reset)
    else if o.phase.Incoming? && WaitsForGrant(cfg, o) then (Cleared(sh), Reset)
    else if !o.phase.Incoming? && !IsClient(o.id) then (Cleared(sh), Reset)
    else if o.seen != sh.seen then (Cleared(sh).(seen := o.seen), Reset)
    else if sh.silentTicks < cfg.resendTick - 1 then (sh, Waiting)
    else
      var sh' := sh.(resendTry := (sh.resendTry + 1) % U32);
      (if sent then sh'.(silentTicks := 0) else sh', Attempt(sent))
  }

  /** What the control plane reads for one RPC during one tick. */
  datatype Input = Input(found: Option<Snapshot>, socketOpen: bool, sent: bool)

  function Noticed(tick: nat, sh: Shadow, o: Snapshot): Shadow {
    var sh' := sh.(lastScanTick := tick);
    if o.busyCount != sh.busyCount then sh'.(silentTicks := 0, busyCount := o.busyCount)
    else sh'.(silentTicks := (sh.silentTicks + 1) % U32)
  }

  /** One tick of one RPC. */
  function Tick(cfg: Config, tick: nat, st: Option<Shadow>, i: Input): (Option<Shadow>, Event)
    requires cfg.mss > 0
  {
    if i.found.None? then (None, Unknown)
    else if !i.socketOpen || i.found.value.phase.Dead? then (None, Deleted)
    else
      var o := i.found.value;
      if st.None? then (Some(Shadow(o.seen, o.busyCount, tick, 0, 0, 0)), Inserted)
      else
        var sh := Noticed(tick, st.value, o);
        if sh.resendTry == cfg.abortResend then (None, Aborted)
        else
          var (sh', e) := CheckTimeout(cfg, tick, sh, o, i.sent);
          (Some(sh'), e)
  }

  // ----- runs of one RPC -----

  /** `states[t]` is the shadow record before tick `t`, `events[t]` what it did. */
  datatype Run = Run(tick0: nat, inputs: seq<Input>, states: seq<Option<Shadow>>, events: seq<Event>)

  /** The 32-bit tick counter at the `t`-th tick of a run. */
  function At(run: Run, t: nat): nat { (run.tick0 + t) % U32 }

  ghost predicate IsRun(cfg: Config, run: Run)
    requires cfg.mss > 0
  {
    && |run.states| == |run.inputs| + 1 && |run.events| == |run.inputs|
    && run.states[0] == None
    && (forall t :: 0 <= t < |run.inputs| ==> Ticked(cfg, run, t))
  }

  predicate Ticked(cfg: Config, run: Run, t: nat)
    requires cfg.mss > 0 && t < |run.inputs| == |run.events| && |run.states| == |run.inputs| + 1
  {
    (run.states[t + 1], run.events[t]) == Tick(cfg, At(run, t), run.states[t], run.inputs[t])
  }

  /** The RPC is a client's: its id is even whenever it is seen. */
  ghost predicate ClientRun(run: Run) {
    forall t :: 0 <= t < |run.inputs| && run.inputs[t].found.Some? ==> IsClient(run.inputs[t].found.value.id)
  }

  /** `resend_try` never exceeds the abort threshold, for clients and servers. */
  lemma {:induction false} TriesBounded(cfg: Config, run: Run, t: nat)
    requires ConfigOk(cfg) && IsRun(cfg, run) && t <= |run.inputs|
    ensures run.states[t].Some? ==> run.states[t].value.resendTry <= cfg.abortResend
  {
    if t > 0 {
      TriesBounded(cfg, run, t - 1);
      assert Ticked(cfg, run, t - 1);
      OneMoreTry(run.states[t - 1], cfg);
    }
  }

  lemma OneMoreTry(st: Option<Shadow>, cfg: Config)
    requires st.Some? ==> st.value.resendTry <= cfg.abortResend
    ensures st.Some? ==> (st.value.resendTry + 1) % U32 <= st.value.resendTry + 1
  {
  }

  /** The last tick before `t` that started the silence count afresh. */
  function LastReset(events: seq<Event>, t: nat): int
    requires t <= |events|
  {
    if t == 0 then -1
    else if events[t - 1].Reset? || events[t - 1].Inserted? then t - 1
    else LastReset(events, t - 1)
  }

  function Attempts(events: seq<Event>, lo: nat, hi: nat): nat
    requires hi <= |events|
    decreases hi
  {
    if hi <= lo then 0 else Attempts(events, lo, hi - 1) + if events[hi - 1].Attempt? then 1 else 0
  }

  /** Every RESEND due in these ticks was sent. */
  ghost predicate AllSent(events: seq<Event>, lo: nat, hi: nat)
    requires hi <= |events|
  {
    forall j :: lo <= j < hi && events[j].Attempt? ==> events[j].sent
  }

  /** Between ticks `r` and `t` the RPC was checked at every tick, made no
      progress, and every snapshot showed the same four fields. */
  ghost predicate SilentSince(run: Run, r: int, t: nat, seen: Progress)
    requires t <= |run.events| == |run.inputs|
  {
    forall j :: 0 <= j && r < j < t ==>
      && (run.events[j].Waiting? || run.events[j].Attempt?)
      && run.inputs[j].found.Some? && run.inputs[j].found.value.seen == seen
  }

  ghost predicate Tracked(cfg: Config, run: Run, t: nat)
    requires t <= |run.events| == |run.inputs| < |run.states|
  {
    run.states[t].Some? ==>
      var sh, r := run.states[t].value, LastReset(run.events, t);
      && 0 <= r < t
      && SilentSince(run, r, t, sh.seen)
      && sh.resendTry == Attempts(run.events, r + 1, t) <= cfg.abortResend
      && 0 <= sh.silentTicks
      && (AllSent(run.events, r + 1, t) ==> sh.silentTicks + sh.resendTry * (cfg.resendTick - 1) <= t - 1 - r)
  }

  /** The timer part of one check of a client RPC. */
  lemma ClientCheck(cfg: Config, tick: nat, sh: Shadow, o: Snapshot, sent: bool)
    requires ConfigOk(cfg) && IsClient(o.id)
    ensures var (sh', e) := CheckTimeout(cfg, tick, sh, o, sent);
            && (e.Reset? || e.Waiting? || e.Attempt?)
            && (e.Reset? ==> sh'.silentTicks == 0 && sh'.resendTry == 0)
            && (!e.Reset? ==> sh'.seen == sh.seen == o.seen)
            && (e.Waiting? ==> sh' == sh)
            && (e.Attempt? ==> e.sent == sent && sh.silentTicks >= cfg.resendTick - 1
                               && sh'.resendTry == (sh.resendTry + 1) % U32 && (sent ==> sh'.silentTicks == 0))
  {
  }

  /** Extending a silent stretch by one checked tick. */
  lemma SilenceGrows(run: Run, r: int, t: nat, seen: Progress)
    requires t < |run.events| == |run.inputs| && SilentSince(run, r, t, seen)
    requires run.events[t].Waiting? || run.events[t].Attempt?
    requires run.inputs[t].found.Some? && run.inputs[t].found.value.seen == seen
    ensures SilentSince(run, r, t + 1, seen)
  {
  }

  lemma OneMoreAttempt(tries: nat, ticks: int)
    requires ticks >= 0
    ensures (tries + 1) * ticks == tries * ticks + ticks
  {
  }

  lemma TrackStep(cfg: Config, run: Run, t: nat)
    requires ConfigOk(cfg) && IsRun(cfg, run) && ClientRun(run) && t < |run.inputs|
    requires Tracked(cfg, run, t)
    ensures Tracked(cfg, run, t + 1)
  {
    var st, i := run.states[t], run.inputs[t];
    assert Ticked(cfg, run, t);
    if run.states[t + 1].Some? && st.Some? {
      var o := i.found.value;
      assert IsClient(o.id);
      var sh := Noticed(At(run, t), st.value, o);
      ClientCheck(cfg, At(run, t), sh, o, i.sent);
      if !run.events[t].Reset? {
        KeepTracking(cfg, run, t, sh);
      }
    }
  }

  /** A check without progress carries the count of attempts and ticks on. */
  lemma KeepTracking(cfg: Config, run: Run, t: nat, sh: Shadow)
    requires ConfigOk(cfg) && t < |run.inputs| == |run.events| && |run.states| == |run.inputs| + 1
    requires Tracked(cfg, run, t) && run.states[t].Some? && run.states[t + 1].Some?
    requires run.inputs[t].found.Some? && run.inputs[t].found.value.seen == sh.seen
    requires run.events[t].Waiting? || run.events[t].Attempt?
    requires sh.seen == run.states[t].value.seen && sh.resendTry == run.states[t].value.resendTry < cfg.abortResend
    requires 0 <= sh.silentTicks <= run.states[t].value.silentTicks + 1
    requires var sh' := run.states[t + 1].value;
             && sh'.seen == sh.seen
             && (run.events[t].Waiting? ==> sh' == sh)
             && (run.events[t].Attempt? ==> sh.silentTicks >= cfg.resendTick - 1
                                            && sh'.resendTry == (sh.resendTry + 1) % U32
                                            && (run.events[t].sent ==> sh'.silentTicks == 0))
    ensures Tracked(cfg, run, t + 1)
  {
    var before, after := run.states[t].value, run.states[t + 1].value;
    var r := LastReset(run.events, t);
    SilenceGrows(run, r, t, sh.seen);
    OneMoreAttempt(before.resendTry, cfg.resendTick - 1);
    if AllSent(run.events, r + 1, t + 1) {
      assert AllSent(run.events, r + 1, t);
    }
  }

  lemma {:induction false} TrackedAlways(cfg: Config, run: Run, t: nat)
    requires ConfigOk(cfg) && IsRun(cfg, run) && ClientRun(run) && t <= |run.inputs|
    ensures Tracked(cfg, run, t)
  {
    if t > 0 {
      TrackedAlways(cfg, run, t - 1);
      TrackStep(cfg, run, t - 1);
    }
  }

  /** A client RPC is aborted only after `abortResend` attempts during which
      every tick was a check that saw the same four fields; if every RESEND of
      the stretch was sent, at least `abortResend * (resendTick - 1)` ticks lie
      between the last reset and the abort. */
  lemma AbortMeansSilence(cfg: Config, run: Run, t: nat)
    requires ConfigOk(cfg) && IsRun(cfg, run) && ClientRun(run) && t < |run.inputs|
    requires run.events[t].Aborted?
    ensures run.states[t].Some?
    ensures var r := LastReset(run.events, t);
            && 0 <= r < t
            && SilentSince(run, r, t, run.states[t].value.seen)
            && Attempts(run.events, r + 1, t) == cfg.abortResend
            && (AllSent(run.events, r + 1, t) ==> t - 1 - r >= cfg.abortResend * (cfg.resendTick - 1))
  {
    TrackedAlways(cfg, run, t);
    assert Ticked(cfg, run, t);
  }

  /** `check_timeout` as the source runs it, on the fields of one record. */
  method CheckInPlace(cfg: Config, tick: nat, before: Shadow, o: Snapshot, sent: bool)
    returns (sh: Shadow, e: Event)
    requires cfg.mss > 0
    ensures (sh, e) == CheckTimeout(cfg, tick, before, o, sent)
  {
    sh, e := before, Reset;
    if !IsClient(o.id) && o.phase.Outgoing? && o.nextXmitOffset >= o.messageLength {
      e := AckWait;
      if sh.doneTimerTicks == 0 {
        sh := sh.(doneTimerTicks := tick);
        sh := sh.(resendTry := 0);
      } else if AckDue(cfg, tick, sh.doneTimerTicks) {
        e := NeedAck;
        sh := sh.(resendTry := (sh.resendTry + 1) % U32);
      }
      return;
    }
    if CanStillSend(cfg, o) {
      sh := sh.(silentTicks := 0);
      sh := sh.(resendTry := 0);
      return;
    }
    if o.phase.Incoming? {
      if WaitsForGrant(cfg, o) {
        sh := sh.(silentTicks := 0);
        sh := sh.(resendTry := 0);
        return;
      }
    } else if !IsClient(o.id) {
      sh := sh.(silentTicks := 0);
      sh := sh.(resendTry := 0);
      return;
    }
    if o.seen != sh.seen {
      sh := sh.(silentTicks := 0);
      sh := sh.(resendTry := 0);
      sh := sh.(seen := o.seen);
      return;
    }
    if sh.silentTicks < cfg.resendTick - 1 {
      e := Waiting;
      return;
    }
    sh := sh.(resendTry := (sh.resendTry + 1) % U32);
    e := Attempt(sent);
    if sent {
      sh := sh.(silentTicks := 0);
    }
  }
}
