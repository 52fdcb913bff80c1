/** One poll of the Homa timer over all RPCs that the eBPF map returns. */
module HomaTimerTable {
  import opened Basics
  import opened Words
  import opened HomaTimer
  import opened HomaTimerLive

  datatype Key = Key(rpcid: nat, localPort: nat, remotePort: nat, remoteIp: nat)

  /** One entry of the batch lookup, with the outcome of a RESEND if one is due. */
  datatype Entry = Entry(key: Key, snapshot: Snapshot, socketOpen: bool, sent: bool)

  function Lookup(tbl: map<Key, Shadow>, key: Key): Option<Shadow> {
    if key in tbl then Some(tbl[key]) else None
  }

  function InputOf(e: Entry): Input { Input(Some(e.snapshot), e.socketOpen, e.sent) }

  /** What the poll reads for `key`. */
  function InputFor(entries: seq<Entry>, key: Key): Input {
    if entries == [] then Input(None, false, false)
    else if entries[0].key == key then InputOf(entries[0])
    else InputFor(entries[1..], key)
  }

  predicate Distinct(entries: seq<Entry>) {
    forall i, j :: 0 <= i < j < |entries| ==> entries[i].key != entries[j].key
  }

  lemma {:induction false} InputAt(entries: seq<Entry>, i: nat)
    requires Distinct(entries) && i < |entries|
    ensures InputFor(entries, entries[i].key) == InputOf(entries[i])
  {
    if i > 0 {
      InputAt(entries[1..], i - 1);
    }
  }

  lemma {:induction false} InputAbsent(entries: seq<Entry>, key: Key)
    requires forall i :: 0 <= i < |entries| ==> entries[i].key != key
    ensures InputFor(entries, key) == Input(None, false, false)
  {
    if entries != [] { InputAbsent(entries[1..], key); }
  }

  /** Key `key` is among the first `i` entries. */
  ghost predicate Seen(entries: seq<Entry>, i: nat, key: Key)
    requires i <= |entries|
  {
    exists j :: 0 <= j < i && entries[j].key == key
  }

  /** The table during a poll: what `key` has become after the first `i` entries.
      A record that the poll deletes without touching it keeps its old tick. */
  ghost predicate KeyHalfway(cfg: Config, tick: nat, before: Option<Shadow>, now: Option<Shadow>,
                             entries: seq<Entry>, i: nat, key: Key)
    requires cfg.mss > 0 && i <= |entries|
  {
    if Seen(entries, i, key) then
      var st := Tick(cfg, tick, before, InputFor(entries, key)).0;
      if st.Some? then now == st && st.value.lastScanTick == tick
      else now.Some? ==> now.value.lastScanTick != tick
    else now == before
  }

  ghost predicate Halfway(cfg: Config, tick: nat, before: map<Key, Shadow>, now: map<Key, Shadow>,
                          entries: seq<Entry>, i: nat)
    requires cfg.mss > 0 && i <= |entries|
  {
    forall key :: KeyHalfway(cfg, tick, Lookup(before, key), Lookup(now, key), entries, i, key)
  }

  lemma TickStamps(cfg: Config, tick: nat, st: Option<Shadow>, i: Input)
    requires cfg.mss > 0
    ensures var st' := Tick(cfg, tick, st, i).0;
            st'.Some? ==> st'.value.lastScanTick == tick
  {
  }

  /** The result of scanning one entry, as a table. */
  ghost predicate Scanned(cfg: Config, tick: nat, mid: map<Key, Shadow>, now: map<Key, Shadow>, e: Entry)
    requires cfg.mss > 0
  {
    var (st, ev) := Tick(cfg, tick, Lookup(mid, e.key), InputOf(e));
    && (st.Some? ==> now == mid[e.key := st.value])
    && (ev.Aborted? ==> now == mid - {e.key})
    && (ev.Deleted? ==> now == mid)
  }

  lemma ScanStep(cfg: Config, tick: nat, before: map<Key, Shadow>, mid: map<Key, Shadow>, now: map<Key, Shadow>,
                 entries: seq<Entry>, i: nat)
    requires cfg.mss > 0 && i < |entries| && Distinct(entries)
    requires forall k :: k in before ==> before[k].lastScanTick != tick
    requires Halfway(cfg, tick, before, mid, entries, i)
    requires Scanned(cfg, tick, mid, now, entries[i])
    ensures Halfway(cfg, tick, before, now, entries, i + 1)
  {
    var e := entries[i];
    InputAt(entries, i);
    forall key ensures KeyHalfway(cfg, tick, Lookup(before, key), Lookup(now, key), entries, i + 1, key) {
      assert KeyHalfway(cfg, tick, Lookup(before, key), Lookup(mid, key), entries, i, key);
      if key == e.key {
        assert !Seen(entries, i, key) && Seen(entries, i + 1, key);
        TickStamps(cfg, tick, Lookup(mid, key), InputOf(e));
      } else {
        assert Seen(entries, i + 1, key) <==> Seen(entries, i, key);
        assert Lookup(now, key) == Lookup(mid, key);
      }
    }
  }

  /** Dropping the records with an old tick leaves exactly one tick's result. */
  lemma Settled(cfg: Config, tick: nat, before: Option<Shadow>, now: Option<Shadow>, entries: seq<Entry>, key: Key)
    requires cfg.mss > 0 && (before.Some? ==> before.value.lastScanTick != tick)
    requires KeyHalfway(cfg, tick, before, now, entries, |entries|, key)
    ensures (if now.Some? && now.value.lastScanTick == tick then now else None)
            == Tick(cfg, tick, before, InputFor(entries, key)).0
  {
    if !Seen(entries, |entries|, key) {
      InputAbsent(entries, key);
    }
  }

  /** One poll advances the record of every RPC by one tick. */
  ghost predicate Polled(cfg: Config, tick: nat, before: map<Key, Shadow>, entries: seq<Entry>, after: map<Key, Shadow>)
    requires cfg.mss > 0
  {
    forall key :: Lookup(after, key) == Tick(cfg, tick, Lookup(before, key), InputFor(entries, key)).0
  }

  lemma DropsStale(cfg: Config, tick: nat, before: map<Key, Shadow>, all: map<Key, Shadow>, entries: seq<Entry>)
    requires cfg.mss > 0 && Halfway(cfg, tick, before, all, entries, |entries|)
    requires forall k :: k in before ==> before[k].lastScanTick != tick
    ensures Polled(cfg, tick, before, entries, map k | k in all && all[k].lastScanTick == tick :: all[k])
  {
    forall key
      ensures Lookup(map k | k in all && all[k].lastScanTick == tick :: all[k], key)
           == Tick(cfg, tick, Lookup(before, key), InputFor(entries, key)).0
    {
      assert KeyHalfway(cfg, tick, Lookup(before, key), Lookup(all, key), entries, |entries|, key);
      Settled(cfg, tick, Lookup(before, key), Lookup(all, key), entries, key);
    }
  }

  /** What a poll does for each of the first `n` entries: one tick's event. */
  ghost predicate EventsOf(cfg: Config, tick: nat, before: map<Key, Shadow>, entries: seq<Entry>,
                           events: seq<Event>, n: nat)
    requires cfg.mss > 0 && n <= |entries|
  {
    && |events| == n
    && forall i :: 0 <= i < n ==> events[i] == Tick(cfg, tick, Lookup(before, entries[i].key), InputOf(entries[i])).1
  }

  /** The keys that the poll deletes from the eBPF map. */
  function Gone(entries: seq<Entry>, events: seq<Event>, n: nat): seq<Key>
    requires n <= |entries| && n <= |events|
  {
    if n == 0 then []
    else Gone(entries, events, n - 1)
         + if events[n - 1].Deleted? || events[n - 1].Aborted? then [entries[n - 1].key] else []
  }

  lemma {:induction false} GoneGrows(entries: seq<Entry>, events: seq<Event>, ev: Event, n: nat)
    requires n <= |entries| && n <= |events|
    ensures Gone(entries, events + [ev], n) == Gone(entries, events, n)
  {
    if n > 0 { GoneGrows(entries, events, ev, n - 1); }
  }

  lemma NotYetScanned(cfg: Config, tick: nat, before: map<Key, Shadow>, mid: map<Key, Shadow>,
                      entries: seq<Entry>, i: nat)
    requires cfg.mss > 0 && i < |entries| && Distinct(entries) && Halfway(cfg, tick, before, mid, entries, i)
    ensures Lookup(mid, entries[i].key) == Lookup(before, entries[i].key)
  {
    var key := entries[i].key;
    assert KeyHalfway(cfg, tick, Lookup(before, key), Lookup(mid, key), entries, i, key);
  }

  class Timer {
    const cfg: Config
    var globalTick: nat
    var shadowTbl: map<Key, Shadow>
    /** Keys reported for deletion from the eBPF map. */
    var deleteKeys: seq<Key>

    /** Between polls every record has been scanned in the last tick. */
    ghost predicate Valid()
      reads this
    {
      && ConfigOk(cfg) && globalTick < U32
      && forall k :: k in shadowTbl ==> shadowTbl[k].lastScanTick == globalTick
    }

    constructor (cfg: Config)
      requires ConfigOk(cfg)
      ensures Valid() && this.cfg == cfg && shadowTbl == map[] && globalTick == 0
    {
      this.cfg := cfg;
      globalTick, shadowTbl, deleteKeys := 0, map[], [];
    }

    /** The body of the scan loop for one entry. */
    method Scan(e: Entry) returns (ev: Event)
      requires ConfigOk(cfg)
      modifies `shadowTbl, `deleteKeys
      ensures Scanned(cfg, globalTick, old(shadowTbl), shadowTbl, e)
      ensures ev == Tick(cfg, globalTick, Lookup(old(shadowTbl), e.key), InputOf(e)).1
      ensures deleteKeys == old(deleteKeys) + (if ev.Deleted? || ev.Aborted? then [e.key] else [])
    {
      if !e.socketOpen || e.snapshot.phase.Dead? {
        deleteKeys := deleteKeys + [e.key];
        return Deleted;
      }
      var o := e.snapshot;
      if e.key !in shadowTbl {
        shadowTbl := shadowTbl[e.key := Shadow(o.seen, o.busyCount, globalTick, 0, 0, 0)];
        return Inserted;
      }
      var sh := shadowTbl[e.key].(lastScanTick := globalTick);
      if o.busyCount != sh.busyCount {
        sh := sh.(silentTicks := 0, busyCount := o.busyCount);
      } else {
        sh := sh.(silentTicks := (sh.silentTicks + 1) % U32);
      }
      if sh.resendTry == cfg.abortResend {
        deleteKeys := deleteKeys + [e.key];
        shadowTbl := shadowTbl - {e.key};
        return Aborted;
      }
      sh, ev := CheckInPlace(cfg, globalTick, sh, o, e.sent);
      shadowTbl := shadowTbl[e.key := sh];
    }

    /** One poll: scan every entry, then drop the records of RPCs that were not
        scanned. Each RPC's record makes exactly one `Tick`; `events` is what the
        poll did for each entry. */
    method Poll(entries: seq<Entry>) returns (events: seq<Event>)
      requires Valid() && Distinct(entries)
      modifies this
      ensures Valid() && globalTick == (old(globalTick) + 1) % U32
      ensures Polled(cfg, globalTick, old(shadowTbl), entries, shadowTbl)
      ensures EventsOf(cfg, globalTick, old(shadowTbl), entries, events, |entries|)
      ensures deleteKeys == old(deleteKeys) + Gone(entries, events, |entries|)
    {
      globalTick := (globalTick + 1) % U32;
      events := ScanAll(entries);
      DropsStale(cfg, globalTick, old(shadowTbl), shadowTbl, entries);
      shadowTbl := map k | k in shadowTbl && shadowTbl[k].lastScanTick == globalTick :: shadowTbl[k];
    }

    /** The loop over the entries. */
    method ScanAll(entries: seq<Entry>) returns (events: seq<Event>)
      requires ConfigOk(cfg) && Distinct(entries)
      requires forall k :: k in shadowTbl ==> shadowTbl[k].lastScanTick != globalTick
      modifies `shadowTbl, `deleteKeys
      ensures Halfway(cfg, globalTick, old(shadowTbl), shadowTbl, entries, |entries|)
      ensures EventsOf(cfg, globalTick, old(shadowTbl), entries, events, |entries|)
      ensures deleteKeys == old(deleteKeys) + Gone(entries, events, |entries|)
    {
      events := [];
      ghost var before := shadowTbl;
      var i := 0;
      while i < |entries|
        invariant 0 <= i <= |entries|
        invariant Halfway(cfg, globalTick, before, shadowTbl, entries, i)
        invariant EventsOf(cfg, globalTick, before, entries, events, i)
        invariant deleteKeys == old(deleteKeys) + Gone(entries, events, i)
      {
        ghost var mid := shadowTbl;
        NotYetScanned(cfg, globalTick, before, mid, entries, i);
        var ev := Scan(entries[i]);
        GoneGrows(entries, events, ev, i);
        events := events + [ev];
        ScanStep(cfg, globalTick, before, mid, shadowTbl, entries, i);
        i := i + 1;
      }
    }

    /** Any number of polls from an empty table. */
    method PollMany(batches: seq<seq<Entry>>) returns (ghost tables: seq<map<Key, Shadow>>)
      requires Valid() && shadowTbl == map[] && forall t :: 0 <= t < |batches| ==> Distinct(batches[t])
      modifies this
      ensures Valid() && TableRun(cfg, old(globalTick) + 1, batches, tables)
      ensures shadowTbl == tables[|batches|]
    {
      tables := [shadowTbl];
      ghost var tick0, done: seq<seq<Entry>> := globalTick + 1, [];
      for t := 0 to |batches|
        invariant Valid() && globalTick == (old(globalTick) + t) % U32
        invariant done == batches[..t] && TableRun(cfg, tick0, done, tables) && shadowTbl == tables[t]
      {
        var _ := Poll(batches[t]);
        ExtendTableRun(cfg, tick0, done, tables, batches[t], shadowTbl);
        tables, done := tables + [shadowTbl], done + [batches[t]];
      }
      assert done == batches;
    }
  }

  // ----- the records of one RPC over many polls -----

  ghost predicate PolledAt(cfg: Config, tick0: nat, batches: seq<seq<Entry>>, tables: seq<map<Key, Shadow>>, t: nat)
    requires cfg.mss > 0 && t < |batches| && t + 1 < |tables|
  {
    Polled(cfg, (tick0 + t) % U32, tables[t], batches[t], tables[t + 1])
  }

  /** `tables` are the shadow tables before and after every poll. */
  ghost predicate TableRun(cfg: Config, tick0: nat, batches: seq<seq<Entry>>, tables: seq<map<Key, Shadow>>)
    requires cfg.mss > 0
  {
    && |tables| == |batches| + 1 && tables[0] == map[]
    && forall t :: 0 <= t < |batches| ==> PolledAt(cfg, tick0, batches, tables, t)
  }

  lemma ExtendTableRun(cfg: Config, tick0: nat, batches: seq<seq<Entry>>, tables: seq<map<Key, Shadow>>,
                       entries: seq<Entry>, after: map<Key, Shadow>)
    requires cfg.mss > 0 && TableRun(cfg, tick0, batches, tables)
    requires Polled(cfg, (tick0 + |batches|) % U32, tables[|batches|], entries, after)
    ensures TableRun(cfg, tick0, batches + [entries], tables + [after])
  {
    var batches', tables' := batches + [entries], tables + [after];
    forall t | 0 <= t < |batches'|
      ensures PolledAt(cfg, tick0, batches', tables', t)
    {
      if t < |batches| {
        assert PolledAt(cfg, tick0, batches, tables, t);
      }
    }
  }

  /** What one RPC sees of a sequence of polls. */
  ghost function RunOf(cfg: Config, tick0: nat, batches: seq<seq<Entry>>, tables: seq<map<Key, Shadow>>, key: Key)
    : (run: Run)
    requires cfg.mss > 0 && |tables| == |batches| + 1
    ensures run.tick0 == tick0 && |run.inputs| == |run.events| == |batches| && |run.states| == |tables|
    ensures forall t :: 0 <= t < |batches| ==> run.inputs[t] == InputFor(batches[t], key)
    ensures forall t :: 0 <= t < |tables| ==> run.states[t] == Lookup(tables[t], key)
  {
    Run(tick0,
        seq(|batches|, t requires 0 <= t < |batches| => InputFor(batches[t], key)),
        seq(|tables|, t requires 0 <= t < |tables| => Lookup(tables[t], key)),
        seq(|batches|, t requires 0 <= t < |batches| =>
            Tick(cfg, (tick0 + t) % U32, Lookup(tables[t], key), InputFor(batches[t], key)).1))
  }

  /** The records of one RPC over the polls are a run of its timeout machine. */
  lemma KeyRuns(cfg: Config, tick0: nat, batches: seq<seq<Entry>>, tables: seq<map<Key, Shadow>>, key: Key)
    requires cfg.mss > 0 && TableRun(cfg, tick0, batches, tables)
    ensures IsRun(cfg, RunOf(cfg, tick0, batches, tables, key))
  {
    var run := RunOf(cfg, tick0, batches, tables, key);
    forall t | 0 <= t < |run.inputs|
      ensures Ticked(cfg, run, t)
    {
      assert PolledAt(cfg, tick0, batches, tables, t);
    }
  }

  /** So no record of any table ever has more tries than the limit. */
  lemma TableTriesBounded(cfg: Config, tick0: nat, batches: seq<seq<Entry>>, tables: seq<map<Key, Shadow>>, t: nat,
                          key: Key)
    requires ConfigOk(cfg) && TableRun(cfg, tick0, batches, tables) && t < |tables| && key in tables[t]
    ensures tables[t][key].resendTry <= cfg.abortResend
  {
    KeyRuns(cfg, tick0, batches, tables, key);
    TriesBounded(cfg, RunOf(cfg, tick0, batches, tables, key), t);
  }

  /** And a client RPC is aborted only after the full number of tries during which
      its progress did not change. */
  lemma TableAbortMeansSilence(cfg: Config, tick0: nat, batches: seq<seq<Entry>>, tables: seq<map<Key, Shadow>>,
                               t: nat, key: Key)
    requires ConfigOk(cfg) && TableRun(cfg, tick0, batches, tables) && t < |batches|
    requires ClientRun(RunOf(cfg, tick0, batches, tables, key))
    requires RunOf(cfg, tick0, batches, tables, key).events[t].Aborted?
    ensures key in tables[t]
    ensures var run := RunOf(cfg, tick0, batches, tables, key);
            var r := LastReset(run.events, t);
            && 0 <= r < t && SilentSince(run, r, t, tables[t][key].seen)
            && Attempts(run.events, r + 1, t) == cfg.abortResend
            && (AllSent(run.events, r + 1, t) ==> t - 1 - r >= cfg.abortResend * (cfg.resendTick - 1))
  {
    KeyRuns(cfg, tick0, batches, tables, key);
    AbortMeansSilence(cfg, RunOf(cfg, tick0, batches, tables, key), t);
  }

  /** A client RPC that is stalled at every poll is gone from the table within the
      deadline. */
  lemma TableStalledLeaves(cfg: Config, tick0: nat, batches: seq<seq<Entry>>, tables: seq<map<Key, Shadow>>,
                           key: Key, r: nat, seen: Progress, busy: nat)
    requires ConfigOk(cfg) && CountsFit(cfg) && TableRun(cfg, tick0, batches, tables)
    requires ClientRun(RunOf(cfg, tick0, batches, tables, key)) && r + Deadline(cfg) < |batches|
    requires forall t :: r <= t <= r + Deadline(cfg) ==>
               StalledInput(cfg, InputFor(batches[t], key), seen, busy)
    ensures exists t :: r <= t <= r + Deadline(cfg) && key in tables[t] && key !in tables[t + 1]
  {
    var run := RunOf(cfg, tick0, batches, tables, key);
    KeyRuns(cfg, tick0, batches, tables, key);
    forall t | r <= t <= r + Deadline(cfg) ensures StalledAt(cfg, run, t, seen, busy) {
      assert StalledInput(cfg, InputFor(batches[t], key), seen, busy);
    }
    StalledAborts(cfg, run, r, seen, busy);
    var t :| r <= t <= r + Deadline(cfg) && run.events[t].Aborted?;
    assert Ticked(cfg, run, t);
    assert run.states[t] == Lookup(tables[t], key) && run.states[t + 1] == Lookup(tables[t + 1], key);
  }

  /** The table holds no RPC that the eBPF map did not return, whose socket is closed,
      or that is dead. */
  lemma TableHoldsLive(cfg: Config, tick0: nat, batches: seq<seq<Entry>>, tables: seq<map<Key, Shadow>>, t: nat,
                       key: Key)
    requires cfg.mss > 0 && TableRun(cfg, tick0, batches, tables) && t < |batches| && key in tables[t + 1]
    ensures exists e :: e in batches[t] && e.key == key && e.socketOpen && !e.snapshot.phase.Dead?
  {
    assert PolledAt(cfg, tick0, batches, tables, t);
    assert Lookup(tables[t + 1], key).Some?;
    EntryFor(batches[t], key);
  }

  lemma {:induction false} EntryFor(entries: seq<Entry>, key: Key)
    ensures InputFor(entries, key).found.Some? ==>
              exists e :: e in entries && e.key == key && InputFor(entries, key) == InputOf(e)
  {
    if entries != [] && entries[0].key != key {
      EntryFor(entries[1..], key);
    }
  }
}
