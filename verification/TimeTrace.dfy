/** Time traces: every thread records events in a circular buffer of its own;
    printing merges the buffers in time order, from the time on at which every
    buffer still has its events. */
module TimeTrace {
  import opened Basics
  import opened Words

  datatype Event = Event(timestamp: nat, format: string, arg0: nat, arg1: nat, arg2: nat, arg3: nat)

  /** A buffer's slots and the slot to use next. */
  datatype Ring = Ring(slots: seq<Option<Event>>, next: nat)

  /** An output line: the buffer's number and the event. */
  datatype Line = Line(buffer: nat, event: Event)

  /** 2^16 slots. */
  const SIZE := 65536
  const MASK := SIZE - 1

  const NEVER := U64 - 1

  // ----- what a ring keeps of a history -----

  ghost predicate KeepsAt(r: Ring, h: seq<Event>, k: nat)
    requires |r.slots| == SIZE && k < |h|
  {
    r.slots[k % SIZE] == Some(h[k])
  }

  /** The slots hold the last SIZE events, the others are empty. */
  ghost predicate Keeps(r: Ring, h: seq<Event>) {
    && |r.slots| == SIZE && r.next == |h| % SIZE
    && (forall k: nat :: k < |h| < k + SIZE + 1 ==> KeepsAt(r, h, k))
    && (forall j :: |h| <= j < SIZE ==> r.slots[j] == None)
  }

  function Recorded(r: Ring, e: Event): Ring
    requires r.next < |r.slots|
  {
    Ring(r.slots[r.next := Some(e)], (r.next + 1) % SIZE)
  }

  lemma ModNext(n: nat)
    ensures (n + 1) % SIZE == (n % SIZE + 1) % SIZE
  {
  }

  lemma RecordKeeps(r: Ring, h: seq<Event>, e: Event)
    requires Keeps(r, h)
    ensures Keeps(Recorded(r, e), h + [e])
  {
    var s := Recorded(r, e);
    ModNext(|h|);
    forall k: nat | k < |h| + 1 < k + SIZE + 1
      ensures KeepsAt(s, h + [e], k)
    {
      if k < |h| {
        assert KeepsAt(r, h, k);
        Apart(k, |h|);
      }
    }
  }

  /** Positions less than SIZE apart use different slots. */
  lemma Apart(k: nat, n: nat)
    requires k < n < k + SIZE
    ensures k % SIZE != n % SIZE
  {
  }

  /** The oldest event that printing considers: it leaves out the slot to be
      overwritten next. */
  function Oldest(h: seq<Event>): (k: nat)
    ensures k <= |h| && |h| - k == Min(|h|, SIZE - 1)
    ensures h != [] ==> k < |h|
  {
    if |h| < SIZE then 0 else |h| - MASK
  }

  /** A cursor of the printing loops stands for a position of the history. */
  lemma CursorAt(r: Ring, h: seq<Event>, k: nat)
    requires Keeps(r, h) && Oldest(h) <= k <= |h|
    ensures k % SIZE == r.next <==> k == |h|
    ensures k < |h| ==> r.slots[k % SIZE] == Some(h[k])
    ensures (k + 1) % SIZE == (k % SIZE + 1) % SIZE
  {
    ModNext(k);
    if k < |h| {
      Apart(k, |h|);
      assert KeepsAt(r, h, k);
    }
  }

  // ----- the specification of the output -----

  ghost predicate Nondecreasing(h: seq<Event>) {
    forall j, k :: 0 <= j <= k < |h| ==> h[j].timestamp <= h[k].timestamp
  }

  /** The latest of the buffers' oldest events, 0 without events. */
  ghost predicate IsStart(hs: seq<seq<Event>>, n: nat, start: nat)
    requires n <= |hs|
  {
    && (forall i :: 0 <= i < n && hs[i] != [] ==> hs[i][Oldest(hs[i])].timestamp <= start)
    && (start == 0 || exists i :: 0 <= i < n && hs[i] != [] && hs[i][Oldest(hs[i])].timestamp == start)
  }

  /** The events to be shown: those from the starting time on. A timestamp of all
      ones is never shown. */
  function Shown(s: seq<Event>, start: nat): seq<Event> {
    if s == [] then []
    else (if start <= s[0].timestamp < NEVER then [s[0]] else []) + Shown(s[1..], start)
  }

  /** The events of one buffer in the output. */
  function Project(out: seq<Line>, i: nat): seq<Event> {
    if out == [] then []
    else Project(out[..|out| - 1], i) + (if out[|out| - 1].buffer == i then [out[|out| - 1].event] else [])
  }

  predicate Before(t: nat, i: nat, u: nat, j: nat) { t < u || (t == u && i <= j) }

  /** In time order; at the same time, in the order of the buffers. */
  ghost predicate InOrder(out: seq<Line>) {
    forall a, b :: 0 <= a < b < |out| ==>
      Before(out[a].event.timestamp, out[a].buffer, out[b].event.timestamp, out[b].buffer)
  }

  /** What printing promises. */
  ghost predicate Merged(hs: seq<seq<Event>>, start: nat, out: seq<Line>) {
    && InOrder(out)
    && (forall l :: l in out ==> l.buffer < |hs|)
    && (forall i :: 0 <= i < |hs| ==> Project(out, i) == Shown(hs[i][Oldest(hs[i])..], start))
  }

  // ----- buffers -----

  class Buffer {
    var slots: seq<Option<Event>>
    var nextIndex: nat
    ghost var history: seq<Event>

    function View(): Ring
      reads this
    {
      Ring(slots, nextIndex)
    }

    ghost predicate Valid()
      reads this
    {
      Keeps(View(), history)
    }

    constructor ()
      ensures Valid() && history == []
    {
      slots := seq(SIZE, _ => None);
      nextIndex := 0;
      history := [];
    }

    /** While the traces are frozen, nothing is recorded. */
    method Record(frozen: bool, e: Event)
      requires Valid()
      modifies this
      ensures Valid()
      ensures history == if frozen then old(history) else old(history) + [e]
      ensures frozen ==> View() == old(View())
    {
      var at := nextIndex;
      if frozen {
        return;
      }
      RecordKeeps(View(), history, e);
      MaskIsMod(nextIndex + 1);
      nextIndex := And(nextIndex + 1, MASK);
      slots := slots[at := Some(e)];
      history := history + [e];
    }
  }

  lemma MaskIsMod(x: nat)
    ensures And(x, MASK) == x % SIZE
  {
    assert Pow2(16) == SIZE by {
      assert Pow2(8) == 256;
      Pow2Splits(8, 8);
    }
    AndMask(x, 16);
  }

  // ----- the printing loops -----

  ghost predicate AllKeep(rings: seq<Ring>, hs: seq<seq<Event>>) {
    |rings| == |hs| && forall i :: 0 <= i < |hs| ==> Keeps(rings[i], hs[i])
  }

  /** The cursors are at positions `ks` of the histories. */
  ghost predicate CursorsAt(hs: seq<seq<Event>>, current: seq<nat>, ks: seq<nat>) {
    && |current| == |ks| == |hs|
    && forall i :: 0 <= i < |hs| ==> Oldest(hs[i]) <= ks[i] <= |hs[i]| && current[i] == ks[i] % SIZE
  }

  method FirstCursor(r: Ring, ghost h: seq<Event>) returns (c: nat)
    requires Keeps(r, h)
    ensures c == Oldest(h) % SIZE
  {
    var index := (r.next + 1) % SIZE;
    ModNext(|h|);
    if |h| >= MASK {
      assert KeepsAt(r, h, Oldest(h));
    }
    if r.slots[index] != None {
      c := index;
    } else {
      c := 0;
    }
  }

  /** Every cursor at its buffer's oldest event. */
  ghost predicate AtOldest(hs: seq<seq<Event>>, first: seq<nat>) {
    |first| == |hs| && forall i :: 0 <= i < |hs| ==> first[i] == Oldest(hs[i]) % SIZE
  }

  method LatestOldest(rings: seq<Ring>, first: seq<nat>, ghost hs: seq<seq<Event>>) returns (start: nat)
    requires AllKeep(rings, hs) && AtOldest(hs, first)
    ensures IsStart(hs, |hs|, start)
  {
    start := 0;
    for i := 0 to |rings|
      invariant IsStart(hs, i, start)
    {
      CursorAt(rings[i], hs[i], Oldest(hs[i]));
      var slot := rings[i].slots[first[i]];
      if slot != None && slot.value.timestamp > start {
        start := slot.value.timestamp;
      }
    }
  }

  /** The first position from `k` on that is not before the starting time. */
  ghost function SkipTo(h: seq<Event>, k: nat, start: nat): (r: nat)
    requires k <= |h|
    ensures k <= r <= |h| && (r < |h| ==> h[r].timestamp >= start)
    ensures forall j :: k <= j < r ==> h[j].timestamp < start
    decreases |h| - k
  {
    if k < |h| && h[k].timestamp < start then SkipTo(h, k + 1, start) else k
  }

  /** Advance a cursor past the events before the starting time. */
  method Skip(r: Ring, ghost h: seq<Event>, start: nat, from: nat) returns (c: nat)
    requires Keeps(r, h) && from == Oldest(h) % SIZE
    ensures c == SkipTo(h, Oldest(h), start) % SIZE
  {
    c := from;
    ghost var k := Oldest(h);
    while r.slots[c] != None && r.slots[c].value.timestamp < start && c != r.next
      invariant Oldest(h) <= k <= |h| && c == k % SIZE
      invariant SkipTo(h, k, start) == SkipTo(h, Oldest(h), start)
      decreases |h| - k
    {
      CursorAt(r, h, k);
      c := (c + 1) % SIZE;
      k := k + 1;
    }
    CursorAt(r, h, k);
  }

  /** The earliest event at the cursors; at the same time, that of the first
      buffer. */
  method Earliest(rings: seq<Ring>, current: seq<nat>, ghost hs: seq<seq<Event>>, ghost ks: seq<nat>)
      returns (found: bool, buf: nat)
    requires AllKeep(rings, hs) && CursorsAt(hs, current, ks)
    ensures !found ==> forall i :: 0 <= i < |hs| && ks[i] < |hs[i]| ==> hs[i][ks[i]].timestamp >= NEVER
    ensures found ==> buf < |hs| && IsFirst(hs, ks, buf, |hs|)
  {
    found, buf := false, 0;
    var earliest := NEVER;
    for i := 0 to |rings|
      invariant !found ==> earliest == NEVER
      invariant !found ==> forall j :: 0 <= j < i && ks[j] < |hs[j]| ==> hs[j][ks[j]].timestamp >= NEVER
      invariant found ==> buf < i && IsFirst(hs, ks, buf, i) && earliest == hs[buf][ks[buf]].timestamp
    {
      CursorAt(rings[i], hs[i], ks[i]);
      var slot := rings[i].slots[current[i]];
      if current[i] != rings[i].next && slot != None && slot.value.timestamp < earliest {
        found, buf := true, i;
        earliest := slot.value.timestamp;
      }
    }
  }

  ghost predicate IsFirst(hs: seq<seq<Event>>, ks: seq<nat>, buf: nat, n: nat)
    requires |hs| == |ks| && buf < n <= |hs|
  {
    && ks[buf] < |hs[buf]| && hs[buf][ks[buf]].timestamp < NEVER
    && forall j :: 0 <= j < n && ks[j] < |hs[j]| ==>
         Before(hs[buf][ks[buf]].timestamp, buf, hs[j][ks[j]].timestamp, j)
  }

  // ----- the merge, on histories -----

  /** Of one buffer: what is printed and what is still ahead make up what is to be
      shown. */
  ghost predicate Accounted(h: seq<Event>, k: nat, start: nat, printed: seq<Event>) {
    && Oldest(h) <= k <= |h|
    && printed + Shown(h[k..], start) == Shown(h[Oldest(h)..], start)
    && (k < |h| ==> h[k].timestamp >= start)
  }

  /** Everything printed comes before everything ahead. */
  ghost predicate Ahead(out: seq<Line>, t: nat, i: nat) {
    forall l :: l in out ==> Before(l.event.timestamp, l.buffer, t, i)
  }

  ghost predicate Progress(hs: seq<seq<Event>>, ks: seq<nat>, start: nat, out: seq<Line>) {
    && |ks| == |hs| && InOrder(out)
    && (forall l :: l in out ==> l.buffer < |hs|)
    && (forall i :: 0 <= i < |hs| ==> Accounted(hs[i], ks[i], start, Project(out, i)))
    && (forall i :: 0 <= i < |hs| && ks[i] < |hs[i]| ==> Ahead(out, hs[i][ks[i]].timestamp, i))
  }

  lemma {:induction false} SkippedNotShown(h: seq<Event>, from: nat, k: nat, start: nat)
    requires from <= k <= |h| && forall j :: from <= j < k ==> h[j].timestamp < start
    ensures Shown(h[from..], start) == Shown(h[k..], start)
    decreases k - from
  {
    if from < k {
      assert h[from..][1..] == h[from + 1..];
      SkippedNotShown(h, from + 1, k, start);
    }
  }

  lemma {:induction false} NeverShown(h: seq<Event>, k: nat, start: nat)
    requires k <= |h| && forall j :: k <= j < |h| ==> h[j].timestamp >= NEVER
    ensures Shown(h[k..], start) == []
    decreases |h| - k
  {
    if k < |h| {
      assert h[k..][1..] == h[k + 1..];
      NeverShown(h, k + 1, start);
    }
  }

  lemma PrintOne(h: seq<Event>, k: nat, start: nat, printed: seq<Event>)
    requires Accounted(h, k, start, printed) && k < |h| && h[k].timestamp < NEVER && Nondecreasing(h)
    ensures Accounted(h, k + 1, start, printed + [h[k]])
  {
    var rest := Shown(h[k + 1..], start);
    assert h[k..][1..] == h[k + 1..];
    assert Shown(h[k..], start) == [h[k]] + rest;
    assert printed + ([h[k]] + rest) == printed + [h[k]] + rest;
  }

  lemma ProjectOne(out: seq<Line>, l: Line, i: nat)
    ensures Project(out + [l], i) == Project(out, i) + if l.buffer == i then [l.event] else []
  {
    assert (out + [l])[..|out|] == out;
  }

  lemma StepAccounts(hs: seq<seq<Event>>, ks: seq<nat>, start: nat, out: seq<Line>, buf: nat, i: nat)
    requires |ks| == |hs| && buf < |hs| && i < |hs| && Accounted(hs[i], ks[i], start, Project(out, i))
    requires ks[buf] < |hs[buf]| && hs[buf][ks[buf]].timestamp < NEVER && Nondecreasing(hs[i])
    ensures Accounted(hs[i], ks[buf := ks[buf] + 1][i], start, Project(out + [Line(buf, hs[buf][ks[buf]])], i))
  {
    ProjectOne(out, Line(buf, hs[buf][ks[buf]]), i);
    if i == buf {
      PrintOne(hs[i], ks[i], start, Project(out, i));
    }
  }

  lemma StepInOrder(out: seq<Line>, l: Line)
    requires InOrder(out) && Ahead(out, l.event.timestamp, l.buffer)
    ensures InOrder(out + [l])
  {
  }

  lemma StepAhead(out: seq<Line>, l: Line, t: nat, i: nat)
    requires Ahead(out, l.event.timestamp, l.buffer) && Before(l.event.timestamp, l.buffer, t, i)
    ensures Ahead(out + [l], t, i)
  {
  }

  lemma ProgressStep(hs: seq<seq<Event>>, ks: seq<nat>, start: nat, out: seq<Line>, buf: nat)
    requires Progress(hs, ks, start, out) && (forall i :: 0 <= i < |hs| ==> Nondecreasing(hs[i]))
    requires buf < |hs| && IsFirst(hs, ks, buf, |hs|)
    ensures Progress(hs, ks[buf := ks[buf] + 1], start, out + [Line(buf, hs[buf][ks[buf]])])
  {
    var l := Line(buf, hs[buf][ks[buf]]);
    var out', ks' := out + [l], ks[buf := ks[buf] + 1];
    StepInOrder(out, l);
    forall i | 0 <= i < |hs|
      ensures Accounted(hs[i], ks'[i], start, Project(out', i))
    {
      StepAccounts(hs, ks, start, out, buf, i);
    }
    forall i | 0 <= i < |hs| && ks'[i] < |hs[i]|
      ensures Ahead(out', hs[i][ks'[i]].timestamp, i)
    {
      assert hs[i][ks[i]].timestamp <= hs[i][ks'[i]].timestamp;
      StepAhead(out, l, hs[i][ks'[i]].timestamp, i);
    }
  }

  lemma ProgressDone(hs: seq<seq<Event>>, ks: seq<nat>, start: nat, out: seq<Line>)
    requires Progress(hs, ks, start, out) && (forall i :: 0 <= i < |hs| ==> Nondecreasing(hs[i]))
    requires forall i :: 0 <= i < |hs| && ks[i] < |hs[i]| ==> hs[i][ks[i]].timestamp >= NEVER
    ensures Merged(hs, start, out)
  {
    forall i | 0 <= i < |hs|
      ensures Project(out, i) == Shown(hs[i][Oldest(hs[i])..], start)
    {
      assert Accounted(hs[i], ks[i], start, Project(out, i));
      NeverShown(hs[i], ks[i], start);
    }
  }

  /** The events ahead of the first `n` cursors. */
  ghost function Left(hs: seq<seq<Event>>, ks: seq<nat>, n: nat): int
    requires n <= |hs| == |ks|
  {
    if n == 0 then 0 else Left(hs, ks, n - 1) + |hs[n - 1]| - ks[n - 1]
  }

  lemma {:induction false} LeftDrops(hs: seq<seq<Event>>, ks: seq<nat>, buf: nat, n: nat)
    requires n <= |hs| == |ks| && buf < |hs|
    ensures Left(hs, ks[buf := ks[buf] + 1], n) == Left(hs, ks, n) - if buf < n then 1 else 0
  {
    if n > 0 {
      LeftDrops(hs, ks, buf, n - 1);
    }
  }

  lemma {:induction false} LeftNonNegative(hs: seq<seq<Event>>, ks: seq<nat>, n: nat)
    requires n <= |hs| == |ks| && forall i :: 0 <= i < |hs| ==> ks[i] <= |hs[i]|
    ensures Left(hs, ks, n) >= 0
  {
    if n > 0 {
      LeftNonNegative(hs, ks, n - 1);
    }
  }

  /** One turn prints the earliest event, if any. */
  method PrintEarliest(rings: seq<Ring>, current: seq<nat>, out: seq<Line>,
                       ghost hs: seq<seq<Event>>, ghost ks: seq<nat>, ghost start: nat)
      returns (found: bool, current': seq<nat>, out': seq<Line>, ghost ks': seq<nat>)
    requires AllKeep(rings, hs) && CursorsAt(hs, current, ks) && Progress(hs, ks, start, out)
    requires forall i :: 0 <= i < |hs| ==> Nondecreasing(hs[i])
    ensures !found ==> Merged(hs, start, out) && out' == out
    ensures found ==> CursorsAt(hs, current', ks') && Progress(hs, ks', start, out')
    ensures found ==> 0 <= Left(hs, ks', |hs|) < Left(hs, ks, |hs|)
  {
    current', out', ks' := current, out, ks;
    var buf;
    found, buf := Earliest(rings, current, hs, ks);
    if !found {
      ProgressDone(hs, ks, start, out);
      return;
    }
    CursorAt(rings[buf], hs[buf], ks[buf]);
    var event := rings[buf].slots[current[buf]].value;
    current' := current[buf := (current[buf] + 1) % SIZE];
    ks' := ks[buf := ks[buf] + 1];
    out' := out + [Line(buf, event)];
    ProgressStep(hs, ks, start, out, buf);
    LeftDrops(hs, ks, buf, |hs|);
    LeftNonNegative(hs, ks', |hs|);
  }

  method MergeLoop(rings: seq<Ring>, first: seq<nat>, ghost hs: seq<seq<Event>>, ghost at: seq<nat>, ghost start: nat)
      returns (out: seq<Line>)
    requires AllKeep(rings, hs) && CursorsAt(hs, first, at) && Progress(hs, at, start, [])
    requires forall i :: 0 <= i < |hs| ==> Nondecreasing(hs[i])
    ensures Merged(hs, start, out)
  {
    out := [];
    var found, current := true, first;
    ghost var ks := at;
    while found
      invariant found ==> CursorsAt(hs, current, ks) && Progress(hs, ks, start, out)
      invariant !found ==> Merged(hs, start, out)
      decreases found, if found then Left(hs, ks, |hs|) else 0
    {
      found, current, out, ks := PrintEarliest(rings, current, out, hs, ks, start);
    }
  }

  lemma StartAccounts(h: seq<Event>, start: nat)
    ensures Accounted(h, SkipTo(h, Oldest(h), start), start, [])
  {
    SkippedNotShown(h, Oldest(h), SkipTo(h, Oldest(h), start), start);
  }

  method FirstCursors(rings: seq<Ring>, ghost hs: seq<seq<Event>>) returns (first: seq<nat>)
    requires AllKeep(rings, hs)
    ensures AtOldest(hs, first)
  {
    first := [];
    for i := 0 to |rings|
      invariant |first| == i && forall j :: 0 <= j < i ==> first[j] == Oldest(hs[j]) % SIZE
    {
      var c := FirstCursor(rings[i], hs[i]);
      first := first + [c];
    }
  }

  /** Where the merge starts in each history. */
  ghost function Starts(hs: seq<seq<Event>>, start: nat): (ks: seq<nat>)
    ensures |ks| == |hs| && forall i :: 0 <= i < |hs| ==> ks[i] == SkipTo(hs[i], Oldest(hs[i]), start)
  {
    if hs == [] then [] else [SkipTo(hs[0], Oldest(hs[0]), start)] + Starts(hs[1..], start)
  }

  method SkipAll(rings: seq<Ring>, start: nat, first: seq<nat>, ghost hs: seq<seq<Event>>) returns (current: seq<nat>)
    requires AllKeep(rings, hs) && AtOldest(hs, first)
    ensures CursorsAt(hs, current, Starts(hs, start))
  {
    current := [];
    ghost var ks := Starts(hs, start);
    for i := 0 to |rings|
      invariant |current| == i && forall j :: 0 <= j < i ==> current[j] == ks[j] % SIZE
    {
      var c := Skip(rings[i], hs[i], start, first[i]);
      current := current + [c];
    }
  }

  lemma StartProgress(hs: seq<seq<Event>>, start: nat)
    ensures Progress(hs, Starts(hs, start), start, [])
  {
    forall i | 0 <= i < |hs|
      ensures Accounted(hs[i], Starts(hs, start)[i], start, [])
    {
      StartAccounts(hs[i], start);
    }
  }

  /** `print_internal` on the buffers' contents. */
  method PrintInternal(rings: seq<Ring>, ghost hs: seq<seq<Event>>) returns (start: nat, out: seq<Line>)
    requires AllKeep(rings, hs)
    requires forall i :: 0 <= i < |hs| ==> Nondecreasing(hs[i])
    ensures IsStart(hs, |hs|, start) && Merged(hs, start, out)
  {
    var first := FirstCursors(rings, hs);
    start := LatestOldest(rings, first, hs);
    var current := SkipAll(rings, start, first, hs);
    StartProgress(hs, start);
    out := MergeLoop(rings, current, hs, Starts(hs, start), start);
  }

  ghost function Histories(buffers: seq<Buffer>): (hs: seq<seq<Event>>)
    reads buffers
    ensures |hs| == |buffers| && forall i :: 0 <= i < |hs| ==> hs[i] == buffers[i].history
  {
    if buffers == [] then [] else [buffers[0].history] + Histories(buffers[1..])
  }

  method Contents(buffers: seq<Buffer>) returns (rings: seq<Ring>)
    requires forall b :: b in buffers ==> b.Valid()
    ensures AllKeep(rings, Histories(buffers))
  {
    rings := [];
    for i := 0 to |buffers|
      invariant |rings| == i && forall j :: 0 <= j < i ==> rings[j] == buffers[j].View()
    {
      rings := rings + [buffers[i].View()];
    }
    forall i | 0 <= i < |buffers|
      ensures Keeps(rings[i], Histories(buffers)[i])
    {
      assert buffers[i].Valid();
    }
  }

  method PrintBuffers(buffers: seq<Buffer>, ghost hs: seq<seq<Event>>) returns (start: nat, out: seq<Line>)
    requires forall b :: b in buffers ==> b.Valid() && Nondecreasing(b.history)
    requires hs == Histories(buffers)
    ensures IsStart(hs, |hs|, start) && Merged(hs, start, out)
  {
    var rings := Contents(buffers);
    forall i | 0 <= i < |hs|
      ensures Nondecreasing(hs[i])
    {
      assert buffers[i] in buffers;
    }
    start, out := PrintInternal(rings, hs);
  }

  class Trace {
    var frozen: bool
    var buffers: seq<Buffer>

    /** All traces are frozen while they are printed. */
    method Print(ghost hs: seq<seq<Event>>) returns (start: nat, out: seq<Line>)
      requires forall b :: b in buffers ==> b.Valid() && Nondecreasing(b.history)
      requires hs == Histories(buffers)
      modifies this`frozen
      ensures !frozen && Histories(buffers) == hs
      ensures IsStart(hs, |hs|, start) && Merged(hs, start, out)
    {
      frozen := true;
      start, out := PrintBuffers(buffers, hs);
      frozen := false;
    }
  }

  // ----- the output is determined -----

  lemma {:induction false} ProjectMember(out: seq<Line>, i: nat, e: Event)
    ensures e in Project(out, i) <==> Line(i, e) in out
  {
    if out != [] {
      var m := |out| - 1;
      assert out == out[..m] + [out[m]];
      ProjectMember(out[..m], i, e);
    }
  }

  /** The last line of one output comes no later than the last line of another with
      the same events. */
  lemma LastBefore(a: seq<Line>, b: seq<Line>)
    requires a != [] && b != [] && InOrder(b)
    requires Project(a, a[|a| - 1].buffer) == Project(b, a[|a| - 1].buffer)
    ensures var l, m := a[|a| - 1], b[|b| - 1];
            Before(l.event.timestamp, l.buffer, m.event.timestamp, m.buffer)
  {
    var l := a[|a| - 1];
    ProjectMember(a, l.buffer, l.event);
    ProjectMember(b, l.buffer, l.event);
  }

  /** Time order and the events of every buffer determine the output. */
  lemma {:induction false} OrderDetermines(a: seq<Line>, b: seq<Line>, n: nat)
    requires InOrder(a) && InOrder(b)
    requires forall l :: l in a + b ==> l.buffer < n
    requires forall i: nat :: i < n ==> Project(a, i) == Project(b, i)
    ensures a == b
    decreases |a|
  {
    if a == [] || b == [] {
      Visible(a, n);
      Visible(b, n);
    } else {
      var p, q := |a| - 1, |b| - 1;
      assert a[p] in a + b && b[q] in a + b;
      var p', q' := a[..p], b[..q];
      assert a == p' + [a[p]] && b == q' + [b[q]];
      SameLast(p', a[p], q', b[q], n);
      forall l: Line | l in p' + q'
        ensures l.buffer < n
      {
        assert l in a + b;
      }
      OrderDetermines(p', q', n);
    }
  }

  lemma SameLast(p: seq<Line>, l: Line, q: seq<Line>, m: Line, n: nat)
    requires InOrder(p + [l]) && InOrder(q + [m]) && l.buffer < n && m.buffer < n
    requires forall i: nat :: i < n ==> Project(p + [l], i) == Project(q + [m], i)
    ensures l == m
    ensures forall i: nat :: i < n ==> Project(p, i) == Project(q, i)
  {
    LastBefore(p + [l], q + [m]);
    LastBefore(q + [m], p + [l]);
    forall i: nat | i < n
      ensures Project(p, i) == Project(q, i) && (i == l.buffer ==> l == m)
    {
      SamePrefix(p, l, q, m, i);
    }
  }

  lemma Visible(a: seq<Line>, n: nat)
    requires forall l :: l in a ==> l.buffer < n
    ensures a == [] || exists i: nat :: i < n && Project(a, i) != []
  {
    if a != [] {
      assert a[0] in a;
      ProjectMember(a, a[0].buffer, a[0].event);
    }
  }

  lemma SamePrefix(a: seq<Line>, l: Line, b: seq<Line>, m: Line, i: nat)
    requires l.buffer == m.buffer && Project(a + [l], i) == Project(b + [m], i)
    ensures Project(a, i) == Project(b, i) && (i == l.buffer ==> l == m)
  {
    ProjectOne(a, l, i);
    ProjectOne(b, m, i);
    if i == l.buffer {
      DropLast(Project(a, i), Project(b, i), l.event, m.event);
    } else {
      assert Project(a + [l], i) == Project(a, i) && Project(b + [m], i) == Project(b, i);
    }
  }

  lemma DropLast(s: seq<Event>, t: seq<Event>, e: Event, f: Event)
    ensures s + [e] == t + [f] ==> s == t && e == f
  {
    if s + [e] == t + [f] {
      assert |s + [e]| == |t + [f]|;
      assert s == (s + [e])[..|s|] && e == (s + [e])[|s|];
      assert t == (t + [f])[..|s|] && f == (t + [f])[|s|];
    }
  }

  /** So a start time and what the buffers keep leave one possible output. */
  lemma OutputDetermined(hs: seq<seq<Event>>, start: nat, a: seq<Line>, b: seq<Line>)
    requires Merged(hs, start, a) && Merged(hs, start, b)
    ensures a == b
  {
    forall l | l in a + b
      ensures l.buffer < |hs|
    {
      assert l in a || l in b;
    }
    OrderDetermines(a, b, |hs|);
  }

  // ----- no missing data -----

  lemma {:induction false} ShownMember(s: seq<Event>, start: nat, e: Event)
    ensures e in Shown(s, start) <==> e in s && start <= e.timestamp < NEVER
  {
    if s != [] {
      assert s == [s[0]] + s[1..];
      ShownMember(s[1..], start, e);
    }
  }

  /** Every event ever recorded after the starting time is printed, overwritten
      ones included: there are none. */
  lemma NothingMissing(hs: seq<seq<Event>>, start: nat, out: seq<Line>, i: nat, k: nat)
    requires IsStart(hs, |hs|, start) && Merged(hs, start, out)
    requires i < |hs| && Nondecreasing(hs[i]) && k < |hs[i]| && start < hs[i][k].timestamp < NEVER
    ensures Line(i, hs[i][k]) in out
  {
    var h := hs[i];
    var kept := h[Oldest(h)..];
    assert k >= Oldest(h) && h[k] == kept[k - Oldest(h)];
    ShownMember(kept, start, h[k]);
    ProjectMember(out, i, h[k]);
  }
}
