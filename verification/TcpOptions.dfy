/** Parsing and building the options of a TCP header. */
module TcpOptions {
  import opened Basics
  import opened Words

  const END_OF_OPTIONS: int := 0
  const NO_OP: int := 1
  const MSS_KIND: int := 2
  const TIMESTAMP_KIND: int := 8
  const MSS_LEN: nat := 4
  const TIMESTAMP_LEN: nat := 10
  const TCP_HLEN: nat := 20

  /** `hdrlen * 4 - 20` in 16 bits. */
  function OptsLen(hdrLen: nat): nat { (hdrLen * 4 - TCP_HLEN) % U16 }

  /** What one turn of the parser's loop does at offset `off`. */
  datatype Turn = Done | Bad | Skip | FoundMss | FoundTs

  /** `opt` is the memory behind the fixed header. */
  function TurnAt(opt: seq<Byte>, off: nat): Turn
    requires off + 1 < |opt|
  {
    var kind, len := opt[off], opt[off + 1];
    if kind == END_OF_OPTIONS then Done
    else if kind == NO_OP then Skip
    else if kind == MSS_KIND then (if len != MSS_LEN then Bad else FoundMss)
    else if kind == TIMESTAMP_KIND then (if len != TIMESTAMP_LEN then Bad else FoundTs)
    else Bad
  }

  function Advance(t: Turn): nat {
    match t case Skip => 1 case FoundMss => MSS_LEN case FoundTs => TIMESTAMP_LEN case _ => 0
  }

  /** The result: success, and where the last options of either kind start. */
  datatype Parsed = Parsed(ok: bool, mss: Option<nat>, ts: Option<nat>)

  /** Offsets cannot wrap in 16 bits. */
  predicate NoWrap(n: nat) { n + TIMESTAMP_LEN <= U16 }

  function Parse(opt: seq<Byte>, n: nat, off: nat, mss: Option<nat>, ts: Option<nat>): Parsed
    requires NoWrap(n) && n < |opt|
    decreases n - off
  {
    if off >= n then Parsed(true, mss, ts)
    else
      match TurnAt(opt, off)
      case Done => Parsed(true, mss, ts)
      case Bad => Parsed(false, mss, ts)
      case Skip => Parse(opt, n, off + 1, mss, ts)
      case FoundMss => Parse(opt, n, off + MSS_LEN, Some(off), ts)
      case FoundTs => Parse(opt, n, off + TIMESTAMP_LEN, mss, Some(off))
  }

  // ----- the loop, with its 16-bit offset -----

  /** The variables of the loop. */
  datatype Cursor = Cursor(off: nat, mss: Option<nat>, ts: Option<nat>)

  const START: Cursor := Cursor(0, None, None)

  /** One turn of the loop; none if the loop ends here. */
  function Next(opt: seq<Byte>, n: nat, c: Cursor): Option<Cursor>
    requires n < |opt|
  {
    if c.off >= n then None
    else
      match TurnAt(opt, c.off)
      case Done => None
      case Bad => None
      case Skip => Some(c.(off := (c.off + 1) % U16))
      case FoundMss => Some(Cursor((c.off + MSS_LEN) % U16, Some(c.off), c.ts))
      case FoundTs => Some(Cursor((c.off + TIMESTAMP_LEN) % U16, c.mss, Some(c.off)))
  }

  /** The variables after `k` turns, if the loop lasts that long. */
  function CursorAfter(opt: seq<Byte>, n: nat, k: nat): Option<Cursor>
    requires n < |opt|
  {
    if k == 0 then Some(START)
    else
      var c := CursorAfter(opt, n, k - 1);
      if c.None? then None else Next(opt, n, c.value)
  }

  ghost predicate Terminates(opt: seq<Byte>, n: nat)
    requires n < |opt|
  {
    exists k: nat :: CursorAfter(opt, n, k).None?
  }

  /** The loop ends after `k` turns with these variables. */
  predicate EndsAt(opt: seq<Byte>, n: nat, k: nat, c: Cursor)
    requires n < |opt|
  {
    CursorAfter(opt, n, k) == Some(c) && Next(opt, n, c).None?
  }

  /** The end of the loop is an error at an option of unknown kind or wrong length. */
  predicate EndsBadly(opt: seq<Byte>, n: nat, c: Cursor)
    requires n < |opt|
  {
    c.off < n && TurnAt(opt, c.off).Bad?
  }

  lemma EndsOnce(opt: seq<Byte>, n: nat, j: nat, c: Cursor, k: nat, d: Cursor)
    requires n < |opt| && EndsAt(opt, n, j, c) && EndsAt(opt, n, k, d)
    ensures c == d
  {
    assert CursorAfter(opt, n, j + 1).None? && CursorAfter(opt, n, k + 1).None?;
    NotYetOver(opt, n, j, k + 1);
    NotYetOver(opt, n, k, j + 1);
  }

  lemma {:induction false} EndExists(opt: seq<Byte>, n: nat, last: nat) returns (k: nat, c: Cursor)
    requires n < |opt| && CursorAfter(opt, n, last).None?
    ensures EndsAt(opt, n, k, c)
  {
    k := last - 1;
    if CursorAfter(opt, n, k).Some? {
      c := CursorAfter(opt, n, k).value;
    } else {
      k, c := EndExists(opt, n, k);
    }
  }

  lemma SomeEnd(opt: seq<Byte>, n: nat)
    requires n < |opt| && Terminates(opt, n)
    ensures exists k: nat, c: Cursor :: EndsAt(opt, n, k, c)
  {
    var last: nat :| CursorAfter(opt, n, last).None?;
    var k, c := EndExists(opt, n, last);
  }

  /** The variables with which the loop ends. */
  ghost function Final(opt: seq<Byte>, n: nat): (c: Cursor)
    requires n < |opt| && Terminates(opt, n)
    ensures exists k: nat :: EndsAt(opt, n, k, c)
  {
    SomeEnd(opt, n);
    var k: nat, c: Cursor :| EndsAt(opt, n, k, c);
    c
  }

  /** `parse_tcp_opts` on memory on which its loop ends. */
  method ParseTcpOpts(hdrLen: nat, opt: seq<Byte>) returns (rc: int, mss: Option<nat>, ts: Option<nat>)
    requires hdrLen < 16 && OptsLen(hdrLen) < |opt| && Terminates(opt, OptsLen(hdrLen))
    ensures var c := Final(opt, OptsLen(hdrLen));
            && (mss, ts) == (c.mss, c.ts)
            && rc == if EndsBadly(opt, OptsLen(hdrLen), c) then -1 else 0
  {
    ghost var turns, c;
    rc, mss, ts, turns, c := OptionLoop(opt, (hdrLen * 4 - 20) % U16);
    ghost var k: nat :| EndsAt(opt, OptsLen(hdrLen), k, Final(opt, OptsLen(hdrLen)));
    EndsOnce(opt, OptsLen(hdrLen), turns, c, k, Final(opt, OptsLen(hdrLen)));
  }

  method OptionLoop(opt: seq<Byte>, optsLen: nat)
    returns (rc: int, mss: Option<nat>, ts: Option<nat>, ghost turns: nat, ghost c: Cursor)
    requires optsLen < |opt| && Terminates(opt, optsLen)
    ensures EndsAt(opt, optsLen, turns, c) && (mss, ts) == (c.mss, c.ts)
    ensures rc == if EndsBadly(opt, optsLen, c) then -1 else 0
  {
    var off: nat := 0;
    mss, ts, turns, c := None, None, 0, START;
    ghost var last: nat :| CursorAfter(opt, optsLen, last).None?;
    while off < optsLen
      invariant c == Cursor(off, mss, ts) && off < U16
      invariant CursorAfter(opt, optsLen, turns) == Some(c)
      decreases last - turns
    {
      NotYetOver(opt, optsLen, turns, last);
      var kind := opt[off];
      if kind == END_OF_OPTIONS {
        break;
      } else if kind == NO_OP {
        off := (off + 1) % U16;
      } else {
        var len := opt[off + 1];
        if kind == MSS_KIND {
          if len != MSS_LEN {
            return -1, mss, ts, turns, c;
          }
          mss := Some(off);
        } else if kind == TIMESTAMP_KIND {
          if len != TIMESTAMP_LEN {
            return -1, mss, ts, turns, c;
          }
          ts := Some(off);
        } else {
          return -1, mss, ts, turns, c;
        }
        off := (off + len) % U16;
      }
      turns, c := turns + 1, Cursor(off, mss, ts);
    }
    rc := 0;
  }

  lemma {:induction false} NotYetOver(opt: seq<Byte>, n: nat, k: nat, last: nat)
    requires n < |opt| && CursorAfter(opt, n, k).Some? && CursorAfter(opt, n, last).None?
    ensures k < last
  {
    if last <= k {
      OverForGood(opt, n, last, k);
    }
  }

  lemma {:induction false} OverForGood(opt: seq<Byte>, n: nat, k: nat, j: nat)
    requires n < |opt| && CursorAfter(opt, n, k).None? && k <= j
    ensures CursorAfter(opt, n, j).None?
  {
    if k < j {
      OverForGood(opt, n, k, j - 1);
    }
  }

  /** Where the offset cannot wrap, a turn of the loop is a step of the reading. */
  lemma PlainTurn(opt: seq<Byte>, n: nat, c: Cursor)
    requires NoWrap(n) && n < |opt| && Next(opt, n, c).Some?
    ensures var c' := Next(opt, n, c).value;
            && c'.off == c.off + Advance(TurnAt(opt, c.off)) && c.off < c'.off < n + TIMESTAMP_LEN
            && Parse(opt, n, c.off, c.mss, c.ts) == Parse(opt, n, c'.off, c'.mss, c'.ts)
  {
    var d := Advance(TurnAt(opt, c.off));
    assert (c.off + d) % U16 == c.off + d;
  }

  /** There the loop computes the recursive reading. */
  lemma {:induction false} LoopIsParse(opt: seq<Byte>, n: nat, k: nat)
    requires NoWrap(n) && n < |opt| && CursorAfter(opt, n, k).Some?
    ensures var c := CursorAfter(opt, n, k).value;
            Parse(opt, n, 0, None, None) == Parse(opt, n, c.off, c.mss, c.ts)
  {
    if k > 0 {
      LoopIsParse(opt, n, k - 1);
      PlainTurn(opt, n, CursorAfter(opt, n, k - 1).value);
    }
  }

  lemma EndIsParsed(opt: seq<Byte>, n: nat)
    requires NoWrap(n) && n < |opt| && Terminates(opt, n)
    ensures var c := Final(opt, n);
            Parse(opt, n, 0, None, None) == Parsed(!EndsBadly(opt, n, c), c.mss, c.ts)
  {
    var c := Final(opt, n);
    var k: nat :| EndsAt(opt, n, k, c);
    EndAtIsParsed(opt, n, k, c);
  }

  lemma EndAtIsParsed(opt: seq<Byte>, n: nat, k: nat, c: Cursor)
    requires NoWrap(n) && n < |opt| && EndsAt(opt, n, k, c)
    ensures Parse(opt, n, 0, None, None) == Parsed(!EndsBadly(opt, n, c), c.mss, c.ts)
  {
    LoopIsParse(opt, n, k);
  }

  // ----- option lists -----

  datatype RawOption = Nop | Mss(mss: nat) | Timestamp(val: nat, ecr: nat)

  predicate OptionOk(o: RawOption) {
    match o case Nop => true case Mss(m) => m < U16 case Timestamp(v, e) => v < U32 && e < U32
  }

  type TcpOption = o: RawOption | OptionOk(o) witness Nop

  function Size(o: TcpOption): nat {
    match o case Nop => 1 case Mss(_) => MSS_LEN case Timestamp(_, _) => TIMESTAMP_LEN
  }

  function Be16(x: nat): seq<Byte>
    requires x < U16
  {
    [x / 256, x % 256]
  }

  function Be32(x: nat): seq<Byte>
    requires x < U32
  {
    Be16(x / U16) + Be16(x % U16)
  }

  function Encode1(o: TcpOption): (r: seq<Byte>)
    ensures |r| == Size(o)
  {
    match o
    case Nop => [NO_OP]
    case Mss(m) => [MSS_KIND, MSS_LEN] + Be16(m)
    case Timestamp(v, e) => [TIMESTAMP_KIND, TIMESTAMP_LEN] + Be32(v) + Be32(e)
  }

  function Encode(os: seq<TcpOption>): seq<Byte> {
    if os == [] then [] else Encode1(os[0]) + Encode(os[1..])
  }

  function U16At(opt: seq<Byte>, off: nat): nat
    requires off + 2 <= |opt|
  {
    var hi: nat, lo: nat := opt[off], opt[off + 1];
    hi * 256 + lo
  }

  function U32At(opt: seq<Byte>, off: nat): nat
    requires off + 4 <= |opt|
  {
    U16At(opt, off) * U16 + U16At(opt, off + 2)
  }

  /** The values a caller reads through the two pointers. */
  function MssValue(opt: seq<Byte>, at: Option<nat>): Option<nat>
    requires at.Some? ==> at.value + MSS_LEN <= |opt|
  {
    if at.None? then None else Some(U16At(opt, at.value + 2))
  }

  function TsValue(opt: seq<Byte>, at: Option<nat>): Option<(nat, nat)>
    requires at.Some? ==> at.value + TIMESTAMP_LEN <= |opt|
  {
    if at.None? then None else Some((U32At(opt, at.value + 2), U32At(opt, at.value + 6)))
  }

  /** The last MSS, and the last timestamp, of a list. */
  function LastMss(os: seq<TcpOption>, before: Option<nat>): Option<nat> {
    if os == [] then before else LastMss(os[1..], if os[0].Mss? then Some(os[0].mss) else before)
  }

  function LastTs(os: seq<TcpOption>, before: Option<(nat, nat)>): Option<(nat, nat)> {
    if os == [] then before else LastTs(os[1..], if os[0].Timestamp? then Some((os[0].val, os[0].ecr)) else before)
  }

  function Zeros(k: nat): seq<Byte> { seq(k, _ => 0) }

  /** An option's bytes are in memory at `off`. */
  predicate At(opt: seq<Byte>, off: nat, o: TcpOption) {
    && off + Size(o) < |opt|
    && match o
       case Nop => opt[off] == NO_OP
       case Mss(m) => opt[off] == MSS_KIND && opt[off + 1] == MSS_LEN && U16At(opt, off + 2) == m
       case Timestamp(v, e) => opt[off] == TIMESTAMP_KIND && opt[off + 1] == TIMESTAMP_LEN
                               && U32At(opt, off + 2) == v && U32At(opt, off + 6) == e
  }

  /** Memory from `off` on holds a list of options, then end-of-options bytes. */
  predicate Holds(opt: seq<Byte>, n: nat, off: nat, os: seq<TcpOption>)
    requires n < |opt|
    decreases |os|
  {
    if os == [] then off < n ==> opt[off] == END_OF_OPTIONS
    else off + Size(os[0]) <= n && At(opt, off, os[0]) && Holds(opt, n, off + Size(os[0]), os[1..])
  }

  lemma SplitSlice(opt: seq<Byte>, off: nat, n: nat, e: seq<Byte>, rest: seq<Byte>)
    requires off <= n <= |opt| && opt[off..n] == e + rest
    ensures off + |e| <= n && opt[off..off + |e|] == e && opt[off + |e|..n] == rest
  {
    assert |opt[off..n]| == |e| + |rest|;
    assert opt[off..off + |e|] == opt[off..n][..|e|];
    assert opt[off + |e|..n] == opt[off..n][|e|..];
  }

  /** The pointers stay inside the options, so that their values can be read. */
  predicate Readable(opt: seq<Byte>, mss: Option<nat>, ts: Option<nat>) {
    && (mss.Some? ==> mss.value + MSS_LEN <= |opt|)
    && (ts.Some? ==> ts.value + TIMESTAMP_LEN <= |opt|)
  }

  function NewMss(o: TcpOption, off: nat, mss: Option<nat>): Option<nat> { if o.Mss? then Some(off) else mss }

  function NewTs(o: TcpOption, off: nat, ts: Option<nat>): Option<nat> { if o.Timestamp? then Some(off) else ts }

  lemma TurnParses(opt: seq<Byte>, n: nat, off: nat, o: TcpOption, mss: Option<nat>, ts: Option<nat>)
    requires NoWrap(n) && n < |opt| && Readable(opt, mss, ts)
    requires off + Size(o) <= n && At(opt, off, o)
    ensures Parse(opt, n, off, mss, ts) == Parse(opt, n, off + Size(o), NewMss(o, off, mss), NewTs(o, off, ts))
    ensures Readable(opt, NewMss(o, off, mss), NewTs(o, off, ts))
    ensures MssValue(opt, NewMss(o, off, mss)) == if o.Mss? then Some(o.mss) else MssValue(opt, mss)
    ensures TsValue(opt, NewTs(o, off, ts)) == if o.Timestamp? then Some((o.val, o.ecr)) else TsValue(opt, ts)
  {
  }

  /** The result of parsing reads as these two values. */
  predicate Recovers(opt: seq<Byte>, r: Parsed, mss: Option<nat>, ts: Option<(nat, nat)>) {
    && r.ok && Readable(opt, r.mss, r.ts)
    && MssValue(opt, r.mss) == mss && TsValue(opt, r.ts) == ts
  }

  /** An end-of-options byte, or the end of the options, ends the parse. */
  lemma ParsePadding(opt: seq<Byte>, n: nat, off: nat, mss: Option<nat>, ts: Option<nat>)
    requires NoWrap(n) && n < |opt| && Readable(opt, mss, ts) && (off < n ==> opt[off] == 0)
    ensures Recovers(opt, Parse(opt, n, off, mss, ts), MssValue(opt, mss), TsValue(opt, ts))
  {
  }

  /** Parsing a list, padded with end-of-options bytes, recovers its last MSS and
      its last timestamp. */
  lemma {:induction false} ParseRecovers(opt: seq<Byte>, n: nat, off: nat, os: seq<TcpOption>, mss: Option<nat>,
                                         ts: Option<nat>)
    requires NoWrap(n) && n < |opt| && Holds(opt, n, off, os) && Readable(opt, mss, ts)
    ensures Recovers(opt, Parse(opt, n, off, mss, ts), LastMss(os, MssValue(opt, mss)), LastTs(os, TsValue(opt, ts)))
    decreases |os|
  {
    if os == [] {
      ParsePadding(opt, n, off, mss, ts);
    } else {
      TurnParses(opt, n, off, os[0], mss, ts);
      ParseRecovers(opt, n, off + Size(os[0]), os[1..], NewMss(os[0], off, mss), NewTs(os[0], off, ts));
    }
  }

  /** An option of another kind, or of a known kind with another length. */
  predicate Malformed(opt: seq<Byte>, off: nat)
    requires off + 1 < |opt|
  {
    && opt[off] != END_OF_OPTIONS && opt[off] != NO_OP
    && !(opt[off] == MSS_KIND && opt[off + 1] == MSS_LEN)
    && !(opt[off] == TIMESTAMP_KIND && opt[off + 1] == TIMESTAMP_LEN)
  }

  /** Memory from `off` on holds a list of options, then a malformed one. */
  predicate HoldsThenBad(opt: seq<Byte>, n: nat, off: nat, os: seq<TcpOption>)
    requires n < |opt|
    decreases |os|
  {
    if os == [] then off < n && Malformed(opt, off)
    else off + Size(os[0]) <= n && At(opt, off, os[0]) && HoldsThenBad(opt, n, off + Size(os[0]), os[1..])
  }

  /** A malformed option is an error, wherever it stands; what came before it has been
      read. */
  lemma {:induction false} ParseRejects(opt: seq<Byte>, n: nat, off: nat, os: seq<TcpOption>, mss: Option<nat>,
                                        ts: Option<nat>)
    requires NoWrap(n) && n < |opt| && HoldsThenBad(opt, n, off, os) && Readable(opt, mss, ts)
    ensures var r := Parse(opt, n, off, mss, ts);
            && !r.ok && Readable(opt, r.mss, r.ts)
            && MssValue(opt, r.mss) == LastMss(os, MssValue(opt, mss))
            && TsValue(opt, r.ts) == LastTs(os, TsValue(opt, ts))
    decreases |os|
  {
    if os != [] {
      TurnParses(opt, n, off, os[0], mss, ts);
      ParseRejects(opt, n, off + Size(os[0]), os[1..], NewMss(os[0], off, mss), NewTs(os[0], off, ts));
    }
  }

  lemma {:induction false} RejectedList(opt: seq<Byte>, n: nat, off: nat, mss: Option<nat>, ts: Option<nat>)
    returns (os: seq<TcpOption>)
    requires NoWrap(n) && n < |opt| && !Parse(opt, n, off, mss, ts).ok
    ensures HoldsThenBad(opt, n, off, os)
    decreases n - off
  {
    match TurnAt(opt, off)
    case Bad =>
      os := [];
    case Skip =>
      var rest := RejectedList(opt, n, off + 1, mss, ts);
      os := [Nop] + rest;
      assert os[1..] == rest;
    case FoundMss =>
      var rest := RejectedList(opt, n, off + MSS_LEN, Some(off), ts);
      var o: TcpOption := Mss(U16At(opt, off + 2));
      os := [o] + rest;
      assert os[1..] == rest;
    case FoundTs =>
      var rest := RejectedList(opt, n, off + TIMESTAMP_LEN, mss, Some(off));
      var o: TcpOption := Timestamp(U32At(opt, off + 2), U32At(opt, off + 6));
      os := [o] + rest;
      assert os[1..] == rest;
  }

  predicate IsBad(opt: seq<Byte>, n: nat, os: seq<TcpOption>)
    requires n < |opt|
  {
    HoldsThenBad(opt, n, 0, os)
  }

  /** And nothing else is an error. */
  lemma RejectsIff(opt: seq<Byte>, n: nat)
    requires NoWrap(n) && n < |opt|
    ensures !Parse(opt, n, 0, None, None).ok <==> exists os :: IsBad(opt, n, os)
  {
    if !Parse(opt, n, 0, None, None).ok {
      var os := RejectedList(opt, n, 0, None, None);
      assert IsBad(opt, n, os);
    } else if exists os :: IsBad(opt, n, os) {
      var os :| IsBad(opt, n, os);
      ParseRejects(opt, n, 0, os, None, None);
    }
  }

  lemma Be16RoundTrip(opt: seq<Byte>, off: nat, x: nat)
    requires x < U16 && off + 2 <= |opt| && opt[off..off + 2] == Be16(x)
    ensures U16At(opt, off) == x
  {
    assert opt[off] == Be16(x)[0] && opt[off + 1] == Be16(x)[1];
  }

  lemma Be32RoundTrip(opt: seq<Byte>, off: nat, x: nat)
    requires x < U32 && off + 4 <= |opt| && opt[off..off + 4] == Be32(x)
    ensures U32At(opt, off) == x
  {
    SplitSlice(opt, off, off + 4, Be16(x / U16), Be16(x % U16));
    Be16RoundTrip(opt, off, x / U16);
    Be16RoundTrip(opt, off + 2, x % U16);
  }

  /** The encoding of an option is the option in memory. */
  lemma EncodedAt(opt: seq<Byte>, off: nat, o: TcpOption)
    requires off + Size(o) < |opt| && opt[off..off + Size(o)] == Encode1(o)
    ensures At(opt, off, o)
  {
    var e := Encode1(o);
    assert opt[off] == e[0];
    match o
    case Nop =>
    case Mss(m) =>
      assert opt[off + 1] == e[1];
      SplitSlice(opt, off, off + 4, [MSS_KIND, MSS_LEN], Be16(m));
      Be16RoundTrip(opt, off + 2, m);
    case Timestamp(v, r) =>
      assert opt[off + 1] == e[1];
      assert e == [TIMESTAMP_KIND, TIMESTAMP_LEN] + (Be32(v) + Be32(r));
      SplitSlice(opt, off, off + 10, [TIMESTAMP_KIND, TIMESTAMP_LEN], Be32(v) + Be32(r));
      SplitSlice(opt, off + 2, off + 10, Be32(v), Be32(r));
      Be32RoundTrip(opt, off + 2, v);
      Be32RoundTrip(opt, off + 6, r);
  }

  lemma PeelOption(opt: seq<Byte>, off: nat, end: nat, os: seq<TcpOption>)
    requires os != [] && off <= end < |opt| && opt[off..end] == Encode(os)
    ensures off + Size(os[0]) <= end && At(opt, off, os[0])
    ensures opt[off + Size(os[0])..end] == Encode(os[1..])
  {
    var e, rest := Encode1(os[0]), Encode(os[1..]);
    SplitSlice(opt, off, end, e, rest);
    EncodedAt(opt, off, os[0]);
  }

  /** So is the encoding of a list, padded with zeros. */
  lemma {:induction false} EncodedHolds(opt: seq<Byte>, n: nat, off: nat, end: nat, os: seq<TcpOption>)
    requires off <= end <= n < |opt| && opt[off..end] == Encode(os)
    requires end < n ==> opt[end] == END_OF_OPTIONS
    ensures Holds(opt, n, off, os)
    decreases |os|
  {
    if os == [] {
      assert |opt[off..end]| == 0;
    } else {
      PeelOption(opt, off, end, os);
      EncodedHolds(opt, n, off + Size(os[0]), end, os[1..]);
    }
  }

  // ----- the options of a control packet -----

  /** The options that a control packet carries: an MSS if it is not 0, and a
      timestamp with value 0 if asked for. */
  function ControlOptions(mssOpt: nat, tsOpt: bool, tsEcho: nat): seq<TcpOption>
    requires mssOpt < U16 && tsEcho < U32
  {
    (if mssOpt != 0 then [Mss(mssOpt)] else []) + (if tsOpt then [Timestamp(0, tsEcho)] else [])
  }

  /** The option bytes and the header length field of `send_tcp_control`; the
      buffer comes zeroed. */
  method BuildControl(mssOpt: nat, tsOpt: bool, tsEcho: nat) returns (buf: seq<Byte>, hdrLen: nat)
    requires mssOpt < U16 && tsEcho < U32
    ensures 5 <= hdrLen < 16 && OptsLen(hdrLen) == |buf| <= 16
    ensures BuiltAs(buf, mssOpt, tsOpt, tsEcho)
  {
    var mss := if mssOpt != 0 then Encode1(Mss(mssOpt)) else [];
    var ts := if tsOpt then Encode1(Timestamp(0, tsEcho)) else [];
    buf, hdrLen := LayOut(mss, ts);
    ControlBytes(mssOpt, tsOpt, tsEcho);
  }

  /** The layout of the option space: the MSS first, then the timestamp, each at
      the offset the ones before it leave, rounded up to whole 32-bit words. */
  method LayOut(mss: seq<Byte>, ts: seq<Byte>) returns (buf: seq<Byte>, hdrLen: nat)
    requires |mss| <= MSS_LEN && |ts| <= TIMESTAMP_LEN
    ensures 5 <= hdrLen < 16 && OptsLen(hdrLen) == |buf| <= 16
    ensures |mss| + |ts| <= |buf| && buf == mss + ts + Zeros(|buf| - |mss + ts|)
  {
    var optlen := 0;
    var offMss := optlen;
    optlen := optlen + |mss|;
    var offTs := optlen;
    optlen := optlen + |ts|;
    WholeWords(optlen);
    optlen := (optlen + 3) / 4 * 4;
    buf := Zeros(optlen);
    hdrLen := 5 + optlen / 4;
    CopyNext([], optlen, mss);
    assert [] + Zeros(optlen) == Zeros(optlen) && [] + mss == mss;
    if mss != [] {
      buf := CopyAt(buf, offMss, mss);
    }
    assert buf == mss + Zeros(optlen - |mss|);
    CopyNext(mss, optlen - |mss|, ts);
    if ts != [] {
      buf := CopyAt(buf, offTs, ts);
    }
  }

  lemma WholeWords(n: nat)
    requires n <= MSS_LEN + TIMESTAMP_LEN
    ensures var len := (n + 3) / 4 * 4;
            n <= len <= 16 && OptsLen(5 + len / 4) == len && 5 + len / 4 < 16
  {
  }

  /** Storing bytes right behind those already stored. */
  lemma CopyNext(done: seq<Byte>, room: nat, bytes: seq<Byte>)
    requires |bytes| <= room
    ensures CopyAt(done + Zeros(room), |done|, bytes) == done + bytes + Zeros(room - |bytes|)
  {
  }

  lemma ControlBytes(mssOpt: nat, tsOpt: bool, tsEcho: nat)
    requires mssOpt < U16 && tsEcho < U32
    ensures Encode(ControlOptions(mssOpt, tsOpt, tsEcho))
         == (if mssOpt != 0 then Encode1(Mss(mssOpt)) else []) + (if tsOpt then Encode1(Timestamp(0, tsEcho)) else [])
  {
    var os := ControlOptions(mssOpt, tsOpt, tsEcho);
    if mssOpt != 0 && tsOpt {
      var tail: seq<TcpOption> := [Timestamp(0, tsEcho)];
      assert os[1..] == tail && tail[1..] == [];
      assert Encode(tail) == Encode1(tail[0]) + Encode([]);
    } else if mssOpt != 0 || tsOpt {
      assert os[1..] == [];
    }
  }

  /** Building and parsing undo each other, for every MSS and timestamp, whatever
      follows the options in memory. */
  lemma ControlRoundTrip(mssOpt: nat, tsOpt: bool, tsEcho: nat, buf: seq<Byte>, rest: seq<Byte>, hdrLen: nat)
    requires mssOpt < U16 && tsEcho < U32 && 0 < |rest| && OptsLen(hdrLen) == |buf| <= 16
    requires BuiltAs(buf, mssOpt, tsOpt, tsEcho)
    ensures Recovers(buf + rest, Parse(buf + rest, OptsLen(hdrLen), 0, None, None),
                     if mssOpt != 0 then Some(mssOpt) else None, if tsOpt then Some((0, tsEcho)) else None)
  {
    var os := ControlOptions(mssOpt, tsOpt, tsEcho);
    var opt, k := buf + rest, |Encode(os)|;
    assert opt[..k] == buf[..k] == Encode(os);
    EncodedHolds(opt, |buf|, 0, |Encode(os)|, os);
    ParseRecovers(opt, |buf|, 0, os, None, None);
    ControlLast(mssOpt, tsOpt, tsEcho);
  }

  /** The option bytes of a control packet, padded with zeros. */
  predicate BuiltAs(buf: seq<Byte>, mssOpt: nat, tsOpt: bool, tsEcho: nat)
    requires mssOpt < U16 && tsEcho < U32
  {
    var os := ControlOptions(mssOpt, tsOpt, tsEcho);
    && |Encode(os)| <= |buf| && buf == Encode(os) + Zeros(|buf| - |Encode(os)|)
  }

  lemma ControlLast(mssOpt: nat, tsOpt: bool, tsEcho: nat)
    requires mssOpt < U16 && tsEcho < U32
    ensures LastMss(ControlOptions(mssOpt, tsOpt, tsEcho), None) == if mssOpt != 0 then Some(mssOpt) else None
    ensures LastTs(ControlOptions(mssOpt, tsOpt, tsEcho), None) == if tsOpt then Some((0, tsEcho)) else None
  {
    var os := ControlOptions(mssOpt, tsOpt, tsEcho);
    if mssOpt != 0 && tsOpt {
      var tail: seq<TcpOption> := [Timestamp(0, tsEcho)];
      assert os[1..] == tail && tail[1..] == [];
      assert LastMss(tail, Some(mssOpt)) == LastMss([], Some(mssOpt));
      assert LastTs(tail, None) == LastTs([], Some((0, tsEcho)));
    } else if mssOpt != 0 || tsOpt {
      assert os[1..] == [];
    }
  }

  // ----- termination -----

  lemma {:induction false} OffsetsGrow(opt: seq<Byte>, n: nat, k: nat)
    requires NoWrap(n) && n < |opt|
    ensures CursorAfter(opt, n, k).Some? ==> k <= CursorAfter(opt, n, k).value.off < n + TIMESTAMP_LEN
  {
    if k > 0 && CursorAfter(opt, n, k).Some? {
      OffsetsGrow(opt, n, k - 1);
      PlainTurn(opt, n, CursorAfter(opt, n, k - 1).value);
    }
  }

  /** Memory full of no-ops, with one timestamp option that ends at 2^16. */
  function Looping(): seq<Byte> {
    seq(U16 + 16, i => if i == U16 - 10 then TIMESTAMP_KIND else if i == U16 - 9 then TIMESTAMP_LEN else NO_OP)
  }

  lemma {:induction false} LoopsForever(n: nat, k: nat)
    requires U16 - 10 < n < U16
    ensures CursorAfter(Looping(), n, k).Some? && CursorAfter(Looping(), n, k).value.off <= U16 - 10
  {
    if k > 0 {
      LoopsForever(n, k - 1);
      LoopTurn(n, CursorAfter(Looping(), n, k - 1).value);
    }
  }

  lemma LoopTurn(n: nat, c: Cursor)
    requires U16 - 10 < n < U16 && c.off <= U16 - 10
    ensures Next(Looping(), n, c).Some? && Next(Looping(), n, c).value.off <= U16 - 10
  {
    if c.off == U16 - 10 {
      assert TurnAt(Looping(), c.off) == FoundTs;
    } else {
      assert TurnAt(Looping(), c.off) == Skip;
    }
  }

  /** The parser terminates on every memory exactly for the header lengths other
      than 3 and 4: for those two the wrapped option length is so close to 2^16
      that the 16-bit offset can run in a circle. */
  lemma TerminatesIff(hdrLen: nat)
    requires hdrLen < 16
    ensures (forall opt: seq<Byte> :: OptsLen(hdrLen) < |opt| ==> Terminates(opt, OptsLen(hdrLen)))
            <==> hdrLen != 3 && hdrLen != 4
  {
    var n := OptsLen(hdrLen);
    if hdrLen != 3 && hdrLen != 4 {
      assert NoWrap(n);
      forall opt: seq<Byte> | n < |opt|
        ensures Terminates(opt, n)
      {
        OffsetsGrow(opt, n, n + TIMESTAMP_LEN);
        assert CursorAfter(opt, n, n + TIMESTAMP_LEN).None?;
      }
    } else {
      var opt := Looping();
      forall k: nat
        ensures CursorAfter(opt, n, k).Some?
      {
        LoopsForever(n, k);
      }
      assert n < |opt| && !Terminates(opt, n);
    }
  }
}
