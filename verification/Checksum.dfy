/** The Internet checksum of the benchmark's packet generator: `do_csum` reads
    32-bit words with an end-around carry, whatever the alignment of the
    buffer, on a little-endian machine. */
module Checksum {
  import opened Basics
  import opened Words

  const ONES := 65535

  function High(b: nat): nat { 256 * b }

  // ----- the reference: section 1 of RFC 1071 -----

  /** One's-complement addition of 16-bit words. */
  function OnesAdd(a: nat, b: nat): nat {
    if a + b > ONES then a + b - ONES else a + b
  }

  /** The first 16-bit little-endian word, padded with a zero byte. */
  function Word(s: seq<Byte>): nat
    requires s != []
  {
    s[0] + if |s| > 1 then High(s[1]) else 0
  }

  function Rest(s: seq<Byte>): seq<Byte>
    requires s != []
  {
    if |s| > 1 then s[2..] else []
  }

  /** The one's-complement sum of the words of `s`. */
  function OnesSum(s: seq<Byte>): (r: nat)
    ensures r <= ONES
    decreases |s|
  {
    if s == [] then 0 else OnesAdd(Word(s), OnesSum(Rest(s)))
  }

  // ----- one's-complement sums as residues -----

  /** The 16-bit one's-complement value of a sum: 65535 is taken off while the sum
      is larger, so that only the sum 0 gives 0. */
  function Residue(x: nat): (r: nat)
    ensures r <= ONES && (r == 0 <==> x == 0)
  {
    if x <= ONES then x else Residue(x - ONES)
  }

  /** Adding multiples of 65535 to a sum does not show. */
  lemma {:induction false} ResidueShift(x: nat, k: nat)
    requires x == 0 ==> k == 0
    ensures Residue(x + ONES * k) == Residue(x)
  {
    if k > 0 {
      ResidueShift(x, k - 1);
      assert x + ONES * k - ONES == x + ONES * (k - 1);
    }
  }

  /** Only the residue of a summand matters. */
  lemma {:induction false} ResidueAdd(x: nat, y: nat)
    ensures Residue(x + y) == Residue(Residue(x) + y)
  {
    if x > ONES {
      ResidueAdd(x - ONES, y);
      assert x + y - ONES == x - ONES + y;
    }
  }

  lemma ResidueSum(a: nat, b: nat, y: nat)
    requires Residue(a) == Residue(b)
    ensures Residue(a + y) == Residue(b + y)
  {
    ResidueAdd(a, y);
    ResidueAdd(b, y);
  }

  // ----- byte sums -----

  /** The sum of the bytes, each in the high or the low half of a word in turn. */
  function ByteSum(s: seq<Byte>, high: bool): nat {
    if s == [] then 0 else (if high then High(s[0]) else s[0]) + ByteSum(s[1..], !high)
  }

  predicate Flip(high: bool, n: nat) { high != (n % 2 == 1) }

  lemma {:induction false} ByteSumAppend(s: seq<Byte>, t: seq<Byte>, high: bool)
    ensures ByteSum(s + t, high) == ByteSum(s, high) + ByteSum(t, Flip(high, |s|))
  {
    if s == [] {
      assert s + t == t;
    } else {
      assert (s + t)[1..] == s[1..] + t;
      ByteSumAppend(s[1..], t, !high);
    }
  }

  /** The reference is the residue of the byte sum. */
  lemma {:induction false} OnesSumIsResidue(s: seq<Byte>)
    ensures OnesSum(s) == Residue(ByteSum(s, false))
    decreases |s|
  {
    if s != [] {
      OnesSumIsResidue(Rest(s));
      var rest := ByteSum(Rest(s), false);
      if |s| > 1 {
        assert s[1..][1..] == Rest(s) && s[1..][0] == s[1];
      }
      assert ByteSum(s, false) == rest + Word(s);
      ResidueAdd(rest, Word(s));
      OnesAddIsResidue(Word(s), Residue(rest));
    }
  }

  lemma OnesAddIsResidue(a: nat, b: nat)
    requires a <= ONES && b <= ONES
    ensures OnesAdd(a, b) == Residue(a + b)
  {
    if a + b > ONES {
      ResidueShift(a + b - ONES, 1);
    }
  }

  /** Only all-zero data sums to 0. */
  lemma {:induction false} ZeroSumIff(s: seq<Byte>)
    ensures OnesSum(s) == 0 <==> forall i :: 0 <= i < |s| ==> s[i] == 0
    decreases |s|
  {
    if s != [] {
      var rest := Rest(s);
      ZeroSumIff(rest);
      assert OnesSum(s) == 0 <==> s[0] == 0 && (|s| > 1 ==> s[1] == 0) && OnesSum(rest) == 0;
      assert forall i :: 0 <= i < |rest| ==> rest[i] == s[i + 2];
      assert forall i :: 2 <= i < |s| ==> s[i] == rest[i - 2];
    }
  }

  // ----- folding -----

  function Fold(x: nat): nat { x % U16 + x / U16 }

  lemma FoldKeepsResidue(x: nat)
    ensures Residue(Fold(x)) == Residue(x)
  {
    assert x == Fold(x) + ONES * (x / U16);
    ResidueShift(Fold(x), x / U16);
  }

  method FromThirtyTwo(x: nat) returns (r: nat)
    requires x < U32
    ensures r == Residue(x)
  {
    FoldKeepsResidue(x);
    FoldKeepsResidue(Fold(x));
    r := Fold(x);
    r := Fold(r);
  }

  // ----- swapping the bytes of the sum -----

  function Swap(x: nat): nat { x / 256 % 256 + x % 256 * 256 }

  /** Shifting the data by one byte multiplies the sum by 256. */
  lemma {:induction false} ShiftedSum(s: seq<Byte>, high: bool) returns (k: nat)
    ensures 256 * ByteSum(s, high) == ByteSum(s, !high) + ONES * k
    ensures ByteSum(s, !high) == 0 ==> k == 0
  {
    if s == [] {
      k := 0;
    } else {
      k := ShiftedSum(s[1..], !high);
      if high {
        k := k + s[0];
      }
    }
  }

  lemma SwapIsTimes256(x: nat)
    requires x <= ONES
    ensures Swap(x) == Residue(256 * x)
  {
    var h, l := x / 256, x % 256;
    assert 256 * x == Swap(x) + ONES * h;
    ResidueShift(Swap(x), h);
  }

  lemma {:induction false} Excess(x: nat) returns (k: nat)
    ensures x == Residue(x) + ONES * k
  {
    if x <= ONES {
      k := 0;
    } else {
      k := Excess(x - ONES);
      k := k + 1;
    }
  }

  lemma ResidueTimes256(x: nat)
    ensures Residue(256 * Residue(x)) == Residue(256 * x)
  {
    if x != 0 {
      var k := Excess(x);
      assert 256 * x == 256 * Residue(x) + ONES * (256 * k);
      ResidueShift(256 * Residue(x), 256 * k);
    }
  }

  /** A sum that started in the high half, swapped, is the sum itself. */
  lemma SwapUndoesShift(s: seq<Byte>)
    ensures Swap(Residue(ByteSum(s, true))) == OnesSum(s)
  {
    var r := ByteSum(s, true);
    SwapIsTimes256(Residue(r));
    ResidueTimes256(r);
    var k := ShiftedSum(s, true);
    ResidueShift(ByteSum(s, false), k);
    OnesSumIsResidue(s);
  }

  // ----- do_csum -----

  function Word16(b: seq<Byte>, p: nat): (w: nat)
    requires p + 2 <= |b|
    ensures w < U16
  {
    b[p] + High(b[p + 1])
  }

  function Word32(b: seq<Byte>, p: nat): (w: nat)
    requires p + 4 <= |b|
    ensures w < U32
  {
    Word16(b, p) + U16 * Word16(b, p + 2)
  }

  /** The sum of the first `p` bytes. */
  function PrefixSum(b: seq<Byte>, p: nat, high: bool): nat
    requires p <= |b|
  {
    if p == 0 then 0 else PrefixSum(b, p - 1, high) + if Flip(high, p - 1) then High(b[p - 1]) else b[p - 1]
  }

  lemma {:induction false} PrefixSumIsByteSum(b: seq<Byte>, p: nat, high: bool)
    requires p <= |b|
    ensures PrefixSum(b, p, high) == ByteSum(b[..p], high)
  {
    if p > 0 {
      PrefixSumIsByteSum(b, p - 1, high);
      assert b[..p] == b[..p - 1] + [b[p - 1]];
      ByteSumAppend(b[..p - 1], [b[p - 1]], high);
    }
  }

  lemma Read16(b: seq<Byte>, p: nat, high: bool)
    requires p + 2 <= |b| && !Flip(high, p)
    ensures PrefixSum(b, p + 2, high) == PrefixSum(b, p, high) + Word16(b, p)
    ensures !Flip(high, p + 2)
  {
    assert PrefixSum(b, p + 1, high) == PrefixSum(b, p, high) + b[p];
  }

  /** The result so far stands for the first `p` bytes. */
  predicate SumsTo(b: seq<Byte>, p: nat, high: bool, result: nat) {
    p <= |b| && Residue(result) == Residue(PrefixSum(b, p, high))
  }

  lemma Add16(b: seq<Byte>, p: nat, high: bool, result: nat)
    requires p + 2 <= |b| && !Flip(high, p) && SumsTo(b, p, high, result)
    ensures SumsTo(b, p + 2, high, result + Word16(b, p))
  {
    Read16(b, p, high);
    ResidueSum(result, PrefixSum(b, p, high), Word16(b, p));
  }

  lemma Add8(b: seq<Byte>, p: nat, high: bool, result: nat)
    requires p < |b| && !Flip(high, p) && SumsTo(b, p, high, result)
    ensures SumsTo(b, p + 1, high, result + b[p])
  {
    ResidueSum(result, PrefixSum(b, p, high), b[p]);
  }

  /** The state of the 32-bit loop: the carry is still to be added, and adding it
      cannot overflow. */
  predicate Accumulated(b: seq<Byte>, p: nat, high: bool, result: nat, carry: nat) {
    carry <= 1 && result + carry < U32 && SumsTo(b, p, high, result + carry)
  }

  /** Addition modulo 2^32, the carry found by comparing, loses nothing. */
  lemma CarryKeepsResidue(sum: nat, w: nat)
    requires sum < U32 && w < U32
    ensures var r := Add32(sum, w);
            var c := if w > r then 1 else 0;
            r + c < U32 && Residue(r + c) == Residue(sum + w)
  {
    var r := Add32(sum, w);
    var c := if w > r then 1 else 0;
    assert sum + w == r + c + ONES * ((U16 + 1) * c);
    ResidueShift(r + c, (U16 + 1) * c);
  }

  /** A 32-bit word stands for its two halves. */
  lemma AddHalves(b: seq<Byte>, p: nat, high: bool, sum: nat)
    requires p + 4 <= |b| && !Flip(high, p) && SumsTo(b, p, high, sum)
    ensures SumsTo(b, p + 4, high, sum + Word32(b, p))
  {
    var lo, hi := Word16(b, p), Word16(b, p + 2);
    Read16(b, p, high);
    Add16(b, p, high, sum);
    Add16(b, p + 2, high, sum + lo);
    assert sum + Word32(b, p) == sum + lo + hi + ONES * hi;
    ResidueShift(sum + lo + hi, hi);
  }

  /** One turn of the loop. */
  lemma AddWord(b: seq<Byte>, p: nat, high: bool, result: nat, carry: nat)
    requires Accumulated(b, p, high, result, carry) && p + 4 <= |b| && !Flip(high, p)
    ensures var w := Word32(b, p);
            var r := Add32(Add32(result, carry), w);
            Accumulated(b, p + 4, high, r, if w > r then 1 else 0)
    ensures !Flip(high, p + 4)
  {
    assert Add32(result, carry) == result + carry;
    CarryKeepsResidue(result + carry, Word32(b, p));
    AddHalves(b, p, high, result + carry);
  }

  method AddWords(b: seq<Byte>, p: nat, words: nat, high: bool, start: nat) returns (result: nat)
    requires p + 4 * words <= |b| && !Flip(high, p)
    requires start < U32 && SumsTo(b, p, high, start)
    ensures result <= 2 * ONES && SumsTo(b, p + 4 * words, high, result) && !Flip(high, p + 4 * words)
  {
    result := start;
    var pos, carry: nat := p, 0;
    ghost var i := 0;
    while pos < p + 4 * words
      invariant i <= words && pos == p + 4 * i
      invariant !Flip(high, pos) && Accumulated(b, pos, high, result, carry)
    {
      AddWord(b, pos, high, result, carry);
      var w := Word32(b, pos);
      pos := pos + 4;
      result := Add32(result, carry);
      result := Add32(result, w);
      carry := if w > result then 1 else 0;
      i := i + 1;
    }
    assert Add32(result, carry) == result + carry;
    result := Add32(result, carry);
    FoldKeepsResidue(result);
    result := Fold(result);
  }

  lemma LowBits(n: nat)
    ensures n % 4 == 2 * (n / 2 % 2) + n % 2
  {
  }

  /** The last 16-bit word and the last byte. */
  method AddTail(b: seq<Byte>, from: nat, left: nat, high: bool, start: nat) returns (result: nat)
    requires from + left % 4 == |b| && !Flip(high, from)
    requires start < 3 * U16 && SumsTo(b, from, high, start)
    ensures result < U32 && SumsTo(b, |b|, high, result)
  {
    LowBits(left);
    var two, one := left / 2 % 2, left % 2;
    var pos := from;
    result := start;
    if two == 1 {
      Read16(b, pos, high);
      Add16(b, pos, high, result);
      result := result + Word16(b, pos);
      pos := pos + 2;
    }
    if one == 1 {
      Add8(b, pos, high, result);
      result := result + b[pos];
    }
  }

  /** What is behind a leading odd byte: a 16-bit word up to a 4-byte boundary, the
      32-bit words, and the rest. */
  method SumAligned(addr: nat, b: seq<Byte>, from: nat, high: bool, start: nat) returns (result: nat)
    requires from <= |b| && !Flip(high, from)
    requires start < U16 && SumsTo(b, from, high, start)
    ensures result < U32 && SumsTo(b, |b|, high, result)
  {
    var pos, left: nat := from, |b| - from;
    result := start;
    if left >= 2 {
      if (addr + from) / 2 % 2 == 1 {
        Read16(b, pos, high);
        Add16(b, pos, high, result);
        result := result + Word16(b, pos);
        left := left - 2;
        pos := pos + 2;
      }
      if left >= 4 {
        result := AddWords(b, pos, left / 4, high, result);
        pos := pos + left / 4 * 4;
      }
    }
    result := AddTail(b, pos, left, high, result);
  }

  /** `do_csum`: whatever the address and the length, the result is the
      one's-complement sum of the data. */
  method DoCsum(addr: nat, buff: seq<Byte>, len: int) returns (result: nat)
    requires len <= |buff|
    ensures result == OnesSum(if len <= 0 then [] else buff[..len])
  {
    if len <= 0 {
      return 0;
    }
    var b := buff[..len];
    var odd := addr % 2 == 1;
    result := 0;
    if odd {
      assert PrefixSum(b, 1, odd) == PrefixSum(b, 0, odd) + High(b[0]);
      result := High(b[0]);
    }
    result := SumAligned(addr, b, if odd then 1 else 0, odd, result);
    result := FromThirtyTwo(result);
    PrefixSumIsByteSum(b, |b|, odd);
    assert b[..|b|] == b;
    if odd {
      SwapUndoesShift(b);
      result := Swap(result);
    } else {
      OnesSumIsResidue(b);
    }
  }

  // ----- the header checksum -----

  /** `ip_fast_csum`: the complement of the sum of `ihl` 32-bit words. */
  method IpFastCsum(addr: nat, header: seq<Byte>, ihl: nat) returns (check: nat)
    requires 4 * ihl <= |header|
    ensures check == ONES - OnesSum(header[..4 * ihl])
  {
    var sum := DoCsum(addr, header, ihl * 4);
    assert ihl == 0 ==> header[..4 * ihl] == [];
    check := ONES - sum;
  }

  /** Store a 16-bit word. */
  function Store(h: seq<Byte>, at: nat, w: nat): (r: seq<Byte>)
    requires at + 2 <= |h| && w < U16
    ensures |r| == |h| && Word16(r, at) == w
  {
    h[at := w % 256][at + 1 := w / 256]
  }

  /** A word of the header contributes its value, the other bytes theirs. */
  lemma SumAround(h: seq<Byte>, at: nat)
    requires at + 2 <= |h| && at % 2 == 0
    ensures ByteSum(h, false) == ByteSum(h[..at], false) + Word16(h, at) + ByteSum(h[at + 2..], false)
  {
    Read16(h, at, false);
    PrefixSumIsByteSum(h, at, false);
    PrefixSumIsByteSum(h, at + 2, false);
    assert h == h[..at + 2] + h[at + 2..];
    ByteSumAppend(h[..at + 2], h[at + 2..], false);
  }

  lemma StoreSum(h: seq<Byte>, at: nat, w: nat)
    requires at + 2 <= |h| && at % 2 == 0 && w < U16
    ensures ByteSum(Store(h, at, w), false) + Word16(h, at) == ByteSum(h, false) + w
  {
    var r := Store(h, at, w);
    assert r[..at] == h[..at] && r[at + 2..] == h[at + 2..];
    WordExchanged(h, r, at);
  }

  /** A header whose zeroed check field is filled with the complement of its sum
      sums to all ones. */
  lemma FilledHeaderVerifies(h: seq<Byte>, at: nat)
    requires at + 2 <= |h| && at % 2 == 0 && Word16(h, at) == 0
    ensures OnesSum(Store(h, at, ONES - OnesSum(h))) == ONES
  {
    var check := ONES - OnesSum(h);
    StoreSum(h, at, check);
    OnesSumIsResidue(h);
    OnesSumIsResidue(Store(h, at, check));
    ComplementSums(ByteSum(h, false));
  }

  lemma ComplementSums(total: nat)
    ensures Residue(total + (ONES - Residue(total))) == ONES
  {
    ResidueAdd(total, ONES - Residue(total));
  }

  const CHECK := 10

  /** The generator's step: clear the check field, sum the header, store the
      complement. */
  method FillCheck(addr: nat, header: seq<Byte>, ihl: nat) returns (r: seq<Byte>)
    requires 3 <= ihl && 4 * ihl <= |header|
    ensures |r| == |header| && OnesSum(r[..4 * ihl]) == ONES
    ensures forall i :: 0 <= i < |r| && i != CHECK && i != CHECK + 1 ==> r[i] == header[i]
  {
    var cleared := Store(header, CHECK, 0);
    var check := IpFastCsum(addr, cleared, ihl);
    r := Store(cleared, CHECK, check);
    FilledHeaderVerifies(cleared[..4 * ihl], CHECK);
    assert r[..4 * ihl] == Store(cleared[..4 * ihl], CHECK, check);
  }

  /** A change of a word that the sum does not show: none, or one between 0 and
      0xffff, in a header with something else in it. */
  predicate Unseen(total: nat, a: nat, w: nat) {
    w == a || (w == ONES && a == 0) || (w == 0 && a == ONES && total > ONES)
  }

  /** Two headers that differ in one word at most. */
  predicate DifferAt(h: seq<Byte>, r: seq<Byte>, at: nat) {
    |r| == |h| && at + 2 <= |h| && at % 2 == 0 && r[..at] == h[..at] && r[at + 2..] == h[at + 2..]
  }

  /** Overwriting one word of a header that verifies goes unnoticed exactly then. */
  lemma CorruptionIsSeen(h: seq<Byte>, r: seq<Byte>, at: nat)
    requires DifferAt(h, r, at) && OnesSum(h) == ONES
    ensures OnesSum(r) == ONES <==> Unseen(ByteSum(h, false), Word16(h, at), Word16(r, at))
  {
    OnesSumIsResidue(h);
    OnesSumIsResidue(r);
    WordExchanged(h, r, at);
    MultiplesApart(ByteSum(h, false), Word16(h, at), Word16(r, at));
  }

  lemma WordExchanged(h: seq<Byte>, r: seq<Byte>, at: nat)
    requires DifferAt(h, r, at)
    ensures Word16(h, at) <= ByteSum(h, false)
    ensures ByteSum(r, false) == ByteSum(h, false) - Word16(h, at) + Word16(r, at)
  {
    SumAround(h, at);
    SumAround(r, at);
  }

  lemma MultiplesApart(total: nat, a: nat, w: nat)
    requires a < U16 && w < U16 && a <= total && Residue(total) == ONES
    ensures Residue(total - a + w) == ONES <==> Unseen(total, a, w)
  {
    var rest := total - a;
    ResidueAdd(rest, a);
    ResidueAdd(rest, w);
    AllOnes(Residue(rest) + a);
    AllOnes(Residue(rest) + w);
  }

  lemma AllOnes(x: nat)
    requires x <= 2 * ONES
    ensures Residue(x) == ONES <==> x == ONES || x == 2 * ONES
  {
    assert x > ONES ==> Residue(x) == x - ONES;
  }
}
