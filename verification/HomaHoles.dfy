/** Finding the first hole in the bitmap of received packets, and the RESEND
    range that asks for it. */
module HomaHoles {
  import opened Words

  const WORDS: nat := 12
  const BITS: nat := 768

  type Bitmap = b: seq<nat> | |b| == WORDS witness [0, 0, 0, 0, 0, 0, 0, 0, 0, 0, 0, 0]

  /** `word & (1 << j)` is not 0. */
  predicate BitSet(word: nat, j: nat) {
    And(word, Pow2(j)) != 0
  }

  /** Packet `k` has been received. */
  predicate Has(bitmap: Bitmap, k: nat)
    requires k < BITS
  {
    BitSet(bitmap[k / 64], k % 64)
  }

  lemma HasAt(bitmap: Bitmap, i: nat, j: nat)
    requires i < WORDS && j < 64
    ensures Has(bitmap, 64 * i + j) <==> BitSet(bitmap[i], j)
  {
    assert (64 * i + j) / 64 == i && (64 * i + j) % 64 == j;
  }

  /** The scan stops at `bitWidth`, or at the end of the bitmap. */
  function ScanWidth(bitWidth: int): (w: nat)
    ensures w <= BITS
  {
    if 0 <= bitWidth <= BITS then bitWidth else BITS
  }

  ghost predicate AllReceived(bitmap: Bitmap, lo: nat, hi: nat)
    requires hi <= BITS
  {
    forall k :: lo <= k < hi ==> Has(bitmap, k)
  }

  ghost predicate NoneReceived(bitmap: Bitmap, lo: nat, hi: nat)
    requires hi <= BITS
  {
    forall k :: lo <= k < hi ==> !Has(bitmap, k)
  }

  /** `[start, end]` is the first maximal run of missing packets below `w`. */
  ghost predicate FirstHole(bitmap: Bitmap, w: nat, start: int, end: int)
    requires w <= BITS
  {
    && 0 <= start <= end < w
    && AllReceived(bitmap, 0, start)
    && NoneReceived(bitmap, start, end + 1)
    && (end + 1 < w ==> Has(bitmap, end + 1))
  }

  /** There is at most one first hole, and none exactly when nothing is missing. */
  lemma FirstHoleUnique(bitmap: Bitmap, w: nat, s: int, e: int, s': int, e': int)
    requires w <= BITS && FirstHole(bitmap, w, s, e)
    ensures FirstHole(bitmap, w, s', e') ==> s == s' && e == e'
    ensures !AllReceived(bitmap, 0, w)
  {
    assert !Has(bitmap, s) && !Has(bitmap, e);
    if FirstHole(bitmap, w, s', e') {
      assert !Has(bitmap, s') && !Has(bitmap, e');
    }
  }

  method FindFirstZeroSegment(bitmap: Bitmap, bitWidth: int) returns (start: int, end: int)
    ensures AllReceived(bitmap, 0, ScanWidth(bitWidth)) ==> start == -1 && end == -1
    ensures !AllReceived(bitmap, 0, ScanWidth(bitWidth)) ==> FirstHole(bitmap, ScanWidth(bitWidth), start, end)
  {
    start, end := -1, -1;
    var totalBits := 0;
    for i := 0 to WORDS
      invariant totalBits == 64 * i
      invariant bitWidth < 0 || totalBits <= bitWidth
      invariant Scanned(bitmap, totalBits, start, end)
    {
      for j := 0 to 64
        invariant totalBits == 64 * i + j
        invariant bitWidth < 0 || totalBits <= bitWidth
        invariant Scanned(bitmap, totalBits, start, end)
      {
        if totalBits == bitWidth {
          ScanDone(bitmap, totalBits, start, end);
          return;
        }
        HasAt(bitmap, i, j);
        if !BitSet(bitmap[i], j) {
          if start == -1 {
            start := totalBits;
          }
          end := totalBits;
        } else if start != -1 {
          FirstHoleUnique(bitmap, ScanWidth(bitWidth), start, end, start, end);
          return;
        }
        totalBits := totalBits + 1;
      }
    }
    ScanDone(bitmap, totalBits, start, end);
  }

  lemma ScanDone(bitmap: Bitmap, total: nat, start: int, end: int)
    requires Scanned(bitmap, total, start, end)
    ensures AllReceived(bitmap, 0, total) ==> start == -1 && end == -1
    ensures !AllReceived(bitmap, 0, total) ==> FirstHole(bitmap, total, start, end)
  {
    if start != -1 { assert !Has(bitmap, start); }
  }

  /** The scan so far has seen no hole, or is inside the first one. */
  ghost predicate Scanned(bitmap: Bitmap, total: nat, start: int, end: int) {
    && total <= BITS
    && if start == -1 then end == -1 && AllReceived(bitmap, 0, total)
       else 0 <= start < total && end == total - 1
            && AllReceived(bitmap, 0, start) && NoneReceived(bitmap, start, total)
  }

  /** Requests are sent at the highest priority. */
  const MAX_PRIORITIES: nat := 8

  datatype RpcPhase = Outgoing | Incoming | InService

  /** The offset and length fields of a RESEND request. */
  datatype Resend = NoResend | Resend(offset: nat, length: nat)

  /** The byte range of the packets `s .. e`. */
  function HoleRange(s: nat, e: nat, mss: nat): Resend
    requires s <= e
  {
    var n: nat := e - s + 1;
    Resend(s * mss, n * mss)
  }

  ghost predicate AsksForFirstHole(r: Resend, bitmap: Bitmap, w: nat, mss: nat)
    requires w <= BITS
  {
    exists s: nat, e: nat :: FirstHole(bitmap, w, s, e) && r == HoleRange(s, e, mss)
  }

  method GetResendRange(phase: RpcPhase, bitmap: Bitmap, bitWidth: nat, mss: nat) returns (r: Resend, priority: nat)
    ensures priority == MAX_PRIORITIES - 1
    ensures phase.Outgoing? ==> r == Resend(0, 100)
    ensures !phase.Outgoing? ==> (r.NoResend? <==> AllReceived(bitmap, 0, ScanWidth(bitWidth)))
    ensures !phase.Outgoing? && r.Resend? ==> AsksForFirstHole(r, bitmap, ScanWidth(bitWidth), mss)
  {
    priority := MAX_PRIORITIES - 1;
    if phase.Outgoing? {
      return Resend(0, 100), priority;
    }
    var s, e := FindFirstZeroSegment(bitmap, bitWidth);
    if s == -1 || e == -1 {
      return NoResend, priority;
    }
    FirstHoleUnique(bitmap, ScanWidth(bitWidth), s, e, s, e);
    r := HoleRange(s, e, mss);
  }

  /** The packet numbers that a sender derives from a RESEND range. */
  function FirstSeq(r: Resend, mss: nat): nat
    requires r.Resend? && mss > 0
  {
    r.offset / mss
  }

  function LastSeq(r: Resend, mss: nat): nat
    requires r.Resend? && mss > 0
  {
    ((r.offset + r.length - 1) % U32) / mss
  }

  /** A hole, sent as a byte range, comes back as the same packet numbers. */
  lemma RangeNamesHole(s: nat, e: nat, mss: nat)
    requires 0 < mss && s <= e && (e + 1) * mss < U32
    ensures FirstSeq(HoleRange(s, e, mss), mss) == s && LastSeq(HoleRange(s, e, mss), mss) == e
  {
    assert s * mss == mss * s;
    DivModUnique(s * mss, mss, s, 0);
    assert s * mss + (e - s + 1) * mss == (e + 1) * mss;
    assert (e + 1) * mss == e * mss + mss;
    assert e * mss == mss * e;
    DivModUnique((e + 1) * mss - 1, mss, e, mss - 1);
  }
}
