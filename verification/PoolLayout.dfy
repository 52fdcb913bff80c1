/** Size classes of the memory pool, and the partition of the pool's memory that
    splitting and growing maintain. */
module PoolLayout {
  import opened Words

  const NR_CLASS: nat := 18
  const MIN_CLASS_SIZE: nat := 64
  const MAX_CLASS_SIZE: nat := 8 * 1024 * 1024
  const HUGE_PAGE: nat := 2 * 1024 * 1024

  /** One past the last user-space address; the operating system maps nothing above. */
  const USER_SPACE: nat := 0x8000_0000_0000

  /** Index of the most significant bit, the lowest bit being number 1. */
  function MsbIndex(x: nat): (r: nat)
    ensures x < Pow2(r)
    ensures r > 0 ==> Pow2(r - 1) <= x
  {
    if x == 0 then 0 else 1 + MsbIndex(x / 2)
  }

  /** Rounding up to a power of two: `(x + p - 1) & ~(p - 1)`, the low bits
      being cleared by subtracting them. */
  function RoundUp(x: nat, p: nat): (r: nat)
    requires IsPowerOfTwo(p)
  {
    var y := x + p - 1;
    AndAtMost(y, p - 1);
    y - And(y, p - 1)
  }

  lemma {:induction false} AndAtMost(a: nat, b: nat)
    ensures And(a, b) <= a
  {
    if a > 0 && b > 0 { AndAtMost(a / 2, b / 2); }
  }

  /** The result is the least multiple of `p` that is at least `x`. */
  lemma RoundUpIsLeast(x: nat, p: nat)
    requires IsPowerOfTwo(p)
    ensures RoundUp(x, p) % p == 0 && x <= RoundUp(x, p) < x + p
  {
    var k := Log2(p);
    var y := x + p - 1;
    AndMask(y, k);
    ClearRemainder(y, p);
  }

  lemma ClearRemainder(y: nat, p: nat)
    requires p > 0
    ensures (y - y % p) % p == 0 && y - y % p >= 0
  {
    var q, r := y / p, y % p;
    assert y == p * q + r;
    DivModUnique(y - r, p, q, 0);
  }

  function ClassSize(k: nat): (r: nat)
    ensures r > 0
  {
    MIN_CLASS_SIZE * Pow2(k)
  }

  function ClassType(size: nat): nat
    requires 1 <= size <= MAX_CLASS_SIZE
  {
    MsbIndex((size - 1) / MIN_CLASS_SIZE)
  }

  lemma ClassSizes()
    ensures ClassSize(NR_CLASS - 1) == MAX_CLASS_SIZE
  {
    assert Pow2(8) == 256;
    Pow2Splits(8, 16);
    assert Pow2(17) == 2 * Pow2(16);
  }

  lemma {:induction false} Pow2Monotone(j: nat, k: nat)
    requires j <= k
    ensures Pow2(j) <= Pow2(k)
  {
    if j < k { Pow2Monotone(j, k - 1); }
  }

  /** Best fit: the chosen class is the smallest one that holds `size` bytes. */
  lemma ClassTypeIsBestFit(size: nat)
    requires 1 <= size <= MAX_CLASS_SIZE
    ensures ClassType(size) < NR_CLASS
    ensures size <= ClassSize(ClassType(size))
    ensures forall j: nat :: j < ClassType(size) ==> ClassSize(j) < size
  {
    var k := ClassType(size);
    ClassSizes();
    if k > NR_CLASS - 1 { Pow2Monotone(NR_CLASS - 1, k - 1); }
    forall j: nat | j < k ensures ClassSize(j) < size {
      Pow2Monotone(j, k - 1);
    }
  }

  /** A buffer of class `k` is returned to list `k`. */
  lemma ClassTypeOfClassSize(k: nat)
    requires k < NR_CLASS
    ensures 1 <= ClassSize(k) <= MAX_CLASS_SIZE
    ensures ClassType(ClassSize(k)) == k
  {
    ClassSizes();
    Pow2Monotone(k, NR_CLASS - 1);
    var t := ClassType(ClassSize(k));
    ClassTypeIsBestFit(ClassSize(k));
    if t < k { Pow2Monotone(t + 1, k); }
  }

  // ----- the partition -----

  /** `[a, a+n)` and `[b, b+m)` do not meet. */
  predicate Apart(a: int, n: int, b: int, m: int) {
    a + n <= b || b + m <= a
  }

  predicate Within(x: int, a: int, n: int) {
    a <= x < a + n
  }

  ghost predicate InBlock(x: int, blocks: map<int, nat>) {
    exists a :: a in blocks && Within(x, a, ClassSize(blocks[a]))
  }

  ghost predicate InChunk(x: int, chunks: set<int>) {
    exists c :: c in chunks && Within(x, c, MAX_CLASS_SIZE)
  }

  ghost predicate Disjoint(blocks: map<int, nat>) {
    forall a, b :: a in blocks && b in blocks && a != b ==>
      Apart(a, ClassSize(blocks[a]), b, ClassSize(blocks[b]))
  }

  /** The blocks are pairwise disjoint and cover exactly the chunks. */
  ghost predicate Tiles(blocks: map<int, nat>, chunks: set<int>) {
    && (forall a :: a in blocks ==> blocks[a] < NR_CLASS)
    && Disjoint(blocks)
    && (forall x :: InBlock(x, blocks) <==> InChunk(x, chunks))
  }

  /** Halving one block of class `k > 0`. */
  function Halved(blocks: map<int, nat>, a: int): map<int, nat>
    requires a in blocks && blocks[a] > 0
  {
    var k := blocks[a] - 1;
    blocks[a := k][a + ClassSize(k) := k]
  }

  lemma HalvedSizes(k: nat)
    requires k > 0
    ensures ClassSize(k) == 2 * ClassSize(k - 1)
  {
  }

  lemma HalvedCovers(blocks: map<int, nat>, a: int, x: int)
    requires a in blocks && blocks[a] > 0 && Disjoint(blocks)
    ensures InBlock(x, Halved(blocks, a)) <==> InBlock(x, blocks)
  {
    var k := blocks[a] - 1;
    var h := ClassSize(k);
    HalvedSizes(k + 1);
    var after := Halved(blocks, a);
    assert a + h in blocks ==> !Apart(a, 2 * h, a + h, ClassSize(blocks[a + h]));
    if InBlock(x, blocks) {
      var b :| b in blocks && Within(x, b, ClassSize(blocks[b]));
      if b == a {
        assert Within(x, a, h) || Within(x, a + h, h);
        assert after[a] == k && after[a + h] == k;
      } else {
        assert after[b] == blocks[b];
      }
    }
    if InBlock(x, after) {
      var b :| b in after && Within(x, b, ClassSize(after[b]));
      if b == a || b == a + h {
        assert Within(x, a, ClassSize(blocks[a]));
      } else {
        assert b in blocks && blocks[b] == after[b];
      }
    }
  }

  lemma HalvedDisjoint(blocks: map<int, nat>, a: int)
    requires a in blocks && blocks[a] > 0 && Disjoint(blocks)
    ensures a + ClassSize(blocks[a] - 1) !in blocks
    ensures Disjoint(Halved(blocks, a))
  {
    var k := blocks[a] - 1;
    var h := ClassSize(k);
    HalvedSizes(k + 1);
    var after := Halved(blocks, a);
    assert a + h in blocks ==> Apart(a, 2 * h, a + h, ClassSize(blocks[a + h]));
    forall b, c | b in after && c in after && b != c
      ensures Apart(b, ClassSize(after[b]), c, ClassSize(after[c]))
    {
      var b', c' := if b == a + h then a else b, if c == a + h then a else c;
      if b' != c' {
        assert Apart(b', ClassSize(blocks[b']), c', ClassSize(blocks[c']));
      }
    }
  }

  /** Splitting a buffer keeps the tiling. */
  lemma SplitKeepsTiling(blocks: map<int, nat>, chunks: set<int>, a: int)
    requires Tiles(blocks, chunks) && a in blocks && blocks[a] > 0
    ensures Tiles(Halved(blocks, a), chunks)
    ensures a + ClassSize(blocks[a] - 1) !in blocks
  {
    HalvedDisjoint(blocks, a);
    forall x ensures InBlock(x, Halved(blocks, a)) <==> InChunk(x, chunks) {
      HalvedCovers(blocks, a, x);
    }
  }

  /** A chunk that meets none of the others is one new block of the top class. */
  lemma NewChunkKeepsTiling(blocks: map<int, nat>, chunks: set<int>, c: int)
    requires Tiles(blocks, chunks)
    requires forall d :: d in chunks ==> Apart(c, MAX_CLASS_SIZE, d, MAX_CLASS_SIZE)
    ensures c !in blocks
    ensures Tiles(blocks[c := NR_CLASS - 1], chunks + {c})
  {
    ClassSizes();
    var after := blocks[c := NR_CLASS - 1];
    forall b | b in blocks ensures Apart(c, MAX_CLASS_SIZE, b, ClassSize(blocks[b])) {
      ChunkMissesBlock(blocks, chunks, c, b);
    }
    assert c in blocks ==> !Apart(c, MAX_CLASS_SIZE, c, ClassSize(blocks[c]));
    forall x ensures InBlock(x, after) <==> InChunk(x, chunks + {c}) {
      if InBlock(x, blocks) {
        var b :| b in blocks && Within(x, b, ClassSize(blocks[b]));
        assert b in after && after[b] == blocks[b];
        var d :| d in chunks && Within(x, d, MAX_CLASS_SIZE);
        assert d in chunks + {c};
      } else if Within(x, c, MAX_CLASS_SIZE) {
        assert after[c] == NR_CLASS - 1;
        assert c in chunks + {c};
      } else {
        assert !InChunk(x, chunks);
      }
    }
  }

  lemma ChunkMissesBlock(blocks: map<int, nat>, chunks: set<int>, c: int, b: int)
    requires Tiles(blocks, chunks) && b in blocks
    requires forall d :: d in chunks ==> Apart(c, MAX_CLASS_SIZE, d, MAX_CLASS_SIZE)
    ensures Apart(c, MAX_CLASS_SIZE, b, ClassSize(blocks[b]))
  {
    if !Apart(c, MAX_CLASS_SIZE, b, ClassSize(blocks[b])) {
      var x := if c <= b then b else c;
      assert Within(x, b, ClassSize(blocks[b])) && Within(x, c, MAX_CLASS_SIZE);
      assert InBlock(x, blocks);
    }
  }
}
