/** Machine words as integers: wrap-around, powers of two and the bitwise AND
    that the C and C++ sources use to index rings and to test lap parity. */
module Words {

  const U16: int := 0x1_0000
  const U32: int := 0x1_0000_0000
  const U64: int := 0x1_0000_0000_0000_0000

  /** Unsigned 32-bit addition and subtraction. */
  function Add32(a: int, b: int): int { (a + b) % U32 }

  function Sub32(a: int, b: int): int { (a - b) % U32 }

  /** Unsigned 16-bit subtraction. */
  function Sub16(a: int, b: int): int { (a - b) % U16 }

  function Pow2(k: nat): (r: nat)
    ensures r >= 1
  {
    if k == 0 then 1 else 2 * Pow2(k - 1)
  }

  /** Bitwise AND of two non-negative integers, bit by bit. */
  function And(a: nat, b: nat): (r: nat)
  {
    if a == 0 || b == 0 then 0
    else (a % 2) * (b % 2) + 2 * And(a / 2, b / 2)
  }

  /** The source's power-of-two test. */
  predicate IsPowerOfTwo(x: nat) {
    x != 0 && And(x, x - 1) == 0
  }

  /** One bit of `And`, also when an argument is 0. */
  lemma AndStep(a: nat, b: nat)
    ensures And(a, b) == (a % 2) * (b % 2) + 2 * And(a / 2, b / 2)
  {
  }

  lemma AndOdd(a: nat, b: nat)
    ensures And(a, 2 * b + 1) == a % 2 + 2 * And(a / 2, b)
  {
    AndStep(a, 2 * b + 1);
    assert (2 * b + 1) / 2 == b && (2 * b + 1) % 2 == 1;
  }

  /** `x & (2^k - 1)` keeps the low `k` bits. */
  lemma {:induction false} AndMask(x: nat, k: nat)
    ensures And(x, Pow2(k) - 1) == x % Pow2(k)
  {
    if k == 0 {
      assert Pow2(0) == 1;
    } else {
      var b: nat := Pow2(k - 1) - 1;
      AndMask(x / 2, k - 1);
      AndOdd(x, b);
      ModHalve(x, Pow2(k - 1));
      assert Pow2(k) - 1 == 2 * b + 1;
    }
  }

  lemma ModHalve(x: nat, p: nat)
    requires p > 0
    ensures x % (2 * p) == x % 2 + 2 * ((x / 2) % p)
  {
    var q, r := (x / 2) / p, (x / 2) % p;
    assert x / 2 == p * q + r;
    assert x == 2 * (x / 2) + x % 2;
    assert 2 * (p * q) == (2 * p) * q;
    DivModUnique(x, 2 * p, q, 2 * r + x % 2);
  }

  lemma MulAtLeast(d: int, t: int)
    requires d > 0 && t >= 1
    ensures d * t >= d
  {
    assert d * t == d + d * (t - 1);
  }

  /** A quotient and a remainder in range determine division. */
  lemma DivModUnique(x: int, d: int, q: int, r: int)
    requires d > 0 && 0 <= r < d && x == d * q + r
    ensures x / d == q && x % d == r
  {
    var q' := x / d;
    assert d * (q' - q) == d * q' - d * q;
    assert d * (q - q') == d * q - d * q';
    if q' > q { MulAtLeast(d, q' - q); }
    if q' < q { MulAtLeast(d, q - q'); }
  }

  /** `x & 2^k` tests bit `k`, that is, the parity of `x / 2^k`. */
  lemma {:induction false} AndBit(x: nat, k: nat)
    ensures And(x, Pow2(k)) == 0 <==> (x / Pow2(k)) % 2 == 0
  {
    if k == 0 {
      AndStep(x, 1);
      assert Pow2(0) == 1;
    } else {
      var p := Pow2(k - 1);
      AndBit(x / 2, k - 1);
      AndStep(x, 2 * p);
      assert (2 * p) / 2 == p && (2 * p) % 2 == 0;
      DivHalve(x, p);
    }
  }

  lemma DivHalve(x: nat, p: nat)
    requires p > 0
    ensures x / (2 * p) == (x / 2) / p
  {
    ModHalve(x, p);
    var q, r := (x / 2) / p, (x / 2) % p;
    assert x / 2 == p * q + r;
    assert 2 * (p * q) == (2 * p) * q;
    DivModUnique(x, 2 * p, q, 2 * r + x % 2);
  }

  predicate PowerIs(x: nat, k: nat) { x == Pow2(k) }

  /** The test accepts exactly the powers of two. */
  lemma PowerOfTwoMeans(x: nat)
    ensures IsPowerOfTwo(x) <==> exists k: nat :: PowerIs(x, k)
  {
    if IsPowerOfTwo(x) {
      var k := Log2(x);
      assert PowerIs(x, k);
    }
    if k: nat :| PowerIs(x, k) {
      PowerPasses(k);
    }
  }

  /** What the test accepts is a power of two. */
  lemma {:induction false} Log2(x: nat) returns (k: nat)
    requires IsPowerOfTwo(x)
    ensures x == Pow2(k)
  {
    if x == 1 {
      k := 0;
    } else if x % 2 == 1 {
      OddFails(x);
      assert false;
    } else {
      EvenTest(x);
      k := Log2(x / 2);
      k := k + 1;
    }
  }

  lemma {:induction false} PowerPasses(k: nat)
    ensures IsPowerOfTwo(Pow2(k))
  {
    if k > 0 {
      PowerPasses(k - 1);
      EvenTest(Pow2(k));
    }
  }

  lemma OddFails(x: nat)
    requires x > 1 && x % 2 == 1
    ensures !IsPowerOfTwo(x)
  {
    assert (x - 1) / 2 == x / 2 && (x - 1) % 2 == 0;
    AndSelf(x / 2);
  }

  lemma EvenTest(x: nat)
    requires x > 1 && x % 2 == 0
    ensures IsPowerOfTwo(x) <==> IsPowerOfTwo(x / 2)
  {
    var h: nat, y: nat := x / 2, x - 1;
    assert y / 2 == h - 1;
    AndStep(x, y);
  }

  lemma {:induction false} AndSelf(x: nat)
    ensures And(x, x) == x
  {
    if x > 0 {
      AndSelf(x / 2);
    }
  }

  lemma {:induction false} Pow2Splits(j: nat, k: nat)
    requires j <= k
    ensures Pow2(k) == Pow2(j) * Pow2(k - j)
  {
    if j > 0 {
      Pow2Splits(j - 1, k - 1);
      var a, b := Pow2(j - 1), Pow2(k - j);
      assert 2 * (a * b) == (2 * a) * b;
    } else {
      assert Pow2(0) == 1;
    }
  }

  lemma Pow2At32()
    ensures Pow2(32) == U32
  {
    assert Pow2(8) == 256;
    Pow2Splits(8, 16);
    Pow2Splits(16, 32);
  }

  lemma Pow2Large(k: nat)
    ensures k >= 32 ==> Pow2(k) >= U32
  {
    Pow2At32();
    if k >= 32 {
      Pow2Splits(32, k);
      MulAtLeast(U32, Pow2(k - 32));
    }
  }

  /** A power of two that fits a 32-bit word divides 2^32 an even number of times. */
  lemma PowerOfTwoDividesU32(x: nat) returns (q: nat)
    requires IsPowerOfTwo(x) && x < U32
    ensures q > 0 && U32 == x * (2 * q)
  {
    var k := Log2(x);
    Pow2At32();
    Pow2Large(k);
    Pow2Splits(k, 32);
    q := Pow2(31 - k);
    assert Pow2(32 - k) == 2 * q;
  }
}
