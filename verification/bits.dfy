/** 32-bit unsigned arithmetic and the bit tricks of the ring buffer. */
module Bits {

  const TWO32 := 0x1_0000_0000

  type U32 = x: int | 0 <= x < 0x1_0000_0000

  function Add32(a: nat, b: nat): U32 { (a + b) % TWO32 }

  function Sub32(a: U32, b: U32): U32 { (a - b) % TWO32 }

  function Min(a: int, b: int): int { if a <= b then a else b }

  // The bitwise `&` of two unsigned numbers
  function And(a: nat, b: nat): (r: nat)
    ensures r <= a
  {
    if a == 0 || b == 0 then 0
    else 2 * And(a / 2, b / 2) + (if a % 2 == 1 && b % 2 == 1 then 1 else 0)
  }

  function Pow2(k: nat): nat { if k == 0 then 1 else 2 * Pow2(k - 1) }

  // is_power_of_2
  predicate IsPowerOf2(n: U32) {
    n != 0 && And(n, Sub32(n, 1)) == 0
  }

  // RING_BUF_MOD
  function Masked(n: U32, size: U32): U32 {
    And(n, Sub32(size, 1))
  }

  lemma MultipleGrows(d: int, x: int)
    requires d > 0
    ensures x >= 1 ==> d * x >= d
    ensures x <= -1 ==> d * x <= -d
  {
    if x >= 1 {
      assert d * (x - 1) >= 0;
    } else if x <= -1 {
      assert d * (x + 1) <= 0;
    }
  }

  lemma MultipleInRange(d: int, x: int)
    requires -d < d * x < d
    ensures x == 0
  {
    MultipleGrows(d, x);
  }

  lemma ModIs(n: int, d: int, q: int, r: int)
    requires n == d * q + r && 0 <= r < d
    ensures n % d == r
  {
    assert n == d * (n / d) + n % d;
    assert d * (n / d - q) == d * (n / d) - d * q;
    MultipleInRange(d, n / d - q);
  }

  lemma ModOfDouble(n: nat, p: nat)
    requires p > 0
    ensures n % (2 * p) == 2 * (n / 2 % p) + n % 2
  {
    var q := n / 2 / p;
    assert n / 2 == p * q + n / 2 % p;
    assert n == 2 * p * q + (2 * (n / 2 % p) + n % 2);
    ModIs(n, 2 * p, q, 2 * (n / 2 % p) + n % 2);
  }

  lemma {:induction false} Pow2Positive(k: nat)
    ensures Pow2(k) >= 1
  {
    if k > 0 { Pow2Positive(k - 1); }
  }

  // Masking with 2^k - 1 is taking the remainder by 2^k.
  lemma {:induction false} MaskIsMod(n: nat, k: nat)
    ensures Pow2(k) >= 1 && And(n, Pow2(k) - 1) == n % Pow2(k)
    decreases k
  {
    Pow2Positive(k);
    if k > 0 {
      Pow2Positive(k - 1);
      var p := Pow2(k - 1);
      MaskIsMod(n / 2, k - 1);
      ModOfDouble(n, p);
      assert (2 * p - 1) / 2 == p - 1 && (2 * p - 1) % 2 == 1;
      if p == 1 {
        assert And(n / 2, 0) == 0;
      }
    }
  }

  lemma {:induction false} AndSelf(n: nat)
    ensures And(n, n) == n
  {
    if n > 0 { AndSelf(n / 2); }
  }

  lemma {:induction false} BitTestFindsPower(n: nat) returns (k: nat)
    requires n > 0 && And(n, n - 1) == 0
    ensures n == Pow2(k)
  {
    if n == 1 {
      k := 0;
    } else if n % 2 == 1 {
      assert (n - 1) / 2 == n / 2;
      AndSelf(n / 2);
      assert false;
    } else {
      assert (n - 1) / 2 == n / 2 - 1;
      k := BitTestFindsPower(n / 2);
      k := k + 1;
    }
  }

  /** The bit test accepts exactly the powers of two. */
  lemma PowerTestIsExact(n: U32)
    ensures IsPowerOf2(n) <==> exists k: nat :: n == Pow2(k)
  {
    if n != 0 {
      assert Sub32(n, 1) == n - 1;
    }
    if IsPowerOf2(n) {
      var k := BitTestFindsPower(n);
    }
    if exists k: nat :: n == Pow2(k) {
      var k: nat :| n == Pow2(k);
      MaskIsMod(n, k);
    }
  }

  lemma DoubleProduct(a: nat, b: nat)
    ensures 2 * (a * b) == (2 * a) * b
  {
  }

  lemma {:induction false} Pow2Splits(j: nat, k: nat)
    ensures Pow2(j + k) == Pow2(j) * Pow2(k)
  {
    if j > 0 {
      Pow2Splits(j - 1, k);
      assert Pow2(j + k) == 2 * Pow2(j - 1 + k);
      DoubleProduct(Pow2(j - 1), Pow2(k));
    }
  }

  lemma Pow2Of32()
    ensures Pow2(32) == TWO32
  {
    assert Pow2(8) == 256;
    Pow2Splits(8, 8);
    Pow2Splits(16, 16);
  }

  lemma {:induction false} Pow2Grows(j: nat, k: nat)
    requires j <= k
    ensures Pow2(j) <= Pow2(k)
    decreases k
  {
    Pow2Positive(k);
    if j < k { Pow2Grows(j, k - 1); Pow2Positive(k - 1); }
  }

  lemma ModMod(n: nat, d: nat, m: nat)
    requires d > 0 && m > 0
    ensures d * m > 0 && n % (d * m) % d == n % d
  {
    var q := n / (d * m);
    assert d * m > 0;
    assert n == d * m * q + n % (d * m);
    var r := n % (d * m);
    assert r == d * (r / d) + r % d;
    assert d * m * q == d * (m * q);
    assert n == d * (m * q + r / d) + r % d;
    ModIs(n, d, m * q + r / d, r % d);
  }

  /** Masking a 32-bit index is reducing the unbounded counter behind it: the wrap at
      2^32 is invisible because every power of two below divides 2^32. */
  lemma MaskedIsPosition(counter: nat, size: U32)
    requires IsPowerOf2(size)
    ensures Masked(counter % TWO32, size) == counter % size
  {
    assert Sub32(size, 1) == size - 1;
    var k := BitTestFindsPower(size);
    MaskIsMod(counter % TWO32, k);
    if k > 32 {
      Pow2Of32();
      Pow2Grows(32, k);
      assert false;
    }
    Pow2Of32();
    Pow2Splits(k, 32 - k);
    Pow2Positive(32 - k);
    ModMod(counter, size, Pow2(32 - k));
  }

  // The 32-bit difference of two counters at most 2^32 - 1 apart is their difference.
  lemma DistanceIsExact(a: nat, b: nat)
    requires b <= a < b + TWO32
    ensures Sub32(a % TWO32, b % TWO32) == a - b
  {
    var qa, qb := a / TWO32, b / TWO32;
    assert a % TWO32 - b % TWO32 == TWO32 * (qb - qa) + (a - b);
    ModIs(a % TWO32 - b % TWO32, TWO32, qb - qa, a - b);
  }

  lemma SubNoWrap(a: U32, b: U32)
    requires b <= a
    ensures Sub32(a, b) == a - b
  {
  }

  lemma AdvanceIsExact(a: nat, n: nat)
    ensures Add32(a % TWO32, n) == (a + n) % TWO32
  {
    var q := a / TWO32;
    assert a % TWO32 + n == TWO32 * (-q) + (a + n);
    var s := (a + n) % TWO32;
    ModIs(a % TWO32 + n, TWO32, (a + n) / TWO32 - q, s);
  }
}
