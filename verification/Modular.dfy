/** Remainders, powers of two, and arithmetic on 64-bit words. */
module Modular {
  // 2^64: size_t arithmetic is modulo WORD.
  const WORD: nat := 0x1_0000_0000_0000_0000
  const HALF: nat := 0x8000_0000_0000_0000

  lemma MulAtLeast(c: nat, m: int)
    requires m >= 1
    ensures c * m >= c
  {}

  lemma DivModUnique(x: int, c: nat, q: int, r: int)
    requires c > 0 && 0 <= r < c && x == c * q + r
    ensures x / c == q && x % c == r
  {
    var q', r' := x / c, x % c;
    assert x == c * q' + r' && 0 <= r' < c;
    SameQuotient(c, q, r, q', r');
  }

  lemma SameQuotient(c: nat, q: int, r: int, q': int, r': int)
    requires 0 <= r < c && 0 <= r' < c && c * q + r == c * q' + r'
    ensures q == q' && r == r'
  {
    if q > q' {
      MulAtLeast(c, q - q');
    } else if q < q' {
      MulAtLeast(c, q' - q);
    }
  }

  lemma ModOfMultiple(c: nat, m: int, r: int)
    requires c > 0
    ensures (c * m + r) % c == r % c
  {
    var q := r / c;
    assert r == c * q + r % c;
    assert c * m + r == c * (m + q) + r % c;
    DivModUnique(c * m + r, c, m + q, r % c);
  }

  lemma ModSmall(r: nat, c: nat)
    requires r < c
    ensures r % c == r
  {}

  lemma ModAtMost(x: nat, c: nat)
    requires c > 0
    ensures x % c <= x
  {
    if x < c { ModSmall(x, c); }
  }

  lemma QuotientAtMost(x: nat, c: nat)
    requires c > 0
    ensures 0 <= x / c <= x
  {
    var q := x / c;
    assert x == c * q + x % c;
    if q > x { MulAtLeast(q, c); }
  }

  // One step along a ring.
  lemma ModNext(x: nat, c: nat)
    requires c > 0
    ensures (x + 1) % c == if x % c + 1 == c then 0 else x % c + 1
  {
    var q, r := x / c, x % c;
    assert x == c * q + r;
    if r + 1 == c {
      assert x + 1 == c * (q + 1) + 0;
      DivModUnique(x + 1, c, q + 1, 0);
    } else {
      DivModUnique(x + 1, c, q, r + 1);
    }
  }

  // k steps along a ring, k below its size.
  lemma ModAdd(x: nat, k: nat, c: nat)
    requires c > 0 && k < c
    ensures (x + k) % c == if x % c + k < c then x % c + k else x % c + k - c
  {
    var q, r := x / c, x % c;
    assert x == c * q + r;
    if r + k < c {
      DivModUnique(x + k, c, q, r + k);
    } else {
      assert x + k == c * (q + 1) + (r + k - c);
      DivModUnique(x + k, c, q + 1, r + k - c);
    }
  }

  lemma ModInjective(x: nat, j: nat, k: nat, c: nat)
    requires c > 0 && j < c && k < c && (x + j) % c == (x + k) % c
    ensures j == k
  {
    ModAdd(x, j, c);
    ModAdd(x, k, c);
  }

  // Remainders only depend on remainders.
  lemma ModSum(a: int, b: int, k: int, c: nat)
    requires c > 0 && a % c == b % c
    ensures (a + k) % c == (b + k) % c
  {
    assert a + k == c * (a / c) + (a % c + k);
    assert b + k == c * (b / c) + (b % c + k);
    ModOfMultiple(c, a / c, a % c + k);
    ModOfMultiple(c, b / c, b % c + k);
  }

  lemma ModDifference(x: int, a: int, b: int, c: nat)
    requires c > 0 && a % c == b % c
    ensures (x - a) % c == (x - b) % c
  {
    var r := a % c;
    assert x - a == c * -(a / c) + (x - r);
    assert x - b == c * -(b / c) + (x - r);
    ModOfMultiple(c, -(a / c), x - r);
    ModOfMultiple(c, -(b / c), x - r);
  }

  // ---------------------------------------------------------------- powers of two

  function Pow2(e: nat): (p: nat)
    ensures p > 0
  {
    if e == 0 then 1 else 2 * Pow2(e - 1)
  }

  ghost predicate IsPow2(c: nat) {
    exists e: nat :: c == Pow2(e)
  }

  lemma {:induction false} Pow2Sum(a: nat, b: nat)
    ensures Pow2(a + b) == Pow2(a) * Pow2(b)
  {
    if a > 0 {
      Pow2Sum(a - 1, b);
      assert Pow2(a + b) == 2 * Pow2(a - 1 + b);
      assert 2 * (Pow2(a - 1) * Pow2(b)) == 2 * Pow2(a - 1) * Pow2(b);
    }
  }

  lemma {:induction false} Pow2Grows(a: nat, b: nat)
    requires a <= b
    ensures Pow2(a) <= Pow2(b)
  {
    if a < b { Pow2Grows(a, b - 1); }
  }

  lemma Pow64()
    ensures Pow2(63) == HALF && Pow2(64) == WORD
  {
    assert Pow2(16) == 0x1_0000;
    Pow2Sum(16, 16);
    Pow2Sum(32, 31);
    assert Pow2(31) == 0x8000_0000 by { assert Pow2(15) == 0x8000; Pow2Sum(15, 16); }
  }

  lemma DoublePow2(c: nat)
    requires IsPow2(c)
    ensures IsPow2(2 * c)
  {
    var e: nat :| c == Pow2(e);
    assert 2 * c == Pow2(e + 1);
  }

  /** A power of two up to 2^63 divides 2^64, which is why ring positions survive the overflow
      of the absolute indices. */
  lemma DividesWord(c: nat) returns (k: nat)
    requires IsPow2(c) && c <= HALF
    ensures c * k == WORD
  {
    Pow64();
    var e: nat :| c == Pow2(e);
    if e > 63 {
      Pow2Grows(64, e);
    }
    k := Pow2(64 - e);
    Pow2Sum(e, 64 - e);
  }

  lemma ModOfWord(x: nat, c: nat)
    requires IsPow2(c) && c <= HALF
    ensures (x % WORD) % c == x % c
  {
    var k := DividesWord(c);
    var q := x / WORD;
    assert x == WORD * q + x % WORD;
    assert WORD * q == c * (k * q);
    ModOfMultiple(c, k * q, x % WORD);
  }

  // A word splits into a ring position and a number of full turns.
  lemma Turns(x: nat, c: nat)
    requires c > 0
    ensures (x - x % c) / c * c + x % c == x
  {
    var q := x / c;
    assert x == c * q + x % c;
    DivModUnique(x - x % c, c, q, 0);
    assert q * c == c * q;
  }

  lemma OnePower(p: nat, n: nat)
    requires IsPow2(p) && IsPow2(n) && n <= p && (p == 1 || p < 2 * n)
    ensures p == n
  {
    var a: nat :| p == Pow2(a);
    var b: nat :| n == Pow2(b);
    if b < a { Pow2Grows(b + 1, a); } else { Pow2Grows(a, b); }
  }
}
