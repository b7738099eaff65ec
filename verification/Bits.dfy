/** The bit tricks of power-of-two rings, as arithmetic on non-negative integers. */
module Bits {

  const IDX_LIMIT: nat := 0x1_0000

  // ----- powers of two and the bit tricks -----

  /** Bitwise and of two non-negative integers. */
  function And(a: nat, b: nat): nat {
    if a == 0 || b == 0 then 0 else 2 * And(a / 2, b / 2) + (a % 2) * (b % 2)
  }

  function Pow2(k: nat): (r: nat)
    ensures r > 0
  {
    if k == 0 then 1 else 2 * Pow2(k - 1)
  }

  predicate IsPow2(n: nat) {
    n == 1 || (n > 1 && n % 2 == 0 && IsPow2(n / 2))
  }

  function Log2(n: nat): (k: nat)
    requires IsPow2(n)
    ensures n == Pow2(k)
  {
    if n == 1 then 0 else Log2(n / 2) + 1
  }

  lemma {:induction false} AndSelf(n: nat)
    ensures And(n, n) == n
  {
    if n > 0 {
      AndSelf(n / 2);
      var m, d := n / 2, n % 2;
      assert n == 2 * m + d && And(n, n) == 2 * And(m, m) + d * d;
      assert d == 0 || d == 1;
    }
  }

  /** `sz & (sz - 1)` is zero exactly for powers of two. */
  lemma {:induction false} PowerTest(n: nat)
    requires n > 0
    ensures And(n, n - 1) == 0 <==> IsPow2(n)
  {
    if n > 1 {
      var m := n / 2;
      if n % 2 == 0 {
        assert (n - 1) / 2 == m - 1 && (n - 1) % 2 == 1;
        PowerTest(m);
      } else {
        assert (n - 1) / 2 == m && (n - 1) % 2 == 0;
        AndSelf(m);
      }
    }
  }

  lemma {:induction false} MulUp(n: nat, a: int, b: int)
    requires a < b
    ensures n * a + n <= n * b
    decreases b - a
  {
    assert n * b == n * (b - 1) + n;
    if a + 1 < b {
      MulUp(n, a, b - 1);
    }
  }

  /** Quotient and remainder are unique. */
  lemma RemainderOf(x: nat, n: nat, q: int, r: nat)
    requires n > 0 && x == n * q + r && r < n
    ensures x % n == r && x / n == q
  {
    var q', r' := x / n, x % n;
    assert x == n * q' + r';
    if q < q' {
      MulUp(n, q, q');
    } else if q' < q {
      MulUp(n, q', q);
    }
  }

  lemma HalvedRemainder(x: nat, n: nat)
    requires n > 0
    ensures 2 * ((x / 2) % n) + x % 2 == x % (2 * n)
  {
    var q, r := (x / 2) / n, (x / 2) % n;
    assert x / 2 == n * q + r;
    assert (2 * n) * q == 2 * (n * q);
    RemainderOf(x, 2 * n, q, 2 * r + x % 2);
  }

  lemma AndWithOnes(x: nat, n: nat)
    requires n > 0
    ensures And(x, 2 * n - 1) == 2 * And(x / 2, n - 1) + x % 2
  {
    assert (2 * n - 1) / 2 == n - 1 && (2 * n - 1) % 2 == 1;
    if x == 0 {
      assert And(0, n - 1) == 0;
    }
  }

  /** `x & (size - 1)` is the remainder by a power of two. */
  lemma {:induction false} MaskIsRemainder(x: nat, k: nat)
    ensures And(x, Pow2(k) - 1) == x % Pow2(k)
    decreases k
  {
    hide And;
    if k == 0 {
      AndZero(x);
    } else {
      var n := Pow2(k - 1);
      MaskIsRemainder(x / 2, k - 1);
      AndWithOnes(x, n);
      HalvedRemainder(x, n);
    }
  }

  lemma AndZero(x: nat)
    ensures And(x, 0) == 0 && x % 1 == 0
  {
  }

  lemma {:induction false} PowersDivide(i: nat, j: nat)
    requires i <= j
    ensures Pow2(j) == Pow2(i) * Pow2(j - i)
  {
    if i > 0 {
      PowersDivide(i - 1, j - 1);
      assert 2 * (Pow2(i - 1) * Pow2(j - i)) == (2 * Pow2(i - 1)) * Pow2(j - i);
    }
  }

  lemma RemainderTwice(x: nat, n: nat, m: nat)
    requires n > 0 && m > 0 && n * m > 0
    ensures (x % (n * m)) % n == x % n
  {
    var q, r := x / (n * m), x % (n * m);
    assert x == (n * m) * q + r;
    assert r == n * (r / n) + r % n;
    assert (n * m) * q == n * (m * q);
    assert n * (m * q + r / n) == n * (m * q) + n * (r / n);
    RemainderOf(x, n, m * q + r / n, r % n);
  }

  lemma SixteenBits()
    ensures Pow2(16) == IDX_LIMIT
  {
    assert Pow2(8) == 256;
    PowersDivide(8, 16);
  }

  /** A 16-bit index loses nothing that the ring position needs. */
  lemma WrapKeepsSlot(count: nat, k: nat)
    requires k <= 16
    ensures (count % IDX_LIMIT) % Pow2(k) == count % Pow2(k)
  {
    SixteenBits();
    PowersDivide(k, 16);
    RemainderTwice(count, Pow2(k), Pow2(16 - k));
  }

  lemma SlotsDiffer(a: nat, b: nat, n: nat)
    requires n > 0 && a < b < a + n
    ensures a % n != b % n
  {
    if a % n == b % n {
      var qa, qb := a / n, b / n;
      assert a == n * qa + a % n && b == n * qb + b % n;
      if qa < qb {
        MulUp(n, qa, qb);
      } else if qb < qa {
        MulUp(n, qb, qa);
      }
    }
  }
}
