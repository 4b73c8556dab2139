/**
 * Bitwise AND on non-negative integers and powers of two: the slot index of every queue is
 * `cursor & mask` with `mask == capacity - 1`, and the constructors reject a capacity `c`
 * with `c & (c - 1) != 0`.
 */
module Bits {

  /** Bitwise AND of two non-negative integers, taken one bit at a time from the bottom. */
  function BitAnd(a: nat, b: nat): nat
    decreases a
  {
    if a == 0 || b == 0 then 0
    else 2 * BitAnd(a / 2, b / 2) + (if a % 2 == 1 && b % 2 == 1 then 1 else 0)
  }

  /** `n` is 1, 2, 4, 8, ... */
  predicate IsPow2(n: nat)
    decreases n
  {
    n == 1 || (n >= 2 && n % 2 == 0 && IsPow2(n / 2))
  }

  /** Doubling a power of two gives a power of two. */
  lemma DoubleIsPow2(n: nat)
    requires IsPow2(n)
    ensures IsPow2(2 * n)
  {
    assert (2 * n) / 2 == n;
  }

  /** Squaring a power of two gives a power of two. */
  lemma {:induction false} SquareIsPow2(n: nat)
    requires IsPow2(n)
    ensures IsPow2(n * n)
  {
    if n != 1 {
      var m := n / 2;
      SquareIsPow2(m);
      DoubleIsPow2(m * m);
      DoubleIsPow2(2 * (m * m));
      assert n * n == 2 * (2 * (m * m));
    }
  }

  /** Multiplying by a positive number keeps the order. */
  lemma MulLe(x: int, y: int, n: int)
    requires x <= y && 0 < n
    ensures x * n <= y * n
  {
    assert y * n - x * n == (y - x) * n;
  }

  /** Euclidean division is unique: a quotient and remainder in range are THE quotient and remainder. */
  lemma DivModUnique(a: int, n: int, q: int, r: int)
    requires 0 < n && 0 <= r < n && a == q * n + r
    ensures a / n == q && a % n == r
  {
    if a / n < q {
      MulLe(a / n + 1, q, n);
    } else if q < a / n {
      MulLe(q + 1, a / n, n);
    }
  }

  /** Two integers closer together than `n` fall into different residues modulo `n`. */
  lemma ModDistinct(a: int, b: int, n: int)
    requires 0 < n && a < b < a + n
    ensures a % n != b % n
  {
    var q, r, k := a / n, a % n, b - a;
    if r + k < n {
      DivModUnique(b, n, q, r + k);
    } else {
      assert b == (q + 1) * n + (r + k - n);
      DivModUnique(b, n, q + 1, r + k - n);
    }
  }

  /** Reducing modulo a multiple of `n` first does not change the residue modulo `n`. */
  lemma ModOfMultiple(a: int, m: int, n: int)
    requires 0 < n && 0 < m && m % n == 0
    ensures (a % m) % n == a % n
  {
    var k := m / n;
    assert m == k * n;
    var q := a / m;
    var p, r := (a % m) / n, (a % m) % n;
    assert a == q * m + a % m;
    assert a % m == p * n + r;
    assert q * m == (q * k) * n;
    assert a == (q * k + p) * n + r;
    DivModUnique(a, n, q * k + p, r);
  }

  /** The residue modulo `2 * m` is the residue of the halved number modulo `m`, shifted back, plus the low bit. */
  lemma HalfMod(a: nat, m: nat)
    requires 0 < m
    ensures a % (2 * m) == 2 * ((a / 2) % m) + a % 2
  {
    var q, s := (a / 2) / m, (a / 2) % m;
    assert a == q * (2 * m) + (2 * s + a % 2) by {
      assert a / 2 == q * m + s;
      assert q * (2 * m) == 2 * (q * m);
    }
    DivModUnique(a, 2 * m, q, 2 * s + a % 2);
  }

  /** Masking with `n - 1` is reduction modulo `n` when `n` is a power of two. */
  lemma {:induction false} MaskIsMod(a: nat, n: nat)
    requires IsPow2(n)
    ensures BitAnd(a, n - 1) == a % n
  {
    if n != 1 && a != 0 {
      var m := n / 2;
      assert (n - 1) / 2 == m - 1 && (n - 1) % 2 == 1;
      assert BitAnd(a, n - 1) == 2 * BitAnd(a / 2, m - 1) + a % 2;
      MaskIsMod(a / 2, m);
      HalfMod(a, m);
    }
  }

  /** Every bit of `a` survives masking with itself. */
  lemma {:induction false} BitAndSelf(a: nat)
    ensures BitAnd(a, a) == a
  {
    if a != 0 {
      BitAndSelf(a / 2);
    }
  }

  /** The constructors' test: a positive `n` has no bit in common with `n - 1` exactly when it is a power of two. */
  lemma {:induction false} PowerOfTwoTest(n: nat)
    requires n >= 1
    ensures BitAnd(n, n - 1) == 0 <==> IsPow2(n)
  {
    if n == 1 {
    } else if n % 2 == 0 {
      var m := n / 2;
      PowerOfTwoTest(m);
      assert (n - 1) / 2 == m - 1;
      assert BitAnd(n, n - 1) == 2 * BitAnd(m, m - 1);
    } else {
      var m := n / 2;
      assert (n - 1) / 2 == m && (n - 1) % 2 == 0;
      BitAndSelf(m);
      assert BitAnd(n, n - 1) == 2 * m;
    }
  }

  /** A power of two divides every larger power of two. */
  lemma {:induction false} Pow2Divides(n: nat, m: nat)
    requires IsPow2(n) && IsPow2(m) && n <= m
    ensures m % n == 0
  {
    if n != 1 {
      Pow2Divides(n / 2, m / 2);
      var k := (m / 2) / (n / 2);
      assert m / 2 == k * (n / 2);
      assert m == k * n;
      DivModUnique(m, n, k, 0);
    }
  }
}
