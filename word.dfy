/**
 * Fixed-width integers of the queues: `int64_t` cursors of the signed variants and `uint64_t`
 * cursors of the unsigned ones, whose arithmetic wraps modulo 2^64.
 */
module Word {
  import opened Bits

  const WORD: int := 0x1_0000_0000_0000_0000
  const I64_MIN: int := -0x8000_0000_0000_0000
  const I64_MAX: int := 0x7FFF_FFFF_FFFF_FFFF

  /** `uint64_t` */
  type U64 = x: int | 0 <= x < WORD

  /** `int64_t` */
  type I64 = x: int | I64_MIN <= x <= I64_MAX

  /** `a - b` on `uint64_t`. */
  function WrapSub(a: U64, b: U64): U64
  {
    (a - b) % WORD
  }

  /** `a + b` on `uint64_t`. */
  function WrapAdd(a: U64, b: U64): U64
  {
    (a + b) % WORD
  }

  /**
   * A `uint64_t` cursor is its true (unbounded) count reduced modulo 2^64. Subtracting two such
   * cursors gives the true distance of the counts whenever that distance fits in 64 bits, even
   * after either cursor has wrapped past its maximum.
   */
  lemma WrappingDistance(ahead: nat, behind: nat)
    requires behind <= ahead && ahead - behind < WORD
    ensures WrapSub(ahead % WORD, behind % WORD) == ahead - behind
  {
    var qa, qb := ahead / WORD, behind / WORD;
    assert ahead % WORD - behind % WORD == (ahead - behind) + (qb - qa) * WORD;
    DivModUnique(ahead % WORD - behind % WORD, WORD, qb - qa, ahead - behind);
  }

  /** Incrementing a wrapped cursor wraps the incremented count. */
  lemma WrappedIncrement(count: nat)
    ensures WrapAdd(count % WORD, 1) == (count + 1) % WORD
  {
    var q := count / WORD;
    if count % WORD + 1 < WORD {
      DivModUnique(count + 1, WORD, q, count % WORD + 1);
    } else {
      DivModUnique(count + 1, WORD, q + 1, 0);
    }
  }

  /** 2^64 is a power of two. */
  lemma WordIsPow2()
    ensures IsPow2(WORD)
  {
    var n := 2;
    assert IsPow2(n);
    SquareIsPow2(n); n := n * n;  // 2^2
    SquareIsPow2(n); n := n * n;  // 2^4
    SquareIsPow2(n); n := n * n;  // 2^8
    SquareIsPow2(n); n := n * n;  // 2^16
    SquareIsPow2(n); n := n * n;  // 2^32
    SquareIsPow2(n); n := n * n;  // 2^64
    assert n == WORD;
  }

  /**
   * The slot a wrapped `uint64_t` cursor masks to is the slot of its true count: a power-of-two
   * capacity divides 2^64, so the wrap-around never shifts the slot sequence.
   */
  lemma WrappedSlot(count: nat, n: nat)
    requires IsPow2(n) && n <= WORD
    ensures BitAnd(count % WORD, n - 1) == count % n
  {
    MaskIsMod(count % WORD, n);
    WordIsPow2();
    Pow2Divides(n, WORD);
    ModOfMultiple(count, WORD, n);
  }
}
