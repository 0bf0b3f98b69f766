/**
 * 64-bit unsigned machine words and the C operators the utilities apply to them
 * (`&`, `<<`, `>>`, and the wrap-around of `+` and `*` on `uint64_t`), defined
 * arithmetically on bounded integers so that their laws can be proved by induction.
 */
module Word {

  const WORD_LIMIT: nat := 0x1_0000_0000_0000_0000

  /** A `uint64_t`. */
  type u64 = x: int | 0 <= x < 0x1_0000_0000_0000_0000

  /** An `unsigned int` (32 bits). */
  type u32 = x: int | 0 <= x < 0x1_0000_0000

  /** A `uint8_t`. */
  type u8 = x: int | 0 <= x < 0x100

  function Pow2(n: nat): (r: nat)
    ensures r >= 1
  {
    if n == 0 then 1 else 2 * Pow2(n - 1)
  }

  /** `x << n` without truncation: x * 2^n. */
  function ShiftLeft(x: nat, n: nat): nat
  {
    if n == 0 then x else 2 * ShiftLeft(x, n - 1)
  }

  /** `x >> n` on an unsigned value: x / 2^n rounded down. */
  function ShiftRight(x: nat, n: nat): (r: nat)
    ensures r <= x
  {
    if n == 0 then x else ShiftRight(x / 2, n - 1)
  }

  /** Reduction of an unsigned C result modulo 2^64. */
  function Wrap(x: int): u64
  {
    x % WORD_LIMIT
  }

  function BitAnd(x: nat, y: nat): nat
  {
    if x == 1 && y == 1 then 1 else 0
  }

  /** Bitwise `a & b`, bit by bit from the least significant one. */
  function And(a: nat, b: nat): (r: nat)
    ensures r <= a && r <= b
    decreases a
  {
    if a == 0 || b == 0 then 0 else 2 * And(a / 2, b / 2) + BitAnd(a % 2, b % 2)
  }

  // ---------------------------------------------------------------------------
  // Arithmetic helpers

  lemma AndStep(a: nat, b: nat)
    ensures And(a, b) == 2 * And(a / 2, b / 2) + BitAnd(a % 2, b % 2)
  {
    if a == 0 {
      assert And(a / 2, b / 2) == 0;
    } else if b == 0 {
      assert And(a / 2, b / 2) == 0;
    }
  }

  lemma MulAtLeast(k: int, d: int)
    requires k >= 1 && d > 0
    ensures k * d >= d
  {
    assert k * d == (k - 1) * d + d;
  }

  lemma MulTwice(x: int, y: int)
    ensures x * (2 * y) == 2 * (x * y)
  {
  }

  /** Quotient and remainder are determined by the division equation. */
  lemma DivModUnique(a: int, d: int, q: int, r: int)
    requires d > 0 && 0 <= r < d && a == q * d + r
    ensures a / d == q && a % d == r
  {
    var q', r' := a / d, a % d;
    var k := q' - q;
    assert k * d == r - r' by {
      assert a == q' * d + r';
      assert q' * d - q * d == (q' - q) * d;
    }
    if k >= 1 {
      MulAtLeast(k, d);
    } else if k <= -1 {
      MulAtLeast(-k, d);
    }
  }

  lemma ModHalf(x: nat, q: nat)
    requires q >= 1
    ensures x % (2 * q) == 2 * ((x / 2) % q) + x % 2
    ensures x / (2 * q) == (x / 2) / q
  {
    var h, b := x / 2, x % 2;
    var k, r := h / q, h % q;
    assert x == (2 * q) * k + (2 * r + b);
    DivModUnique(x, 2 * q, k, 2 * r + b);
  }

  lemma {:induction false} Pow2Add(a: nat, b: nat)
    ensures Pow2(a + b) == Pow2(a) * Pow2(b)
  {
    if b > 0 {
      Pow2Add(a, b - 1);
      assert Pow2(a + b) == 2 * Pow2(a + b - 1);
      MulTwice(Pow2(a), Pow2(b - 1));
    }
  }

  lemma {:induction false} Pow2Mono(m: nat, n: nat)
    requires m <= n
    ensures Pow2(m) <= Pow2(n)
  {
    if m < n {
      Pow2Mono(m, n - 1);
    }
  }

  /** The powers of two the model names as hexadecimal constants. */
  lemma Pow2Values()
    ensures Pow2(8) == 0x100
    ensures Pow2(16) == 0x1_0000
    ensures Pow2(32) == 0x1_0000_0000
    ensures Pow2(55) == 0x80_0000_0000_0000
    ensures Pow2(62) == 0x4000_0000_0000_0000
    ensures Pow2(63) == 0x8000_0000_0000_0000
    ensures Pow2(64) == WORD_LIMIT
  {
    assert Pow2(4) == 16;
    Pow2Add(4, 4);
    Pow2Add(8, 8);
    Pow2Add(16, 16);
    Pow2Add(32, 16);
    Pow2Add(48, 4);
    Pow2Add(52, 3);
    Pow2Add(55, 4);
    Pow2Add(59, 3);
    assert Pow2(63) == 2 * Pow2(62);
    assert Pow2(64) == 2 * Pow2(63);
  }

  // ---------------------------------------------------------------------------
  // Laws of the shift and mask operators

  /** `>>` is division by a power of two. */
  lemma {:induction false} ShiftRightIsDiv(x: nat, n: nat)
    ensures ShiftRight(x, n) == x / Pow2(n)
  {
    if n > 0 {
      ShiftRightIsDiv(x / 2, n - 1);
      ModHalf(x, Pow2(n - 1));
    }
  }

  /** `(x << n) | r` for r below 2^n splits back into r and x. */
  lemma {:induction false} ShiftLeftPlusLow(x: nat, r: nat, n: nat)
    requires r < Pow2(n)
    ensures (ShiftLeft(x, n) + r) % Pow2(n) == r
    ensures ShiftRight(ShiftLeft(x, n) + r, n) == x
  {
    if n > 0 {
      var y := ShiftLeft(x, n - 1);
      ShiftLeftPlusLow(x, r / 2, n - 1);
      ModHalf(2 * y + r, Pow2(n - 1));
      assert (2 * y + r) / 2 == y + r / 2;
    }
  }

  lemma {:induction false} ShiftLeftSucc(x: nat, n: nat)
    ensures ShiftLeft(x + 1, n) == ShiftLeft(x, n) + Pow2(n)
  {
    if n > 0 {
      ShiftLeftSucc(x, n - 1);
    }
  }

  lemma {:induction false} ShiftLeftMono(x: nat, y: nat, n: nat)
    requires x <= y
    ensures ShiftLeft(x, n) <= ShiftLeft(y, n)
  {
    if n > 0 {
      ShiftLeftMono(x, y, n - 1);
    }
  }

  lemma {:induction false} ShiftRightMono(x: nat, y: nat, n: nat)
    requires x <= y
    ensures ShiftRight(x, n) <= ShiftRight(y, n)
  {
    if n > 0 {
      ShiftRightMono(x / 2, y / 2, n - 1);
    }
  }

  lemma {:induction false} ShiftLeftPow2(m: nat, n: nat)
    ensures ShiftLeft(Pow2(m), n) == Pow2(m + n)
  {
    if n > 0 {
      ShiftLeftPow2(m, n - 1);
    }
  }

  lemma {:induction false} ShiftRightPow2(s: nat, d: nat)
    ensures ShiftRight(Pow2(s + d), s) == Pow2(d)
  {
    if s > 0 {
      assert Pow2(s + d) / 2 == Pow2(s - 1 + d);
      ShiftRightPow2(s - 1, d);
    }
  }

  /** Every power of two below 2^64 is a word. */
  lemma Pow2BelowWord(n: nat)
    requires n < 64
    ensures Pow2(n) < WORD_LIMIT
  {
    Pow2Mono(n + 1, 64);
    Pow2Values();
  }

  /** A value below 2^m shifted left by n stays below 2^(m+n). */
  lemma ShiftLeftBound(x: nat, m: nat, n: nat)
    requires x < Pow2(m)
    ensures ShiftLeft(x, n) + Pow2(n) <= Pow2(m + n)
  {
    ShiftLeftSucc(x, n);
    ShiftLeftMono(x + 1, Pow2(m), n);
    ShiftLeftPow2(m, n);
  }

  /** Masking with 2^k - 1 keeps the k low bits. */
  lemma {:induction false} AndLowMask(x: nat, k: nat)
    ensures And(x, Pow2(k) - 1) == x % Pow2(k)
  {
    if k > 0 {
      var h := Pow2(k - 1);
      var m := Pow2(k) - 1;
      assert m == 2 * (h - 1) + 1;
      assert m / 2 == h - 1 && m % 2 == 1;
      AndStep(x, m);
      assert BitAnd(x % 2, m % 2) == x % 2;
      AndLowMask(x / 2, k - 1);
      ModHalf(x, h);
    }
  }

  /** A mask below 2^p only sees the p low bits of its operand. */
  lemma {:induction false} AndAgreesBelow(a: nat, b: nat, m: nat, p: nat)
    requires m < Pow2(p) && a % Pow2(p) == b % Pow2(p)
    ensures And(a, m) == And(b, m)
  {
    if p > 0 {
      AndStep(a, m);
      AndStep(b, m);
      ModHalf(a, Pow2(p - 1));
      ModHalf(b, Pow2(p - 1));
      AndAgreesBelow(a / 2, b / 2, m / 2, p - 1);
    }
  }

  lemma AndDouble(a: nat, y: nat)
    ensures And(a, 2 * y) == 2 * And(a / 2, y)
  {
    var b := 2 * y;
    assert b / 2 == y && b % 2 == 0;
    AndStep(a, b);
    assert BitAnd(a % 2, b % 2) == 0;
  }

  /** Masking with a shifted mask equals masking the shifted operand, shifted back. */
  lemma {:induction false} AndShifted(a: nat, m: nat, b: nat)
    ensures And(a, ShiftLeft(m, b)) == ShiftLeft(And(ShiftRight(a, b), m), b)
  {
    if b > 0 {
      AndDouble(a, ShiftLeft(m, b - 1));
      AndShifted(a / 2, m, b - 1);
    }
  }

  /** `(x & ((2^k - 1) << n)) >> n` extracts the k-bit field of x at bit n. */
  lemma MaskedField(x: nat, k: nat, n: nat)
    ensures ShiftRight(And(x, ShiftLeft(Pow2(k) - 1, n)), n) == ShiftRight(x, n) % Pow2(k)
  {
    var field := ShiftRight(x, n) % Pow2(k);
    assert And(x, ShiftLeft(Pow2(k) - 1, n)) == ShiftLeft(field, n) by {
      AndShifted(x, Pow2(k) - 1, n);
      AndLowMask(ShiftRight(x, n), k);
    }
    ShiftLeftPlusLow(field, 0, n);
  }

  lemma {:induction false} ShiftLeftZero(n: nat)
    ensures ShiftLeft(0, n) == 0
  {
    if n > 0 {
      ShiftLeftZero(n - 1);
    }
  }
}
