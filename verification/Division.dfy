/** 64-bit division by shifting and subtracting (src/kernel/lib/math.cpp). */
module Division {
  import opened Powers
  import Arith

  type Word = n: nat | n < Pow2(64) witness 0

  /** A number shifted right by `i`. */
  function Shr(n: nat, i: nat): nat { if i == 0 then n else Shr(n, i - 1) / 2 }

  /** Bit `i` of a number. */
  function Bit(n: nat, i: nat): (b: nat)
    ensures b <= 1
  {
    Shr(n, i) % 2
  }

  /** `(r << 1) | b` in 64 bits. */
  function ShiftIn(r: Word, b: nat): nat
    requires b <= 1
  {
    2 * r % Pow2(64) + b
  }

  /** `q | (1 << i)`. */
  function SetBit(q: nat, i: nat): nat { if Bit(q, i) == 1 then q else q + Pow2(i) }

  // ---------------------------------------------------------------------------------------------
  // Arithmetic

  /** One more bit of the word. */
  lemma NextBit(n: nat, i: nat)
    ensures Shr(n, i) == 2 * Shr(n, i + 1) + Bit(n, i)
  {
  }

  /** What is left of a word after shifting out `i` bits has the remaining bits. */
  lemma {:induction false} ShrBound(n: nat, k: nat, i: nat)
    requires n < Pow2(k) && i <= k
    ensures Shr(n, i) < Pow2(k - i)
    decreases i
  {
    if i > 0 {
      ShrBound(n, k, i - 1);
    }
  }

  lemma {:induction false} ShrMul(hi: nat, i: nat)
    ensures Shr(hi * Pow2(i), i) == hi
    decreases i
  {
    if i > 0 {
      assert hi * Pow2(i) == 2 * hi * Pow2(i - 1);
      ShrMul(2 * hi, i - 1);
    }
  }

  lemma {:induction false} PowMono(a: nat, b: nat)
    requires a <= b
    ensures Pow2(a) <= Pow2(b)
  {
    if a < b {
      PowMono(a, b - 1);
    }
  }

  /** Setting a bit below all others adds it. */
  lemma SetLowBit(hi: nat, i: nat)
    ensures SetBit(hi * Pow2(i + 1), i) == (2 * hi + 1) * Pow2(i)
  {
    assert hi * Pow2(i + 1) == 2 * hi * Pow2(i);
    ShrMul(2 * hi, i);
    assert (2 * hi + 1) * Pow2(i) == 2 * hi * Pow2(i) + Pow2(i);
  }

  // ---------------------------------------------------------------------------------------------
  // The loops

  /** The state before bit `i - 1` is taken: quotient and remainder of the bits taken so far. */
  ghost predicate Divided(n: Word, d: Word, i: nat, quotient: nat, remainder: nat)
    requires d > 0
  {
    exists hi: nat :: quotient == hi * Pow2(i) && Shr(n, i) == hi * d + remainder && remainder < d
  }

  lemma DivideStart(n: Word, d: Word)
    requires d > 0
    ensures Divided(n, d, 64, 0, 0)
  {
    ShrBound(n, 64, 64);
    assert 0 == 0 * Pow2(64) && Shr(n, 64) == 0 * d + 0;
  }

  lemma Doubled(hi: nat, i: nat)
    ensures hi * Pow2(i + 1) == 2 * hi * Pow2(i)
  {
  }

  /** The step for a known quotient of the bits taken so far. */
  lemma DivideStepFor(n: Word, d: Word, i: nat, hi: nat, remainder: nat, product: nat)
    requires d > 0 && i < 64 && product == hi * d && Shr(n, i + 1) == product + remainder && remainder < d
    ensures hi * Pow2(i + 1) >= 0 && remainder < Pow2(64) && 2 * remainder < Pow2(64)
    ensures var r, quotient := ShiftIn(remainder, Bit(n, i)), hi * Pow2(i + 1);
            && r < Pow2(64)
            && Divided(n, d, i, if r >= d then SetBit(quotient, i) else quotient, if r >= d then r - d else r)
  {
    hide Pow2;
    hide Bit;
    hide Shr;
    hide SetBit;
    hide Divided;
    hide ShiftIn;
    ShiftFits(n, i, remainder, product);
    NextBit(n, i);
    Doubled(hi, i);
    var b := Bit(n, i);
    var r := 2 * remainder + b;
    if r >= d {
      SetLowBit(hi, i);
      NextQuotient(hi, d, remainder, b, 1);
      DividedBy(n, d, i, 2 * hi + 1, r - d);
    } else {
      NextQuotient(hi, d, remainder, b, 0);
      DividedBy(n, d, i, 2 * hi, r);
    }
  }

  /** The shift loses no bit, and the step divides one bit more. */
  lemma DivideStep(n: Word, d: Word, i: nat, quotient: nat, remainder: nat)
    requires d > 0 && i < 64 && Divided(n, d, i + 1, quotient, remainder)
    ensures remainder < Pow2(64) && 2 * remainder < Pow2(64)
    ensures var r := ShiftIn(remainder, Bit(n, i));
            && r < Pow2(64)
            && Divided(n, d, i, if r >= d then SetBit(quotient, i) else quotient, if r >= d then r - d else r)
  {
    hide Pow2;
    hide Bit;
    hide Shr;
    hide SetBit;
    hide ShiftIn;
    var hi: nat :| quotient == hi * Pow2(i + 1) && Shr(n, i + 1) == hi * d + remainder && remainder < d;
    var product := hi * d;
    DivideStepFor(n, d, i, hi, remainder, product);
  }

  lemma ShiftFits(n: Word, i: nat, remainder: nat, product: int)
    requires i < 64 && product >= 0 && Shr(n, i + 1) == product + remainder
    ensures remainder < Pow2(64) && 2 * remainder < Pow2(64)
    ensures ShiftIn(remainder, Bit(n, i)) == 2 * remainder + Bit(n, i) < Pow2(64)
  {
    ShrBound(n, 64, i);
    NextBit(n, i);
    PowMono(64 - i, 64);
    hide Pow2;
    Small(2 * remainder, Pow2(64));
  }

  lemma Small(a: nat, m: nat)
    requires a < m
    ensures a % m == a
  {
    Arith.DivUnique(a, m, 0, a);
  }

  lemma NextQuotient(hi: nat, d: nat, remainder: nat, b: nat, step: nat)
    ensures 2 * (hi * d + remainder) + b == (2 * hi + step) * d + (2 * remainder + b - step * d)
  {
  }

  lemma DividedBy(n: Word, d: Word, i: nat, hi: nat, remainder: nat)
    requires d > 0 && remainder < d && Shr(n, i) == hi * d + remainder
    ensures hi * Pow2(i) >= 0 && Divided(n, d, i, hi * Pow2(i), remainder)
  {
  }

  lemma DivideEnd(n: Word, d: Word, quotient: nat, remainder: nat)
    requires d > 0 && Divided(n, d, 0, quotient, remainder)
    ensures n == quotient * d + remainder && remainder < d && quotient == n / d && remainder == n % d
    ensures quotient <= n
  {
    Arith.MulGrows(quotient, d);
    Arith.DivUnique(n, d, quotient, remainder);
  }

  /** The quotient; 0 for the divisor 0. */
  method UDiv64(dividend: Word, divisor: Word) returns (quotient: Word)
    ensures quotient == if divisor == 0 then 0 else dividend / divisor
  {
    hide Pow2;
    hide Bit;
    hide Shr;
    hide SetBit;
    hide ShiftIn;
    hide Divided;
    if divisor == 0 { return 0; }
    var q: nat, remainder: nat := 0, 0;
    DivideStart(dividend, divisor);
    for i := 64 downto 0
      invariant Divided(dividend, divisor, i, q, remainder)
    {
      DivideStep(dividend, divisor, i, q, remainder);
      remainder := ShiftIn(remainder, Bit(dividend, i));
      if remainder >= divisor {
        remainder := remainder - divisor;
        q := SetBit(q, i);
      }
    }
    DivideEnd(dividend, divisor, q, remainder);
    return q;
  }

  /** The remainder; 0 for the divisor 0. */
  method UMod64(dividend: Word, divisor: Word) returns (result: Word)
    ensures result == if divisor == 0 then 0 else dividend % divisor
  {
    hide Pow2;
    hide Bit;
    hide Shr;
    hide SetBit;
    hide ShiftIn;
    hide Divided;
    if divisor == 0 { return 0; }
    var remainder: nat := 0;
    ghost var q: nat := 0;
    DivideStart(dividend, divisor);
    for i := 64 downto 0
      invariant Divided(dividend, divisor, i, q, remainder)
    {
      DivideStep(dividend, divisor, i, q, remainder);
      remainder := ShiftIn(remainder, Bit(dividend, i));
      q := if remainder >= divisor then SetBit(q, i) else q;
      if remainder >= divisor {
        remainder := remainder - divisor;
      }
    }
    DivideEnd(dividend, divisor, q, remainder);
    return remainder;
  }
}
