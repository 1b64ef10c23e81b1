/**
 Bitwise operators of C on unsigned words, as functions on natural numbers, and the bits of their
 results. `Word` is `uint32_t`.
 */
module BitWords {

  const WIDTH: nat := 32

  type Word = x: nat | x < 0x1_0000_0000

  function Pow2(n: nat): (r: nat)
    ensures r > 0
  {
    if n == 0 then 1 else 2 * Pow2(n - 1)
  }

  /** Bit `i` of `a`. */
  predicate Bit(a: nat, i: nat) {
    if i == 0 then a % 2 == 1 else Bit(a / 2, i - 1)
  }

  /** `a & b`. */
  function And(a: nat, b: nat): nat {
    if a == 0 || b == 0 then 0 else 2 * And(a / 2, b / 2) + (if a % 2 == 1 && b % 2 == 1 then 1 else 0)
  }

  /** `a | b`. */
  function Or(a: nat, b: nat): nat {
    if a == 0 then b else if b == 0 then a
    else 2 * Or(a / 2, b / 2) + (if a % 2 == 1 || b % 2 == 1 then 1 else 0)
  }

  /** `~a` in `n` bits. */
  function Not(a: nat, n: nat): nat
    requires a < Pow2(n)
  {
    Pow2(n) - 1 - a
  }

  /** `a << s`, before truncation. */
  function Shl(a: nat, s: nat): nat {
    if s == 0 then a else 2 * Shl(a, s - 1)
  }

  /** `a >> s`. */
  function Shr(a: nat, s: nat): nat {
    if s == 0 then a else Shr(a / 2, s - 1)
  }

  // ---- bits of results

  lemma {:induction false} ZeroBit(i: nat)
    ensures !Bit(0, i)
  {
    if i > 0 { ZeroBit(i - 1); }
  }

  lemma {:induction false} AndBit(a: nat, b: nat, i: nat)
    ensures Bit(And(a, b), i) <==> Bit(a, i) && Bit(b, i)
  {
    if a == 0 || b == 0 {
      ZeroBit(i);
    } else if i > 0 {
      AndBit(a / 2, b / 2, i - 1);
    }
  }

  lemma {:induction false} OrBit(a: nat, b: nat, i: nat)
    ensures Bit(Or(a, b), i) <==> Bit(a, i) || Bit(b, i)
  {
    if a == 0 || b == 0 {
      ZeroBit(i);
    } else if i > 0 {
      OrBit(a / 2, b / 2, i - 1);
    }
  }

  lemma {:induction false} NotBit(a: nat, n: nat, i: nat)
    requires a < Pow2(n) && i < n
    ensures Bit(Not(a, n), i) <==> !Bit(a, i)
  {
    if i > 0 {
      NotBit(a / 2, n - 1, i - 1);
      assert Not(a, n) / 2 == Not(a / 2, n - 1);
    }
  }

  lemma {:induction false} Pow2Bit(k: nat, i: nat)
    ensures Bit(Pow2(k), i) <==> i == k
  {
    if k == 0 {
      if i > 0 { ZeroBit(i - 1); }
    } else if i > 0 {
      Pow2Bit(k - 1, i - 1);
    }
  }

  lemma {:induction false} ShlBit(a: nat, s: nat, i: nat)
    ensures Bit(Shl(a, s), i) <==> i >= s && Bit(a, i - s)
  {
    if s > 0 {
      if i > 0 { ShlBit(a, s - 1, i - 1); }
    }
  }

  lemma {:induction false} ShrBit(a: nat, s: nat, i: nat)
    ensures Bit(Shr(a, s), i) <==> Bit(a, s + i)
  {
    if s > 0 { ShrBit(a / 2, s - 1, i); }
  }

  /** The bits below `n`, and only they, can be set in a number below `2^n`. */
  lemma {:induction false} HighBit(a: nat, n: nat, i: nat)
    requires a < Pow2(n) && i >= n
    ensures !Bit(a, i)
  {
    if n == 0 {
      ZeroBit(i);
    } else {
      HighBit(a / 2, n - 1, i - 1);
    }
  }

  lemma {:induction false} OnesBit(n: nat, i: nat)
    ensures Bit(Pow2(n) - 1, i) <==> i < n
  {
    if i >= n { HighBit(Pow2(n) - 1, n, i); }
    else if i > 0 { OnesBit(n - 1, i - 1); }
  }

  /** Numbers with the same bits are the same. */
  lemma {:induction false} SameBits(a: nat, b: nat)
    requires forall i: nat :: Bit(a, i) <==> Bit(b, i)
    ensures a == b
    decreases a + b
  {
    assert Bit(a, 0) <==> Bit(b, 0);
    if a + b > 0 {
      forall i: nat ensures Bit(a / 2, i) <==> Bit(b / 2, i) {
        assert Bit(a, i + 1) <==> Bit(b, i + 1);
      }
      SameBits(a / 2, b / 2);
    }
  }

  lemma {:induction false} AndBelow(a: nat, b: nat)
    ensures And(a, b) <= a && And(a, b) <= b
  {
    if a != 0 && b != 0 { AndBelow(a / 2, b / 2); }
  }

  lemma {:induction false} OrBelow(a: nat, b: nat, n: nat)
    requires a < Pow2(n) && b < Pow2(n)
    ensures Or(a, b) < Pow2(n)
  {
    if a != 0 && b != 0 { OrBelow(a / 2, b / 2, n - 1); }
  }

  lemma {:induction false} Pow2Monotone(a: nat, b: nat)
    requires a <= b
    ensures Pow2(a) <= Pow2(b)
  {
    if a < b { Pow2Monotone(a, b - 1); }
  }

  lemma AndOdd(a: nat, m: nat)
    ensures And(a, 2 * m + 1) == 2 * And(a / 2, m) + a % 2
  {
  }

  lemma LowTwo(q: nat, r: nat)
    requires r < 4
    ensures And(4 * q + r, 3) == r
  {
    AndOdd(4 * q + r, 1);
    AndOdd(2 * q + r / 2, 0);
  }

  lemma LowThree(q: nat, r: nat)
    requires r < 8
    ensures And(8 * q + r, 7) == r
  {
    AndOdd(8 * q + r, 3);
    LowTwo(q, r / 2);
  }

  lemma LowFour(q: nat, r: nat)
    requires r < 16
    ensures And(16 * q + r, 15) == r
  {
    AndOdd(16 * q + r, 7);
    LowThree(q, r / 2);
  }

  lemma LowFive(q: nat, r: nat)
    requires r < 32
    ensures And(32 * q + r, 31) == r
  {
    AndOdd(32 * q + r, 15);
    LowFour(q, r / 2);
  }

  lemma LowSix(q: nat, r: nat)
    requires r < 64
    ensures And(64 * q + r, 63) == r
  {
    AndOdd(64 * q + r, 31);
    LowFive(q, r / 2);
  }

  lemma LowSeven(q: nat, r: nat)
    requires r < 128
    ensures And(128 * q + r, 127) == r
  {
    AndOdd(128 * q + r, 63);
    LowSix(q, r / 2);
  }

  lemma LowEight(q: nat, r: nat)
    requires r < 256
    ensures And(256 * q + r, 255) == r
  {
    AndOdd(256 * q + r, 127);
    LowSeven(q, r / 2);
  }

  /** Masks of five, seven and eight ones are remainders. */
  lemma MaskIsRemainder(a: nat)
    ensures And(a, 31) == a % 32 && And(a, 127) == a % 128 && And(a, 255) == a % 256
  {
    LowFive(a / 32, a % 32);
    LowSeven(a / 128, a % 128);
    LowEight(a / 256, a % 256);
  }

  /** Shifting by a byte is division. */
  lemma ShrByte(a: nat, s: nat)
    requires s >= 8
    ensures Shr(a, s) == Shr(a / 256, s - 8)
  {
    ShrNibble(a, s);
    ShrNibble(a / 16, s - 4);
  }

  lemma ShrNibble(n: nat, m: nat)
    requires m >= 4
    ensures Shr(n, m) == Shr(n / 16, m - 4)
  {
    assert Shr(n / 2 / 2, m - 2) == Shr(n / 2 / 2 / 2, m - 3) == Shr(n / 2 / 2 / 2 / 2, m - 4);
    assert n / 2 / 2 / 2 / 2 == n / 16;
  }

  lemma Width32()
    ensures Pow2(WIDTH) == 0x1_0000_0000
  {
    assert Pow2(8) == 0x100;
    assert Pow2(16) == 0x1_0000;
    assert Pow2(24) == 0x100_0000;
  }
}
