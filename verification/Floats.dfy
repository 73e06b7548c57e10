/** Whole numbers as IEEE 754 single-precision numbers: rounding, bit patterns, and reading them back. */
module Floats {
  import opened Arithmetic
  import opened Words

  const MANTISSA := 0x100_0000
  const HIDDEN := 0x80_0000

  /** The spacing of single-precision numbers around `n`. */
  function Ulp(n: nat): (u: nat)
    ensures u > 0 && n < MANTISSA * u && (n >= HIDDEN ==> HIDDEN * u <= n)
  {
    if n < MANTISSA then 1 else 2 * Ulp(n / 2)
  }

  /** The single-precision number nearest to `n`, ties to even. */
  function Stored(n: nat): nat {
    var u := Ulp(n);
    var q, r := n / u, n % u;
    if 2 * r < u || (2 * r == u && q % 2 == 0) then q * u else (q + 1) * u
  }

  /** All whole numbers below `n` survive float storage exactly when `n` is at most 2^24 + 1. */
  lemma LabelsSurviveIff(n: nat)
    ensures (forall i: nat :: i < n ==> Stored(i) == i) <==> n <= MANTISSA + 1
  {
    assert Ulp(MANTISSA) == 2 * Ulp(MANTISSA / 2) && Ulp(MANTISSA + 1) == 2 * Ulp((MANTISSA + 1) / 2);
    assert Stored(MANTISSA) == MANTISSA && Stored(MANTISSA + 1) == MANTISSA;
    forall i: nat | i < MANTISSA
      ensures Stored(i) == i
    {
    }
  }

  /** The biased exponent of a positive whole number. */
  function Exponent(n: nat): (e: int)
    requires n > 0
    ensures (n < MANTISSA ==> e <= 150) && (n >= HIDDEN ==> e >= 150)
    decreases if n < MANTISSA then MANTISSA - n else n
  {
    if n < HIDDEN then Exponent(2 * n) - 1 else if n < MANTISSA then 150 else Exponent(n / 2) + 1
  }

  /** Its significand, the leading bit included. */
  function Significand(n: nat): (s: nat)
    requires n > 0
    ensures HIDDEN <= s < MANTISSA
    decreases if n < MANTISSA then MANTISSA - n else n
  {
    if n < HIDDEN then Significand(2 * n) else if n < MANTISSA then n else Significand(n / 2)
  }

  function Pow2(k: nat): (p: nat)
    ensures p > 0
  {
    if k == 0 then 1 else 2 * Pow2(k - 1)
  }

  lemma {:induction false} ExponentAbove(n: nat, k: nat)
    requires n > 0 && n * Pow2(k) >= HIDDEN
    ensures Exponent(n) >= 150 - k
    decreases k
  {
    if n < HIDDEN {
      assert k > 0;
      assert 2 * n * Pow2(k - 1) == n * Pow2(k);
      ExponentAbove(2 * n, k - 1);
    }
  }

  lemma {:induction false} ExponentBelow(n: nat, k: nat)
    requires n > 0 && n < MANTISSA * Pow2(k)
    ensures Exponent(n) <= 150 + k
    decreases k
  {
    if n >= MANTISSA {
      assert k > 0;
      ExponentBelow(n / 2, k - 1);
    }
  }

  /** The bit pattern of a non-negative whole number, for one that is a single-precision number. */
  function Bits(n: nat): int {
    if n == 0 then 0 else Exponent(n) * HIDDEN + Significand(n) - HIDDEN
  }

  /** `significand * 2^(exponent - 150)`, without its fraction. */
  function Scaled(significand: nat, exponent: int): nat
    decreases if exponent > 150 then exponent - 150 else 150 - exponent
  {
    if exponent == 150 then significand
    else if exponent > 150 then 2 * Scaled(significand, exponent - 1)
    else Scaled(significand, exponent + 1) / 2
  }

  /** The whole number that a non-negative bit pattern truncates to. */
  function Truncated(w: nat): nat {
    Scaled(HIDDEN + w % HIDDEN, w / HIDDEN)
  }

  lemma HalfIsMultiple(n: nat, u: nat)
    requires u > 0 && n % (2 * u) == 0
    ensures n % 2 == 0 && (n / 2) % u == 0
  {
    var k := n / (2 * u);
    assert n == 2 * (u * k);
    ProductIsMultiple(k, u);
  }

  lemma ProductIsMultiple(k: nat, u: nat)
    requires u > 0
    ensures (u * k) % u == 0
  {
    DivUnique(u * k, u, k, 0);
  }

  lemma {:induction false} ScaledBack(n: nat)
    requires n > 0 && n % Ulp(n) == 0
    ensures Scaled(Significand(n), Exponent(n)) == n
    decreases if n < MANTISSA then MANTISSA - n else n
  {
    if n < HIDDEN {
      ScaledBack(2 * n);
    } else if n >= MANTISSA {
      HalfIsMultiple(n, Ulp(n / 2));
      ScaledBack(n / 2);
    }
  }

  /** The spacing is the same for all significands on the same power of two. */
  lemma {:induction false} UlpOfMultiple(q: nat, n: nat)
    requires HIDDEN <= q < MANTISSA
    ensures Ulp(q * Ulp(n)) == Ulp(n)
  {
    if n >= MANTISSA {
      var u := Ulp(n / 2);
      UlpOfMultiple(q, n / 2);
      assert q * (2 * u) == 2 * (q * u);
      assert q * (2 * u) >= HIDDEN * (2 * u) >= MANTISSA;
    }
  }

  /** Rounding yields a single-precision number. */
  lemma StoredIsRepresentable(n: nat)
    ensures Stored(n) % Ulp(Stored(n)) == 0
  {
    if n >= HIDDEN {
      var u := Ulp(n);
      var q := n / u;
      QuotientRange(n, u);
      MultipleIsRepresentable(q, n);
      if q + 1 < MANTISSA {
        MultipleIsRepresentable(q + 1, n);
      } else {
        MantissaIsRepresentable(n);
      }
    }
  }

  lemma QuotientRange(n: nat, u: nat)
    requires u > 0 && HIDDEN * u <= n < MANTISSA * u
    ensures HIDDEN <= n / u < MANTISSA
  {
    DivBounds(n, u);
    if n / u < HIDDEN {
      MulMono(n / u, HIDDEN, u);
    } else if n / u > MANTISSA {
      MulMono(MANTISSA, n / u, u);
    }
  }

  lemma MultipleIsRepresentable(q: nat, n: nat)
    requires HIDDEN <= q < MANTISSA
    ensures (q * Ulp(n)) % Ulp(q * Ulp(n)) == 0
  {
    UlpOfMultiple(q, n);
    ProductIsMultiple(q, Ulp(n));
    assert q * Ulp(n) == Ulp(n) * q;
  }

  lemma MantissaIsRepresentable(n: nat)
    ensures (MANTISSA * Ulp(n)) % Ulp(MANTISSA * Ulp(n)) == 0
  {
    var u := Ulp(n);
    var v := MANTISSA * u;
    UlpOfMultiple(HIDDEN, n);
    assert v / 2 == HIDDEN * u && Ulp(v) == 2 * u;
    ProductIsMultiple(HIDDEN, 2 * u);
    assert v == 2 * u * HIDDEN;
  }

  lemma StoredBelow(n: nat)
    requires n > 0
    ensures 0 < Stored(n) <= 2 * n
  {
    var u := Ulp(n);
    if n < MANTISSA {
    } else {
      QuotientRange(n, u);
      var q := n / u;
      assert n == q * u + n % u;
      assert u <= q * u <= n && (q + 1) * u == q * u + u;
    }
  }

  /** A whole number stored as a float. */
  function LabelBits(n: nat): int {
    Bits(Stored(n))
  }

  /** A 32-bit label takes a non-negative 32-bit pattern and reads back as the float nearest to it. */
  lemma BitsReadBack(n: nat)
    requires n < 0x8000_0000
    ensures 0 <= LabelBits(n) < 0x8000_0000 && Truncated(LabelBits(n)) == Stored(n)
  {
    var v := Stored(n);
    if n == 0 {
      ScaledOfNothing(0);
    } else {
      StoredBelow(n);
      StoredIsRepresentable(n);
      assert Pow2(8) == 256 by {
        assert Pow2(4) == 16;
      }
      ExponentBelow(v, 8);
      assert Pow2(23) == HIDDEN by {
        PowersOfTwo();
      }
      ExponentAbove(v, 23);
      ScaledBack(v);
      PatternSplits(Exponent(v), Significand(v));
    }
  }

  /** A label as a 32-bit float holds it. */
  function LabelCell(n: nat): Word {
    LabelBits(n) % TWO32
  }

  /** From 2^23 on, up to 2^24, the patterns count up from 0x4B000000; halving a number takes one off its exponent. */
  lemma CellsLookLike(n: nat)
    requires 0 < n < MANTISSA
    ensures n >= HIDDEN ==> LabelBits(n) == 0x4B00_0000 + (n - 0x80_0000)
    ensures n < HIDDEN ==> LabelBits(n) == LabelBits(2 * n) - 0x80_0000
  {
  }

  lemma LabelReadsBack(n: nat)
    requires n < 0x8000_0000
    ensures Truncated(LabelCell(n)) == Stored(n)
  {
    BitsReadBack(n);
    SmallIsItself(LabelBits(n));
  }

  lemma SmallIsItself(x: int)
    requires 0 <= x < TWO32
    ensures x % TWO32 == x
  {
  }

  lemma PowersOfTwo()
    ensures Pow2(23) == HIDDEN
  {
    assert Pow2(4) == 16;
    assert Pow2(8) == 256;
    assert Pow2(12) == 4096;
    assert Pow2(16) == 65536;
    assert Pow2(20) == 1048576;
  }

  lemma PatternSplits(e: nat, s: nat)
    requires HIDDEN <= s < MANTISSA
    ensures (e * HIDDEN + s - HIDDEN) / HIDDEN == e && (e * HIDDEN + s - HIDDEN) % HIDDEN == s - HIDDEN
  {
  }

  /** With the smallest exponents only a fraction is left. */
  lemma {:induction false} ScaledOfNothing(e: int)
    requires e <= 126
    ensures Scaled(HIDDEN, e) == 0
    decreases 126 - e
  {
    if e == 126 {
      ScaledByHalves();
    } else {
      ScaledOfNothing(e + 1);
    }
  }

  lemma ScaledByHalves()
    ensures Scaled(HIDDEN, 126) == 0
  {
    assert Scaled(HIDDEN, 146) == HIDDEN / 16;
    assert Scaled(HIDDEN, 142) == HIDDEN / 256;
    assert Scaled(HIDDEN, 138) == HIDDEN / 4096;
    assert Scaled(HIDDEN, 134) == HIDDEN / 65536;
    assert Scaled(HIDDEN, 130) == HIDDEN / 1048576;
    assert Scaled(HIDDEN, 127) == 1;
  }
}
