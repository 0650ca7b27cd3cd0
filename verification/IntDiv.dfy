/** mbedtls_int_div_int: a two-word dividend by a one-word divisor, in half-word steps. */
module IntDivs {
  import opened Arith
  import opened Limbs
  import opened Mpis
  import opened Shifts
  import opened Muls

  // ----- One quotient digit ---------------------------------------------------------------

  /** The quotient digit wanted: (u, low) in base R, divided by d. */
  ghost function TrueDigit(u: nat, low: nat, d: nat, R: nat): nat
    requires 0 < d
  {
    DivNonNeg(u * R + low, d);
    (u * R + low) / d
  }

  lemma DigitBelow(u: nat, low: nat, d: nat, R: nat)
    requires u < d && low < R
    ensures TrueDigit(u, low, d, R) < R
  {
    DivBounds(u * R + low, d);
    MulLe(R, u + 1, d);
    if (u * R + low) / d >= R { MulLe(d, R, (u * R + low) / d); }
  }

  /** The trial digit q, with remainder part r, is too large by the loop test. */
  lemma TooLarge(u: nat, low: nat, d: nat, d1: nat, d0: nat, q: nat, r: int, R: nat, want: nat)
    requires d == d1 * R + d0 && 0 < d && u < d && low < R
    requires u == d1 * q + r
    requires want == TrueDigit(u, low, d, R)
    requires q >= R || q * d0 > R * r + low
    ensures want < q
  {
    DivBounds(u * R + low, d);
    if q >= R {
      DigitBelow(u, low, d, R);
    } else {
      DigitProduct(u, d1, d0, q, r, R);
      if want >= q { MulLe(d, q, want); }
    }
  }

  lemma DigitProduct(u: int, d1: int, d0: int, q: int, r: int, R: int)
    requires u == d1 * q + r
    ensures (d1 * R + d0) * q == u * R - R * r + q * d0
  {}

  /** The trial digit passes the loop test, or its remainder part has left the half word. */
  lemma NotTooLarge(u: nat, low: nat, d: nat, d1: nat, d0: nat, q: nat, r: int, R: nat, want: nat)
    requires d == d1 * R + d0 && 0 < d && d0 < R
    requires u == d1 * q + r && want <= q
    requires want == TrueDigit(u, low, d, R)
    requires q * d0 <= R * r + low || (q <= R && r >= R)
    ensures q == want
  {
    DivBounds(u * R + low, d);
    DigitProduct(u, d1, d0, q, r, R);
    assert q * d0 <= R * r + low by {
      if q <= R && r >= R { LargeRemainder(q, d0, r, R); }
    }
    if q > want { MulLe(d, want + 1, q); }
  }

  lemma LargeRemainder(q: nat, d0: nat, r: int, R: nat)
    requires q <= R && d0 < R && R <= r
    ensures q * d0 <= R * r
  {
    MulLe(d0, q, R);
    MulLe(R, d0, r);
  }

  /** The first trial digit q is at most RADIX + 1 and not below the true digit. */
  lemma TrialDigit(u: nat, low: nat, d: nat, d1: nat, d0: nat, q: nat, R: nat, want: nat)
    requires d == d1 * R + d0 && d0 < R && R <= 2 * d1
    requires u < d && low < R
    requires d1 * q <= u < d1 * q + d1
    requires want == TrueDigit(u, low, d, R)
    ensures want <= q <= R + 1
  {
    if q >= R + 2 {
      MulLe(d1, R + 2, q);
      MulAddDist(d1, R, 2);
    }
    if want >= q + 1 {
      DivBounds(u * R + low, d);
      MulLe(d, q + 1, want);
      DigitAbove(u, d1, d0, q, R);
    }
  }

  lemma DigitAbove(u: nat, d1: nat, d0: nat, q: nat, R: nat)
    requires u < d1 * q + d1
    ensures (d1 * R + d0) * (q + 1) >= u * R + R
  {
    MulLe(R, u + 1, d1 * q + d1);
    MulNonNeg(d0, q + 1);
    DigitShape(d1, d0, q, R);
  }

  lemma DigitShape(d1: int, d0: int, q: int, R: int)
    ensures (d1 * R + d0) * (q + 1) == R * (d1 * q + d1) + d0 * (q + 1)
  {}

  /** One digit of the quotient: trial division by the top half of d, then correction. */
  method QuotientDigit(u: Limb, low: nat, d: Limb, d1: nat, d0: nat) returns (q: nat)
    requires d == d1 * RADIX + d0 && d1 < RADIX && d0 < RADIX && RADIX <= 2 * d1
    requires u < d && low < RADIX
    ensures q == TrueDigit(u, low, d, RADIX) && q < RADIX
  {
    hide *;
    DivBounds(u, d1);
    q := u / d1;
    TrialDigit(u, low, d, d1, d0, q, RADIX, TrueDigit(u, low, d, RADIX));
    q := CorrectDigit(u, low, d, d1, d0, q, u - d1 * q);
  }

  /** The correction loop. */
  method CorrectDigit(u: Limb, low: nat, d: Limb, d1: nat, d0: nat, q1: nat, r0: nat) returns (q: nat)
    requires d == d1 * RADIX + d0 && d1 < RADIX && d0 < RADIX
    requires u < d && low < RADIX
    requires u == d1 * q1 + r0 && r0 < d1
    requires TrueDigit(u, low, d, RADIX) <= q1 <= RADIX + 1
    ensures q == TrueDigit(u, low, d, RADIX) && q < RADIX
  {
    hide *;
    ghost var want := TrueDigit(u, low, d, RADIX);
    DigitBelow(u, low, d, RADIX);
    q := q1;
    var r := r0;
    while q >= RADIX || Wrap(q * d0) > Wrap(RADIX * r + low)
      invariant 0 <= r < RADIX && u == d1 * q + r
      invariant want <= q <= RADIX + 1
      decreases q
    {
      if q < RADIX { NoWrap(q, d0, r, low); }
      TooLarge(u, low, d, d1, d0, q, r, RADIX, want);
      MulAddDist(d1, q, 1);
      q := q - 1;
      r := r + d1;
      if r >= RADIX {
        NotTooLarge(u, low, d, d1, d0, q, r, RADIX, want);
        return;
      }
    }
    NoWrap(q, d0, r, low);
    NotTooLarge(u, low, d, d1, d0, q, r, RADIX, want);
  }

  /** Neither side of the loop test wraps around when it is evaluated. */
  lemma NoWrap(q: nat, d0: nat, r: nat, low: nat)
    requires q < RADIX && d0 < RADIX && r < RADIX && low < RADIX
    ensures Wrap(q * d0) == q * d0
    ensures Wrap(RADIX * r + low) == RADIX * r + low
  {
    hide *;
    RadixSquared();
    HalfProductFits(q, d0);
    MulNonNeg(RADIX, r);
    MulLe(RADIX, r + 1, RADIX);
    WrapSmall(q * d0);
    WrapSmall(RADIX * r + low);
  }

  // ----- Two digits, and normalisation ----------------------------------------------------

  /** The remainder after a digit, computed in wrapping arithmetic, is exact. */
  lemma DigitRemainder(u: nat, low: nat, d: Limb, q: nat)
    requires 0 < d && q == TrueDigit(u, low, d, RADIX)
    ensures Wrap(u * RADIX + (low - q * d)) == u * RADIX + low - q * d
    ensures 0 <= u * RADIX + low - q * d < d
  {
    DivBounds(u * RADIX + low, d);
    WrapSmall(u * RADIX + low - q * d);
  }

  lemma TwoQuotientDigits(u1: int, m: int, l: int, d: int, q1: int, q0: int, rAX: int, r: int, R: int)
    requires rAX == u1 * R + m - q1 * d && r == rAX * R + l - q0 * d
    ensures u1 * (R * R) + (m * R + l) == (q1 * R + q0) * d + r
  {}

  /** Division of a normalised dividend: d has its top bit set. */
  method DivNormalised(u1: Limb, u0: Limb, d: Limb) returns (quotient: Limb, r: Limb)
    requires u1 < d && BASE <= 2 * d
    ensures quotient * d + r == u1 * BASE + u0 && r < d
  {
    hide *;
    RadixSquared();
    HalfBits();
    Halves(d);
    Halves(u0);
    var d1, d0 := Shr(d, biH), And(d, RADIX - 1);
    var u0msw, u0lsw := Shr(u0, biH), And(u0, RADIX - 1);
    HalfMask(d);
    HalfMask(u0);
    NormalTop(d, d1, d0, RADIX);
    var q1 := QuotientDigit(u1, u0msw, d, d1, d0);
    DigitRemainder(u1, u0msw, d, q1);
    var rAX: Limb := Wrap(u1 * RADIX + (u0msw - q1 * d));
    var q0 := QuotientDigit(rAX, u0lsw, d, d1, d0);
    DigitRemainder(rAX, u0lsw, d, q0);
    r := Wrap(rAX * RADIX + (u0lsw - q0 * d));
    MulLe(RADIX, q1 + 1, RADIX);
    MulNonNeg(q1, RADIX);
    quotient := q1 * RADIX + q0;
    TwoQuotientDigits(u1, u0msw, u0lsw, d, q1, q0, rAX, r, RADIX);
  }

  lemma HalfMask(x: Limb)
    ensures And(x, RADIX - 1) == x % RADIX
  {
    hide *;
    BaseIsP2();
    AndMask(x, biH);
  }

  lemma NormalTop(d: nat, d1: nat, d0: nat, R: nat)
    requires d == d1 * R + d0 && d0 < R && R * R <= 2 * d && R % 2 == 0
    ensures R <= 2 * d1
  {
    if 2 * d1 <= R - 2 {
      MulLe(R, 2 * d1, R - 2);
      MulAddDist(R, R, 2);
    }
  }

  /** Shifting the divisor to full length and the two-word dividend with it loses nothing. */
  lemma Normalise(u1: Limb, u0: Limb, d: Limb, s: nat)
    requires u1 < d && s < biL && IsBitlen(biL - s, d)
    ensures Shl(d, s) == d * P2(s) && BASE <= 2 * Shl(d, s)
    ensures var top := if s == 0 then 0 else Shr(u0, biL - s);
      Shl(u1, s) + top < Shl(d, s)
      && Or(Shl(u1, s), top) == Shl(u1, s) + top
      && (Shl(u1, s) + top) * BASE + Shl(u0, s) == (u1 * BASE + u0) * P2(s)
  {
    hide *;
    NormaliseWord(d, s);
    P2Zero();
    if s == 0 {
      ShiftNone(d);
      ShiftNone(u1);
      ShiftNone(u0);
      OrZero(Shl(u1, s));
    } else {
      ShlSplit(u1, s);
      ShlSplit(u0, s);
      MulLe(P2(s), u1 + 1, d);
      MulAddDist(P2(s), u1, 1);
      NoOverflow(Shl(u1, s), Shr(u1, biL - s), u1 * P2(s), BASE);
      OrDisjoint(Shl(u1, s), Shr(u0, biL - s), s);
      NormaliseAlgebra(u1, u0, Shr(u0, biL - s), Shl(u0, s), BASE, P2(s));
    }
  }

  lemma NormaliseWord(d: Limb, s: nat)
    requires s < biL && IsBitlen(biL - s, d) && d > 0
    ensures Shl(d, s) == d * P2(s) && BASE <= 2 * Shl(d, s)
  {
    var n := biL - s;
    assert P2(n - 1) <= d < P2(n);
    hide *;
    P2Succ(n - 1);
    ShiftedBounds(d, P2(n - 1), P2(n), P2(s));
    BaseSplit(s);
    MulAssoc(2, P2(n - 1), P2(s));
    ShiftDefinitions(d, s);
    DivModSmall(d * P2(s), BASE);
  }

  lemma ShiftNone(x: Limb)
    ensures Shl(x, 0) == x
  {
    DivModSmall(x, BASE);
  }

  lemma OrZero(x: nat)
    ensures Or(x, 0) == x
  {}

  lemma NoOverflow(lo: int, hi: nat, x: int, base: nat)
    requires x == lo + base * hi && x < base && 0 <= lo
    ensures hi == 0
  {
    if hi >= 1 { MulLe(base, 1, hi); }
  }

  lemma NormaliseAlgebra(u1: int, u0: int, top: int, low: int, base: int, e: int)
    requires u0 * e == low + base * top
    ensures (u1 * e + top) * base + low == (u1 * base + u0) * e
  {}

  /** mbedtls_int_div_int: floor((u1, u0) / d) and the remainder, all ones on overflow */
  method IntDivInt(u1: Limb, u0: Limb, d: Limb) returns (quotient: Limb, r: Limb)
    ensures d == 0 || u1 >= d ==> quotient == BASE - 1 && r == BASE - 1
    ensures d != 0 && u1 < d ==> quotient * d + r == u1 * BASE + u0 && r < d
  {
    hide *;
    if d == 0 || u1 >= d {
      return BASE - 1, BASE - 1;
    }
    if haveUdbl {
      quotient, r := DivWide(u1, u0, d);
      return;
    }
    quotient, r := DivHalf(u1, u0, d);
  }

  /** The path for compilers with a double-width word. */
  method DivWide(u1: Limb, u0: Limb, d: Limb) returns (quotient: Limb, r: Limb)
    requires u1 < d
    ensures quotient * d + r == u1 * BASE + u0 && r < d
  {
    hide *;
    var dividend := u1 * BASE + u0;
    MulNonNeg(u1, BASE);
    DivBounds(dividend, d);
    DivNonNeg(dividend, d);
    QuotientFits(u1, u0, d, dividend / d);
    var q := dividend / d;
    if q > BASE - 1 { q := BASE - 1; }
    return q, dividend - q * d;
  }

  /** The path without one: Algorithm D of The Art of Computer Programming, volume 2, section 4.3.1. */
  method DivHalf(u1: Limb, u0: Limb, d: Limb) returns (quotient: Limb, r: Limb)
    requires u1 < d
    ensures quotient * d + r == u1 * BASE + u0 && r < d
  {
    hide *;
    var s := Clz(d);
    NonZeroLength(d, s);
    Normalise(u1, u0, d, s);
    var d' := Shl(d, s);
    var u1' := Shl(u1, s);
    var top := if s == 0 then 0 else Shr(u0, biL - s);
    var mask := if s == 0 then 0 else BASE - 1;
    MaskedShift(top, s);
    u1' := Or(u1', And(top, mask));
    var u0' := Shl(u0, s);
    var q, r' := DivNormalised(u1', u0', d');
    Denormalise(q, d, r', P2(s), u1 * BASE + u0);
    ShiftDefinitions(r', s);
    return q, Shr(r', s);
  }

  lemma QuotientFits(u1: Limb, u0: Limb, d: nat, q: int)
    requires u1 < d && d * q <= u1 * BASE + u0
    ensures q < BASE
  {
    hide *;
    MulLe(BASE, u1 + 1, d);
    if q >= BASE { MulLe(d, BASE, q); }
  }

  lemma NonZeroLength(d: Limb, s: nat)
    requires d > 0 && s <= biL && IsBitlen(biL - s, d)
    ensures s < biL
  {}

  /** and-ing with all ones keeps a word; with a zero mask the shift by 0 contributes nothing */
  lemma MaskedShift(top: nat, s: nat)
    requires s == 0 ==> top == 0
    requires s < biL && top < BASE
    ensures And(top, if s == 0 then 0 else BASE - 1) == top
  {
    hide *;
    AndZero(top);
    BaseIsP2();
    AndMask(top, biL);
    DivModSmall(top, BASE);
  }

  lemma AndZero(x: nat)
    ensures And(x, 0) == 0
  {}

  /** Undoing the normalisation: the scaled remainder is a multiple of the scale. */
  lemma Denormalise(q: int, d: nat, r: nat, e: nat, n: int)
    requires 0 < e && 0 < d && q * (d * e) + r == n * e && r < d * e
    ensures q * d + r / e == n && r / e < d
  {
    var x := n - q * d;
    assert r == x * e;
    DivModUnique(r, e, x, 0);
    MulCancelLt(e, x, d);
  }
}
