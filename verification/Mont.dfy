/** Montgomery arithmetic: mpi_montg_init, mpi_montmul, mpi_montred. */
module Monts {
  import opened Arith
  import opened Limbs
  import opened Mpis
  import opened Shifts
  import opened AddSubs
  import opened Muls
  import opened ConstTime

  // ----- mpi_montg_init -------------------------------------------------------------------

  /** One Newton step doubles the number of correct bits. */
  lemma NewtonStep(m: int, x: int, d: int)
    requires 0 < d && Cong(m * x, 1, d)
    ensures 0 < d * d
    ensures Cong(m * (x * (2 - m * x)), 1, d * d)
  {
    MulLt(d, 0, d);
    var k := CongTo(m * x, 1, d);
    NewtonAlgebra(m, x, k, d);
    CongFrom(m * (x * (2 - m * x)), 1, -(k * k), d * d);
  }

  lemma NewtonAlgebra(m: int, x: int, k: int, d: int)
    requires m * x == 1 + k * d
    ensures m * (x * (2 - m * x)) == 1 + (-(k * k)) * (d * d)
  {
    assert m * (x * (2 - m * x)) == (m * x) * (2 - m * x);
    assert (1 + k * d) * (1 - k * d) == 1 - (k * d) * (k * d);
    assert (k * d) * (k * d) == (k * k) * (d * d);
  }

  lemma ModOfMultiple(x: int, base: nat, f: int, d: nat)
    requires 0 < d && 0 < base && base == f * d
    ensures Cong(x % base, x, d)
  {
    var q := x / base;
    assert x == base * q + x % base;
    assert base * q == (f * q) * d;
    CongFrom(x % base, x, -(f * q), d);
  }

  lemma WrapIs(x: int)
    ensures Wrap(x) == x % BASE
  {}

  /** Arithmetic modulo BASE keeps congruences modulo powers of two below it. */
  lemma WrapCong(x: int, e: nat)
    requires e <= biL
    ensures Cong(Wrap(x), x, P2(e))
  {
    hide *;
    BaseSplit(e);
    WrapIs(x);
    ModOfMultiple(x, BASE, P2(biL - e), P2(e));
  }

  /** The start value inverts m0 modulo 16. */
  lemma NewtonStart(m0: Limb)
    requires m0 % 2 == 1
    ensures Cong(m0 * Wrap(m0 + Shl(And(Wrap(m0 + 2), 4), 1)), 1, P2(4))
  {
    var y, bit := Wrap(m0 + 2), (m0 + 2) / 4 % 2;
    assert P2(2) == 4 && P2(3) == 8 && P2(4) == 16 && P2(1) == 2;
    AndPow2(y, 2);
    WrapCong(m0 + 2, 3);
    EighthBit(y, m0 + 2);
    assert And(y, 4) == 4 * bit;
    DivModSmall(8 * bit, BASE);
    assert Shl(4 * bit, 1) == 8 * bit;
    WrapCong(m0 + 8 * bit, 4);
    CongMul(m0, m0, Wrap(m0 + 8 * bit), m0 + 8 * bit, 16);
    OddSquare(m0, bit);
  }

  lemma EighthBit(x: nat, y: nat)
    requires Cong(x, y, 8)
    ensures x / 4 % 2 == y / 4 % 2
  {
    DivDiv(x, 4, 2);
    DivDiv(y, 4, 2);
    ThirdBit(x);
    ThirdBit(y);
  }

  lemma ThirdBit(x: nat)
    ensures x / 4 % 2 == x % 8 / 4
  {
    var q, r := x / 8, x % 8;
    assert x == 8 * q + r && 0 <= r < 8;
    var h := if r < 4 then 0 else 1;
    DivModUnique(r, 4, h, r - 4 * h);
    DivModUnique(x, 4, 2 * q + h, r - 4 * h);
    DivModUnique(2 * q + h, 2, q, h);
  }

  lemma OddSquare(m: nat, bit: nat)
    requires m % 2 == 1 && bit == (m + 2) / 4 % 2
    ensures Cong(m * (m + 8 * bit), 1, 16)
  {
    var q, r := m / 8, m % 8;
    OddSquareCases(q, r, bit);
    OddSquareAlgebra(q, r, bit);
    hide *;
    var k := if r == 1 then 0 else if r == 3 then 2 else if r == 5 then 4 else 3;
    CongFrom(m * (m + 8 * bit), 1, 4 * (q * q) + q * r + 4 * (q * bit) + k, 16);
  }

  lemma OddSquareCases(q: nat, r: nat, bit: nat)
    requires r < 8 && (8 * q + r) % 2 == 1 && bit == (8 * q + r + 2) / 4 % 2
    ensures r == 1 || r == 3 || r == 5 || r == 7
    ensures bit == if r == 3 || r == 5 then 1 else 0
  {
    DivModUnique(8 * q + r + 2, 4, 2 * q + (r + 2) / 4, (r + 2) % 4);
  }

  lemma OddSquareAlgebra(q: int, r: int, bit: int)
    ensures (8 * q + r) * (8 * q + r + 8 * bit)
         == r * r + 8 * (r * bit) + (4 * (q * q) + q * r + 4 * (q * bit)) * 16
  {}

  /** mpi_montg_init: mm = -N^-1 mod BASE */
  method MontgInit(N: Mpi) returns (mm: Limb)
    requires |N.p| > 0 && N.p[0] % 2 == 1
    ensures Cong(mm * N.p[0], -1, BASE)
  {
    hide P2, And, Shl, TwoTo, Wrap;
    var m0 := N.p[0];
    var x: Limb := Wrap(m0 + Shl(And(Wrap(m0 as int + 2), 4), 1));
    NewtonStart(m0);
    var i: nat := biL;
    ghost var e := 4;
    while i >= 8
      invariant i in {4, 8, 16, 32, 64} && e * i == 4 * biL && e <= biL
      invariant Cong(m0 * x, 1, P2(e))
    {
      var f: Limb := Wrap(2 - Wrap(m0 * x));
      NewtonWrapped(m0, x, e);
      x := Wrap(x * f);
      e := 2 * e;
      i := i / 2;
    }
    assert e == biL;
    BaseIsP2();
    mm := Wrap((BASE - 1 - x) + 1);
    NegateInverse(m0, x, mm);
  }

  lemma NewtonWrapped(m0: Limb, x: Limb, e: nat)
    requires 2 * e <= biL && Cong(m0 * x, 1, P2(e))
    ensures Cong(m0 * Wrap(x * Wrap(2 - Wrap(m0 * x))), 1, P2(2 * e))
  {
    hide *;
    var d := P2(2 * e);
    P2Add(e, e);
    NewtonStep(m0, x, P2(e));
    WrapCong(m0 * x, 2 * e);
    CongSelf(2, d);
    CongAdd(2, 2, Wrap(m0 * x), m0 * x, d);
    WrapCong(2 - Wrap(m0 * x), 2 * e);
    CongTrans(Wrap(2 - Wrap(m0 * x)), 2 - Wrap(m0 * x), 2 - m0 * x, d);
    CongSelf(x, d);
    CongMul(x, x, Wrap(2 - Wrap(m0 * x)), 2 - m0 * x, d);
    WrapCong(x * Wrap(2 - Wrap(m0 * x)), 2 * e);
    CongTrans(Wrap(x * Wrap(2 - Wrap(m0 * x))), x * Wrap(2 - Wrap(m0 * x)), x * (2 - m0 * x), d);
    CongSelf(m0, d);
    CongMul(m0, m0, Wrap(x * Wrap(2 - Wrap(m0 * x))), x * (2 - m0 * x), d);
    CongTrans(m0 * Wrap(x * Wrap(2 - Wrap(m0 * x))), m0 * (x * (2 - m0 * x)), 1, d);
  }

  lemma NegateInverse(m0: Limb, x: Limb, mm: Limb)
    requires Cong(m0 * x, 1, BASE) && mm == Wrap((BASE - 1 - x) + 1)
    ensures Cong(mm * m0, -1, BASE)
  {
    hide *;
    WrapIs((BASE - 1 - x) + 1);
    CongMod(BASE - x, BASE);
    CongFrom(BASE - x, -(x as int), 1, BASE);
    CongTrans(mm, BASE - x, -(x as int), BASE);
    CongSelf(m0, BASE);
    CongMul(mm, -(x as int), m0, m0, BASE);
    CongSelf(0, BASE);
    CongAdd(0, 0, m0 * x, 1, BASE);
    assert -(x as int) * m0 == 0 - m0 * x;
    CongTrans(mm * m0, 0 - m0 * x, -1, BASE);
  }

  // ----- mpi_montmul ----------------------------------------------------------------------

  /** The sliding accumulator: d = T.p[i..] holds v with v * W(i) = a * b + u * N for the i limbs
      a of A consumed so far and some u below W(i). */
  ghost predicate Accumulated(v: nat, i: nat, a: nat, b: nat, N: nat, u: nat)
  {
    v * Weight(i) == a * b + u * N && u < Weight(i) && a < Weight(i)
  }

  /** Hence the accumulator stays below b + N. */
  lemma AccumulatorBound(v: nat, i: nat, a: nat, b: nat, N: nat, u: nat)
    requires Accumulated(v, i, a, b, N, u) && N > 0
    ensures v < b + N
  {
    hide Weight;
    var w := Weight(i);
    MulLe(b, a, w);
    MulLt(N, u, w);
    MulAddDist(w, b, N);
    MulCancelLt(w, v, b + N);
  }

  /** One more limb: add u0 * b + u1 * N and divide by the base. */
  lemma AccumulateStep(v: nat, i: nat, a: nat, b: nat, N: nat, u: nat, u0: Limb, u1: Limb, v': nat)
    requires Accumulated(v, i, a, b, N, u)
    requires v' * BASE == v + u0 * b + u1 * N
    ensures (MulNonNeg(Weight(i), u0); MulNonNeg(Weight(i), u1);
      Accumulated(v', i + 1, a + Weight(i) * u0, b, N, u + Weight(i) * u1))
  {
    hide Weight;
    var w := Weight(i);
    WeightNext(i);
    MulNonNeg(w, u0);
    MulNonNeg(w, u1);
    AccumulateAlgebra(v, w, a, b, N, u, u0, u1, v', BASE);
    DigitRoom(a, w, u0, BASE);
    DigitRoom(u, w, u1, BASE);
  }

  lemma AccumulateAlgebra(v: int, w: int, a: int, b: int, N: int, u: int, u0: int, u1: int, v': int, base: int)
    requires v * w == a * b + u * N && v' * base == v + u0 * b + u1 * N
    ensures v' * (w * base) == (a + w * u0) * b + (u + w * u1) * N
  {
    assert v' * (w * base) == (v' * base) * w;
  }

  lemma DigitRoom(a: nat, w: nat, d: nat, base: nat)
    requires a < w && d < base
    ensures a + w * d < w * base
  {
    MulLe(w, d + 1, base);
    MulAddDist(w, d, 1);
  }

  /** The multiplier u1 makes the low limb of the sum vanish. */
  lemma LowLimbVanishes(v: nat, d0: nat, u0: nat, b: nat, b0: nat, N: nat, n0: nat, mm: nat, u1: nat, base: nat)
    requires 0 < base && Cong(v, d0, base) && Cong(b, b0, base) && Cong(N, n0, base)
    requires Cong(mm * n0, -1, base) && Cong(u1, (d0 + u0 * b0) * mm, base)
    ensures Cong(v + u0 * b + u1 * N, 0, base)
  {
    hide *;
    var x := d0 + u0 * b0;
    CongSelf(u0, base);
    CongMul(u0, u0, b, b0, base);
    CongAdd(v, d0, u0 * b, u0 * b0, base);
    CongMul(u1, x * mm, N, n0, base);
    CongSelf(x, base);
    CongMul(x, x, mm * n0, -1, base);
    MulAssoc(x, mm, n0);
    CongTrans(u1 * N, x * mm * n0, x * -1, base);
    CongAdd(v + u0 * b, x, u1 * N, x * -1, base);
    MinusItself(x);
  }

  lemma MinusItself(x: int)
    ensures x + x * -1 == 0
  {}

  /** A number is congruent to its low limb. */
  lemma LowLimbCong(p: seq<Limb>)
    requires |p| > 0
    ensures Cong(Val(p), p[0], BASE)
  {
    assert Val(p) == p[0] + BASE * Val(p[1..]);
    hide *;
    CongFrom(Val(p), p[0], Val(p[1..]), BASE);
  }

  /** No carry leaves the n + 2 limbs an accumulation touches. */
  lemma NoCarryOut(res: nat, w: nat, c: nat, total: nat)
    requires res + w * c == total < w
    ensures c == 0 && res == total
  {
    if c >= 1 { MulLe(w, 1, c); }
    assert w * 0 == 0;
  }

  /** d += S * x on n + 2 limbs, for an accumulator that has room. */
  method Accumulate(T: Mpi, i: nat, n: nat, S: Mpi, m: nat, x: Limb)
    requires T != S && m <= n && m <= |S.p| && i + n + 2 <= |T.p|
    requires Val(S.p[..m]) == Val(S.p)
    requires Val(T.p[i..]) + x * Val(S.p) < Weight(n + 2)
    modifies T`p
    ensures |T.p| == |old(T.p)|
    ensures Val(T.p[i..]) == old(Val(T.p[i..])) + x * Val(S.p)
  {
    hide *;
    ghost var q := T.p;
    MulNonNeg(x, Val(S.p));
    WindowValue(q, i, n + 2);
    var c := CoreMla(T, i, n + 2, S, m, x);
    NoCarryOut(Val(T.p[i..i + (n + 2)]), Weight(n + 2), c, Val(q[i..]) + x * Val(S.p));
    WindowBack(T.p, q, i, n + 2);
  }

  lemma WindowValue(q: seq<Limb>, i: nat, k: nat)
    requires i + k <= |q| && Val(q[i..]) < Weight(k)
    ensures Val(q[i..i + k]) == Val(q[i..])
  {
    hide *;
    ValHighZero(q[i..], k);
    assert q[i..][..k] == q[i..i + k];
  }

  lemma WindowBack(p: seq<Limb>, q: seq<Limb>, i: nat, k: nat)
    requires i + k <= |q| == |p| && Val(q[i..]) < Weight(k)
    requires p[i + k..] == q[i + k..]
    ensures Val(p[i..]) == Val(p[i..i + k])
  {
    hide AllZero, Val, Weight;
    ValHighZero(q[i..], k);
    assert q[i..][k..] == q[i + k..];
    assert p[i..][k..] == p[i + k..];
    assert p[i..][..k] == p[i..i + k];
    ValTrim(p[i..], k);
  }

  /** The accumulator has room for both products. */
  lemma AccumulatorRoom(v: nat, b: nat, N: nat, u0: Limb, u1: Limb, n: nat)
    requires b < Weight(n) && N < Weight(n) && v < b + N
    ensures 0 <= u0 * b && 0 <= u1 * N && v + u0 * b + u1 * N < Weight(n + 2)
  {
    hide *;
    WeightNext(n);
    WeightNext(n + 1);
    MulNonNeg(u0, b);
    MulNonNeg(u1, N);
    MulLe(b, u0, BASE - 1);
    MulLe(N, u1, BASE - 1);
    RoomAlgebra(b, N, Weight(n), BASE);
  }

  lemma RoomAlgebra(b: int, N: int, w: int, base: int)
    requires 0 <= b < w && 0 <= N < w && 2 <= base
    ensures b + N + (base - 1) * b + (base - 1) * N < w * base * base
  {
    MulLt(base, b + N, 2 * w);
    MulLe(w * base, 2, base);
    assert b + N + (base - 1) * b + (base - 1) * N == base * (b + N);
    assert base * (2 * w) == (w * base) * 2;
  }

  /** A number divisible by the base has a zero low limb, and dividing drops it. */
  lemma DropLowLimb(p: seq<Limb>, i: nat)
    requires i < |p| && Cong(Val(p[i..]), 0, BASE)
    ensures Val(p[i + 1..]) * BASE == Val(p[i..])
  {
    hide *;
    ValHead(p, i);
    var k := CongTo(Val(p[i..]), 0, BASE);
    DivModLow(Val(p[i..]), BASE, Val(p[i + 1..]), p[i]);
    DivModLow(Val(p[i..]), BASE, k, 0);
  }

  /** The body of the loop: T = (T + u0 * B + u1 * N) / BASE, by moving the window up a limb. */
  method MontStep(T: Mpi, i: nat, u0: Limb, B: Mpi, N: Mpi, mm: Limb, n: nat, m: nat, ghost a: nat, ghost u: nat)
    returns (u1: Limb)
    requires T != B && T != N && n == |N.p| > 0 && i + n + 2 <= |T.p| && 0 < m <= n && m <= |B.p|
    requires Cong(mm * N.p[0], -1, BASE)
    requires Val(B.p[..m]) == Val(B.p) < Weight(n)
    requires Accumulated(Val(T.p[i..]), i, a, Val(B.p), Val(N.p), u)
    modifies T`p
    ensures |T.p| == |old(T.p)|
    ensures (MulNonNeg(Weight(i), u0); MulNonNeg(Weight(i), u1);
      Accumulated(Val(T.p[i + 1..]), i + 1, a + Weight(i) * u0, Val(B.p), Val(N.p), u + Weight(i) * u1))
  {
    hide *;
    u1 := Wrap((T.p[i] + u0 * B.p[0]) * mm);
    ghost var v, b, vn := Val(T.p[i..]), Val(B.p), Val(N.p);
    ValBound(N.p);
    ModulusPositive(N.p, mm);
    AccumulatorBound(v, i, a, b, vn, u);
    AccumulatorRoom(v, b, vn, u0, u1, n);
    StepVanishes(T.p[i..], u0, B.p, N.p, mm, u1);
    WholeSeq(N.p);
    Accumulate(T, i, n, B, m, u0);
    Accumulate(T, i, n, N, n, u1);
    DropLowLimb(T.p, i);
    AccumulateStep(v, i, a, b, vn, u, u0, u1, Val(T.p[i + 1..]));
  }

  lemma WholeSeq(p: seq<Limb>)
    ensures p[..|p|] == p
  {}

  /** A modulus with an invertible low limb is not zero. */
  lemma ModulusPositive(N: seq<Limb>, mm: Limb)
    requires |N| > 0 && Cong(mm * N[0], -1, BASE)
    ensures Val(N) > 0
  {
    if Val(N) == 0 {
      ValZero(N);
      assert N[0] == 0;
      CongSmall(0, BASE - 1, BASE) by {
        CongFrom(-1, BASE - 1, -1, BASE);
        CongTrans(0, -1, BASE - 1, BASE);
      }
    }
  }

  /** The multiplier chosen by the loop makes the sum divisible by the base. */
  lemma StepVanishes(t: seq<Limb>, u0: Limb, b: seq<Limb>, N: seq<Limb>, mm: Limb, u1: Limb)
    requires |t| > 0 && |b| > 0 && |N| > 0 && Cong(mm * N[0], -1, BASE)
    requires u1 == Wrap((t[0] + u0 * b[0]) * mm)
    ensures Cong(Val(t) + u0 * Val(b) + u1 * Val(N), 0, BASE)
  {
    hide *;
    LowLimbCong(t);
    LowLimbCong(b);
    LowLimbCong(N);
    WrapIs((t[0] + u0 * b[0]) * mm);
    CongMod((t[0] + u0 * b[0]) * mm, BASE);
    LowLimbVanishes(Val(t), t[0], u0, Val(b), b[0], Val(N), N[0], mm, u1, BASE);
  }

  /** An accumulator below 2 * Weight(n) is n limbs and a top bit. */
  lemma TopBitOfWindow(p: seq<Limb>, n: nat, v: nat)
    requires 2 * n < |p| && Val(p[n..]) == v < 2 * Weight(n)
    ensures p[2 * n] <= 1 && v == Val(p[n..2 * n]) + Weight(n) * p[2 * n]
  {
    hide *;
    ValSplit(p[n..], n);
    assert p[n..][..n] == p[n..2 * n] && p[n..][n..] == p[2 * n..];
    var h := Val(p[2 * n..]);
    if h >= 2 { MulLe(Weight(n), 2, h); }
    ValHead(p, 2 * n);
    var r := Val(p[2 * n + 1..]);
    if r >= 1 { MulLe(BASE, 1, r); }
    assert BASE * 0 == 0;
  }

  /** The top limb after the subtraction says whether it was needed. */
  lemma SubtractionNeeded(v: nat, low: nat, top: nat, N: nat, w: nat, c: nat, low': nat)
    requires v == low + w * top && top <= 1 && c <= 1 && v < N + w && N < w
    requires low' == low - N + w * c && low' < w
    ensures v < N ==> top + 1 - c == 0
    ensures v >= N ==> top + 1 - c == 1 && low' == v - N
  {}

  /** Leave d - N or d in A, whichever is below N. */
  method MontFinish(A: Mpi, N: Mpi, T: Mpi, n: nat, ghost v: nat)
    requires A != N && A != T && T != N && n == |N.p| <= |A.p| && 2 * n < |T.p|
    requires Val(T.p[n..]) == v < Val(N.p) + Weight(n)
    modifies A`p, T`p
    ensures |A.p| == |old(A.p)| && A.p[n..] == old(A.p)[n..] && |T.p| == |old(T.p)|
    ensures Val(A.p[..n]) == if v < Val(N.p) then v else v - Val(N.p)
  {
    hide *;
    ValBound(N.p);
    TopBitOfWindow(T.p, n, v);
    ghost var low, top := Val(T.p[n..2 * n]), T.p[2 * n];
    A.p := T.p[n..2 * n] + A.p[n..];
    T.p := T.p[2 * n := Wrap(T.p[2 * n] + 1)];
    WrapSmall(top + 1);
    assert T.p[n..n + n] == old(T.p)[n..2 * n];
    var c := SubHlp(T, n, n, T, n, N);
    assert T.p[2 * n] == T.p[n + n..][0] == top + 1;
    T.p := T.p[2 * n := Wrap(T.p[2 * n] - c)];
    WrapSmall(top + 1 - c);
    WholeSeq(N.p);
    ghost var low' := Val(T.p[n..2 * n]);
    ValBound(T.p[n..2 * n]);
    SubtractionNeeded(v, low, top, Val(N.p), Weight(n), c, low');
    CondAssign(n, A, T, n, T.p[2 * n]);
  }

  /** v * W = a * b + u * N: modulo N the accumulator is a * b / W. */
  lemma AccumulatedCong(v: nat, n: nat, a: nat, b: nat, N: nat, u: nat, r: nat)
    requires Accumulated(v, n, a, b, N, u) && N > 0
    requires r == if v < N then v else v - N
    ensures Cong(r * Weight(n), a * b, N)
  {
    hide Weight;
    if v < N {
      CongFrom(r * Weight(n), a * b, u, N);
    } else {
      assert (v - N) * Weight(n) == v * Weight(n) - Weight(n) * N;
      CongFrom(r * Weight(n), a * b, u - Weight(n), N);
    }
  }

  /** r is a * b / Weight(n) modulo N, reduced. */
  ghost predicate IsMontProduct(r: nat, a: nat, b: nat, n: nat, N: nat)
  {
    r < N && Cong(r * Weight(n), a * b, N)
  }

  /** mpi_montmul: A = A * B / Weight(n) mod N, for any B that fits the n limbs; the result is below N, or below B if
      that is larger. B may be A itself. */
  method MontMul(A: Mpi, B: Mpi, N: Mpi, mm: Limb, T: Mpi)
    requires A != N && A != T && T != B && T != N
    requires 0 < |N.p| <= |A.p| && 0 < |B.p| && 2 * |N.p| < |T.p|
    requires Cong(mm * N.p[0], -1, BASE) && Val(B.p) < Weight(|N.p|)
    modifies A`p, T`p
    ensures |A.p| == |old(A.p)| && A.p[|N.p|..] == old(A.p)[|N.p|..] && |T.p| == |old(T.p)|
    ensures Val(N.p) > 0 && Cong(Val(A.p[..|N.p|]) * Weight(|N.p|), old(Val(A.p[..|N.p|])) * old(Val(B.p)), Val(N.p))
    ensures Val(A.p[..|N.p|]) < if old(Val(B.p)) <= Val(N.p) then Val(N.p) else old(Val(B.p))
    ensures old(Val(B.p)) <= Val(N.p) ==>
      IsMontProduct(Val(A.p[..|N.p|]), old(Val(A.p[..|N.p|])), old(Val(B.p)), |N.p|, Val(N.p))
  {
    hide *;
    T.p := Zeros(|T.p|);
    var n := |N.p|;
    var m := if |B.p| < n then |B.p| else n;
    ghost var a, b, vn := A.p[..n], Val(B.p), Val(N.p);
    ValBound(N.p);
    ModulusPositive(N.p, mm);
    LowLimbsHold(B.p, n, m);
    ghost var u: nat := 0;
    StartAccumulator(T.p, a, b, vn);
    var i := 0;
    while i < n
      invariant 0 <= i <= n && 0 <= u && |T.p| == |old(T.p)| && A.p == old(A.p)
      invariant Accumulated(Val(T.p[i..]), i, Val(a[..i]), b, vn, u)
    {
      ValSnoc(a, i);
      MulNonNeg(Weight(i), A.p[i]);
      var u1 := MontStep(T, i, A.p[i], B, N, mm, n, m, Val(a[..i]), u);
      MulNonNeg(Weight(i), u1);
      u := u + Weight(i) * u1;
      i := i + 1;
    }
    assert a[..n] == a;
    ghost var v := Val(T.p[n..]);
    AccumulatorBound(v, n, Val(a), b, vn, u);
    MontFinish(A, N, T, n, v);
    AccumulatedCong(v, n, Val(a), b, vn, u, Val(A.p[..n]));
    if b <= vn { IsProduct(Val(A.p[..n]), Val(a), b, n, vn); }
  }

  lemma IsProduct(r: nat, a: nat, b: nat, n: nat, N: nat)
    requires r < N && Cong(r * Weight(n), a * b, N)
    ensures IsMontProduct(r, a, b, n, N)
  {}

  lemma LowLimbsHold(b: seq<Limb>, n: nat, m: nat)
    requires Val(b) < Weight(n) && m == if |b| < n then |b| else n
    ensures Val(b[..m]) == Val(b)
  {
    hide *;
    if |b| < n { assert b[..m] == b; } else { ValHighZero(b, n); }
  }

  lemma StartAccumulator(t: seq<Limb>, a: seq<Limb>, b: nat, N: nat)
    requires t == Zeros(|t|)
    ensures Accumulated(Val(t[0..]), 0, Val(a[..0]), b, N, 0)
  {
    ValZero(t);
    assert t[0..] == t;
  }

  /** mpi_montred: A = A / Weight(n) mod N */
  method MontRed(A: Mpi, N: Mpi, mm: Limb, T: Mpi)
    requires A != N && A != T && T != N
    requires 0 < |N.p| <= |A.p| && 2 * |N.p| < |T.p|
    requires Cong(mm * N.p[0], -1, BASE)
    modifies A`p, T`p
    ensures |A.p| == |old(A.p)| && A.p[|N.p|..] == old(A.p)[|N.p|..] && |T.p| == |old(T.p)|
    ensures IsMontProduct(Val(A.p[..|N.p|]), old(Val(A.p[..|N.p|])), 1, |N.p|, Val(N.p))
  {
    hide *;
    var U := new Mpi();
    U.s, U.p := 1, [1];
    ValOne(1);
    ModulusPositive(N.p, mm);
    ValBound(N.p);
    MontMul(A, U, N, mm, T);
  }
}
