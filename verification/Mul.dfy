/** The multiply-accumulate kernel (bn_mul.h, mbedtls_mpi_core_mla) and the multiplications
    built on it. */
module Muls {
  import opened Arith
  import opened Limbs
  import opened Mpis
  import opened Shifts
  import opened AddSubs

  /** MBEDTLS_HAVE_UDBL: whether the compiler offers a double-width word. Both settings are proved. */
  const haveUdbl: bool

  // ----- MULADDC_X1_CORE ------------------------------------------------------------------

  lemma ProductRoom(s: nat, b: nat, c: nat, d: nat, base: nat)
    requires s < base && b < base && c < base && d < base
    ensures 0 <= s * b <= s * b + c + d < base * base
  {
    MulNonNeg(s, b);
    MulLe(s, b, base - 1);
    MulLe(base - 1, s, base - 1);
  }

  /** A high word whose number stays below base squared has not overflowed. */
  lemma HighRoom(hi: int, lo: int, total: int, base: nat)
    requires 0 <= lo && hi * base + lo <= total < base * base
    ensures hi < base
  {
    if hi >= base { MulLe(base, base, hi); }
  }

  /** Add y to the two-word number (r1, r0): a wrapping low addition and its carry. */
  method AddLow(r1: Limb, r0: Limb, y: Limb, ghost total: int) returns (s1: Limb, s0: Limb)
    requires r1 * BASE + r0 + y <= total < BASE * BASE
    ensures s1 * BASE + s0 == r1 * BASE + r0 + y
  {
    hide *;
    WrapAdd(r0, y);
    s0 := (r0 + y) % BASE;
    var carry := if s0 < y then 1 else 0;
    HighRoom(r1 + carry, s0, total, BASE);
    s1 := r1 + carry;
  }

  /** The core for compilers with a double-width word. */
  method CoreWide(s: Limb, b: Limb, c: Limb, d: Limb) returns (c': Limb, d': Limb)
    ensures d' + BASE * c' == s * b + c + d
  {
    hide *;
    ghost var total := s * b + c + d;
    ProductRoom(s, b, c, d, BASE);
    var r: nat := s * b;
    var r0: Limb := r % BASE;
    DivNonNeg(r, BASE);
    assert r == r / BASE * BASE + r0;
    HighRoom(r / BASE, r0, total, BASE);
    var r1: Limb := r / BASE;
    r1, r0 := AddLow(r1, r0, c, total);
    r1, r0 := AddLow(r1, r0, d, total);
    c', d' := r1, r0;
  }

  /** A word as two half words. */
  lemma Halves(x: Limb)
    ensures Shr(Shl(x, biH), biH) == x % RADIX < RADIX
    ensures Shr(x, biH) == x / RADIX < RADIX
    ensures Shl(x, biH) == x % RADIX * RADIX < BASE
    ensures x == x / RADIX * RADIX + x % RADIX
  {
    hide *;
    HalfBits();
    BaseIsP2();
    ShlSplit(x, biH);
    ShiftDefinitions(x, biH);
    ShiftDefinitions(Shl(x, biH), biH);
    assert biL - biH == biH;
    DivModUnique(Shl(x, biH), P2(biH), x % P2(biH), 0);
    assert x == P2(biH) * (x / P2(biH)) + x % P2(biH);
  }

  /** Schoolbook multiplication of two half-word pairs, with the cross products split. */
  lemma HalfProducts(s1: int, s0: int, b1: int, b0: int, R: int, xh: int, xl: int, yh: int, yl: int)
    requires s0 * b1 == xh * R + xl && s1 * b0 == yh * R + yl
    ensures (s1 * R + s0) * (b1 * R + b0)
         == (s1 * b1 + xh + yh) * (R * R) + s0 * b0 + xl * R + yl * R
  {}

  lemma HalfProductFits(x: nat, y: nat)
    requires x < RADIX && y < RADIX
    ensures 0 <= x * y < BASE
  {
    RadixSquared();
    ProductRoom(x, y, 0, 0, RADIX);
  }

  /** The core for compilers without one: four half-word products. */
  method CoreHalf(s: Limb, b: Limb, c: Limb, d: Limb) returns (c': Limb, d': Limb)
    ensures d' + BASE * c' == s * b + c + d
  {
    hide *;
    ghost var total := s * b + c + d;
    ProductRoom(s, b, c, d, BASE);
    Halves(b);
    var b0, b1 := Shr(Shl(b, biH), biH), Shr(b, biH);
    Halves(s);
    var s0, s1 := Shr(Shl(s, biH), biH), Shr(s, biH);
    HalfProductFits(s0, b1);
    HalfProductFits(s0, b0);
    HalfProductFits(s1, b0);
    HalfProductFits(s1, b1);
    var rx: Limb, r0: Limb := s0 * b1, s0 * b0;
    var ry: Limb, r1: Limb := s1 * b0, s1 * b1;
    Halves(rx);
    Halves(ry);
    RadixSquared();
    HalfProducts(s1, s0, b1, b0, RADIX, Shr(rx, biH), rx % RADIX, Shr(ry, biH), ry % RADIX);
    HighSum(r1, Shr(rx, biH), Shr(ry, biH), r0 + Shl(rx, biH) + Shl(ry, biH), total);
    r1 := r1 + Shr(rx, biH);
    r1 := r1 + Shr(ry, biH);
    rx, ry := Shl(rx, biH), Shl(ry, biH);
    r1, r0 := AddLow(r1, r0, rx, total);
    r1, r0 := AddLow(r1, r0, ry, total);
    r1, r0 := AddLow(r1, r0, c, total);
    r1, r0 := AddLow(r1, r0, d, total);
    c', d' := r1, r0;
  }

  lemma HighSum(r1: nat, x: nat, y: nat, lo: nat, total: int)
    requires (r1 + x + y) * BASE + lo <= total < BASE * BASE
    ensures r1 + x < BASE && r1 + x + y < BASE
  {
    HighRoom(r1 + x + y, lo, total, BASE);
  }

  // ----- mbedtls_mpi_core_mla -------------------------------------------------------------

  /** After i limbs of d += s * b: the limbs done and the carry, against the initial q. */
  ghost predicate MlaInv(p: seq<Limb>, q: seq<Limb>, off: nat, s: seq<Limb>, b: Limb, i: nat, c: Limb)
  {
    && off + i <= |p| == |q| && i <= |s|
    && p[..off] == q[..off] && p[off + i..] == q[off + i..]
    && Val(p[off..off + i]) + Weight(i) * c == Val(q[off..off + i]) + Val(s[..i]) * b
  }

  lemma MlaStart(q: seq<Limb>, off: nat, s: seq<Limb>, b: Limb)
    requires off <= |q|
    ensures MlaInv(q, q, off, s, b, 0, 0)
  {
    assert q[off..off + 0] == [] && s[..0] == [];
  }

  lemma MlaStep(p: seq<Limb>, q: seq<Limb>, off: nat, s: seq<Limb>, b: Limb, i: nat, c: Limb,
                y: Limb, c': Limb)
    requires MlaInv(p, q, off, s, b, i, c)
    requires off + i < |p| && i < |s|
    requires y + BASE * c' == s[i] * b + c + p[off + i]
    ensures MlaInv(p[off + i := y], q, off, s, b, i + 1, c')
    ensures p[off + i] == q[off + i]
  {
    hide Val, Weight;
    var p' := p[off + i := y];
    assert p[off + i] == p[off + i..][0] == q[off + i..][0];
    assert p'[off + i + 1..] == p[off + i..][1..] == q[off + i + 1..];
    var dp, dq := p[off..off + i], q[off..off + i];
    assert p'[off..off + i + 1] == dp + [y];
    assert q[off..off + i + 1] == dq + [q[off + i]];
    ValAppend(dp, [y]);
    ValAppend(dq, [q[off + i]]);
    ValOne(y);
    ValOne(q[off + i]);
    ValSnoc(s, i);
    WeightNext(i);
    MlaAlgebra(Val(dp), Val(dq), Val(s[..i]), b, Weight(i), c, c', BASE, y, s[i], q[off + i]);
  }

  lemma MlaAlgebra(vp: int, vq: int, vs: int, b: int, w: int, c: int, c': int, base: int, y: int, x: int, d: int)
    requires vp + w * c == vq + vs * b
    requires y + base * c' == x * b + c + d
    ensures (vp + w * y) + (w * base) * c' == (vq + w * d) + (vs + w * x) * b
  {}

  /** MULADDC_X1: one limb, in place. S may be D itself, read at the position written. */
  method MulAddX1(D: Mpi, off: nat, S: Mpi, b: Limb, i: nat, c: Limb,
                  ghost q: seq<Limb>, ghost s: seq<Limb>) returns (c': Limb)
    requires off + i < |D.p| && i < |S.p| && i < |s|
    requires MlaInv(D.p, q, off, s, b, i, c)
    requires S.p[i] == s[i]
    modifies D`p
    ensures MlaInv(D.p, q, off, s, b, i + 1, c')
    ensures D.p[off + i + 1..] == old(D.p)[off + i + 1..] && |D.p| == |old(D.p)|
  {
    hide *;
    var y: Limb;
    if haveUdbl {
      c', y := CoreWide(S.p[i], b, c, D.p[off + i]);
    } else {
      c', y := CoreHalf(S.p[i], b, c, D.p[off + i]);
    }
    MlaStep(D.p, q, off, s, b, i, c, y, c');
    D.p := D.p[off + i := y];
  }

  /** MULADDC_X2, X4 and X8: the one-limb core repeated. */
  method MulAddX2(D: Mpi, off: nat, S: Mpi, b: Limb, i: nat, c: Limb,
                  ghost q: seq<Limb>, ghost s: seq<Limb>) returns (c': Limb)
    requires off + i + 2 <= |D.p| && i + 2 <= |S.p| && i + 2 <= |s|
    requires MlaInv(D.p, q, off, s, b, i, c)
    requires S.p[i..i + 2] == s[i..i + 2] && (S == D ==> off == 0)
    modifies D`p
    ensures MlaInv(D.p, q, off, s, b, i + 2, c')
    ensures D.p[off + i + 2..] == old(D.p)[off + i + 2..] && |D.p| == |old(D.p)|
  {
    hide *;
    ghost var old0 := D.p;
    assert S.p[i] == S.p[i..i + 2][0] == s[i];
    assert S.p[i + 1] == S.p[i..i + 2][1] == s[i + 1];
    c' := MulAddX1(D, off, S, b, i, c, q, s);
    assert S == D ==> S.p[i + 1] == old0[i + 1] by { assert D.p[off + i + 1..][0] == old0[off + i + 1..][0]; }
    ghost var old1 := D.p;
    c' := MulAddX1(D, off, S, b, i + 1, c', q, s);
    assert D.p[off + i + 2..] == old1[off + i + 1..][1..] == old0[off + i + 2..];
  }

  method MulAddX4(D: Mpi, off: nat, S: Mpi, b: Limb, i: nat, c: Limb,
                  ghost q: seq<Limb>, ghost s: seq<Limb>) returns (c': Limb)
    requires off + i + 4 <= |D.p| && i + 4 <= |S.p| && i + 4 <= |s|
    requires MlaInv(D.p, q, off, s, b, i, c)
    requires S.p[i..i + 4] == s[i..i + 4] && (S == D ==> off == 0)
    modifies D`p
    ensures MlaInv(D.p, q, off, s, b, i + 4, c')
    ensures D.p[off + i + 4..] == old(D.p)[off + i + 4..] && |D.p| == |old(D.p)|
  {
    hide *;
    ghost var old0, t := D.p, S.p;
    Pieces(t, s, i, 2, 4);
    c' := MulAddX2(D, off, S, b, i, c, q, s);
    if S == D { SameTail(D.p, t, i, 2, 4); }
    ghost var old1 := D.p;
    c' := MulAddX2(D, off, S, b, i + 2, c', q, s);
    assert D.p[off + i + 4..] == old1[off + i + 2..][2..] == old0[off + i + 4..];
  }

  method MulAddX8(D: Mpi, off: nat, S: Mpi, b: Limb, i: nat, c: Limb,
                  ghost q: seq<Limb>, ghost s: seq<Limb>) returns (c': Limb)
    requires off + i + 8 <= |D.p| && i + 8 <= |S.p| && i + 8 <= |s|
    requires MlaInv(D.p, q, off, s, b, i, c)
    requires S.p[i..i + 8] == s[i..i + 8] && (S == D ==> off == 0)
    modifies D`p
    ensures MlaInv(D.p, q, off, s, b, i + 8, c')
    ensures D.p[off + i + 8..] == old(D.p)[off + i + 8..] && |D.p| == |old(D.p)|
  {
    hide *;
    ghost var old0, t := D.p, S.p;
    Pieces(t, s, i, 4, 8);
    c' := MulAddX4(D, off, S, b, i, c, q, s);
    if S == D { SameTail(D.p, t, i, 4, 8); }
    ghost var old1 := D.p;
    c' := MulAddX4(D, off, S, b, i + 4, c', q, s);
    assert D.p[off + i + 8..] == old1[off + i + 4..][4..] == old0[off + i + 8..];
  }

  lemma Pieces(t: seq<Limb>, s: seq<Limb>, i: nat, h: nat, n: nat)
    requires h <= n && i + n <= |t| && i + n <= |s| && t[i..i + n] == s[i..i + n]
    ensures t[i..i + h] == s[i..i + h] && t[i + h..i + n] == s[i + h..i + n]
  {
    assert t[i..i + h] == t[i..i + n][..h];
    assert t[i + h..i + n] == t[i..i + n][h..];
    assert s[i..i + h] == s[i..i + n][..h];
    assert s[i + h..i + n] == s[i..i + n][h..];
  }

  lemma SameTail(p: seq<Limb>, t: seq<Limb>, i: nat, h: nat, n: nat)
    requires h <= n && i + n <= |p| == |t| && p[i + h..] == t[i + h..]
    ensures p[i + h..i + n] == t[i + h..i + n]
  {
    assert p[i + h..i + n] == p[i + h..][..n - h];
    assert t[i + h..i + n] == t[i + h..][..n - h];
  }

  /** mbedtls_mpi_core_mla: d += s * b on dLen limbs of D from off on, sLen of them against S.
      S may be D itself. The carry out of the top limb is returned. */
  method CoreMla(D: Mpi, off: nat, dLen: nat, S: Mpi, sLen: nat, b: Limb) returns (c: Limb)
    requires sLen <= dLen && off + dLen <= |D.p| && sLen <= |S.p|
    requires S == D ==> off == 0
    modifies D`p
    ensures |D.p| == |old(D.p)|
    ensures D.p[..off] == old(D.p)[..off] && D.p[off + dLen..] == old(D.p)[off + dLen..]
    ensures Val(D.p[off..off + dLen]) + Weight(dLen) * c
         == Val(old(D.p)[off..off + dLen]) + Val(old(S.p)[..sLen]) * b
  {
    hide *;
    ghost var q, t := D.p, S.p;
    ghost var s := S.p[..sLen] + Zeros(dLen - sLen);
    c := 0;
    var i := 0;
    var stepsX8, stepsX1, excess := sLen / 8, sLen % 8, dLen - sLen;
    MlaStart(q, off, s, b);
    while stepsX8 > 0
      invariant i + 8 * stepsX8 + sLen % 8 == sLen && stepsX8 >= 0
      invariant |D.p| == |q| && MlaInv(D.p, q, off, s, b, i, c)
      invariant S != D ==> S.p == t
      invariant D.p[off + i..] == q[off + i..]
    {
      ghost var p := D.p;
      if S == D { SameTail(p, t, i, 0, 8); }
      assert S.p[i..i + 8] == t[i..i + 8] == s[i..i + 8];
      c := MulAddX8(D, off, S, b, i, c, q, s);
      assert D.p[off + i + 8..] == p[off + i..][8..] == q[off + i + 8..];
      stepsX8, i := stepsX8 - 1, i + 8;
    }
    while stepsX1 > 0
      invariant i + stepsX1 == sLen && stepsX1 >= 0
      invariant |D.p| == |q| && MlaInv(D.p, q, off, s, b, i, c)
      invariant S != D ==> S.p == t
      invariant D.p[off + i..] == q[off + i..]
    {
      ghost var p := D.p;
      assert p[off + i] == p[off + i..][0] == q[off + i..][0] == q[off + i];
      assert S.p[i] == t[i] == s[i];
      c := MulAddX1(D, off, S, b, i, c, q, s);
      assert D.p[off + i + 1..] == p[off + i..][1..] == q[off + i + 1..];
      stepsX1, i := stepsX1 - 1, i + 1;
    }
    PadIsZero(t[..sLen], dLen - sLen);
    c := RippleUp(D, off, i, dLen, c, q, s, b);
    MlaEnd(D.p, q, off, t, sLen, dLen, b, c);
  }

  lemma PadIsZero(t: seq<Limb>, n: nat)
    ensures forall k :: |t| <= k < |t| + n ==> (t + Zeros(n))[k] == 0
  {}

  /** The excess loop: only the carry is left to add. */
  method RippleUp(D: Mpi, off: nat, i0: nat, dLen: nat, c0: Limb,
                  ghost q: seq<Limb>, ghost s: seq<Limb>, b: Limb) returns (c: Limb)
    requires off + dLen <= |D.p| && |s| == dLen && i0 <= dLen
    requires forall k :: i0 <= k < dLen ==> s[k] == 0
    requires MlaInv(D.p, q, off, s, b, i0, c0)
    modifies D`p
    ensures |D.p| == |old(D.p)| && MlaInv(D.p, q, off, s, b, dLen, c)
  {
    hide *;
    c := c0;
    var i := i0;
    while i < dLen
      invariant i0 <= i <= dLen && |D.p| == |old(D.p)| && MlaInv(D.p, q, off, s, b, i, c)
    {
      WrapAdd(D.p[off + i], c);
      var y: Limb := (D.p[off + i] + c) % BASE;
      var c' := if y < c then 1 else 0;
      assert s[i] * b == 0;
      MlaStep(D.p, q, off, s, b, i, c, y, c');
      D.p := D.p[off + i := y];
      c := c';
      i := i + 1;
    }
  }

  lemma MlaEnd(p: seq<Limb>, q: seq<Limb>, off: nat, t: seq<Limb>, sLen: nat, dLen: nat, b: Limb, c: Limb)
    requires sLen <= |t| && sLen <= dLen && off + dLen <= |p|
    requires MlaInv(p, q, off, t[..sLen] + Zeros(dLen - sLen), b, dLen, c)
    ensures p[..off] == q[..off] && p[off + dLen..] == q[off + dLen..]
    ensures Val(p[off..off + dLen]) + Weight(dLen) * c
         == Val(q[off..off + dLen]) + Val(t[..sLen]) * b
  {
    hide Val, Weight, Zeros;
    var s := t[..sLen] + Zeros(dLen - sLen);
    assert s[..dLen] == s;
    ValPad(t[..sLen], Zeros(dLen - sLen));
  }

  // ----- mbedtls_mpi_mul_mpi and mbedtls_mpi_mul_int --------------------------------------

  /** Row k of the schoolbook product: no carry can leave the i + 1 limbs it touches. */
  lemma RowFits(p: seq<Limb>, q: seq<Limb>, k: nat, i: nat, a: nat, bk: Limb, c: Limb, rows: nat)
    requires k + i + 1 <= |p| == |q| && a < Weight(i)
    requires Val(q) == a * rows && rows < Weight(k)
    requires p[..k] == q[..k] && p[k + i + 1..] == q[k + i + 1..]
    requires Val(p[k..k + (i + 1)]) + Weight(i + 1) * c == Val(q[k..k + (i + 1)]) + a * bk
    ensures c == 0 && Val(p) == a * (rows + Weight(k) * bk)
  {
    hide *;
    RowSlices(q, k, i + 1);
    RowSlices(p, k, i + 1);
    var w, mid := Weight(k), Val(q[k..k + (i + 1)]);
    assert mid < Weight(i) by {
      // the number so far is below Weight(k + i)
      WeightAdd(k, i);
      MulLt(w, a, Weight(i));
      if a > 0 { MulLt(a, rows, w); } else { assert a * rows == 0; }
      RowBelow(Val(q[..k]), w, mid, Weight(i + 1) , Val(q[k + (i + 1)..]), Weight(i));
    }
    WeightNext(i);
    RowCarry(a, bk, mid, Weight(i), BASE, c, Val(p[k..k + (i + 1)]));
    assert Weight(i + 1) * 0 == 0;
    RowAlgebra(w, mid, a, bk, Val(q[..k]), Weight(i + 1), Val(q[k + (i + 1)..]), rows);
  }

  lemma RowSlices(p: seq<Limb>, k: nat, n: nat)
    requires k + n <= |p|
    ensures Val(p) == Val(p[..k]) + Weight(k) * (Val(p[k..k + n]) + Weight(n) * Val(p[k + n..]))
  {
    hide *;
    ValSplit(p, k);
    ValSplit(p[k..], n);
    assert p[k..][..n] == p[k..k + n] && p[k..][n..] == p[k + n..];
  }

  lemma RowBelow(lo: nat, w: nat, mid: nat, wn: nat, hi: nat, wi: nat)
    requires w > 0 && lo + w * (mid + wn * hi) < w * wi
    ensures mid < wi
  {
    MulNonNeg(wn, hi);
    MulCancelLt(w, mid + wn * hi, wi) by {
      assert w * (mid + wn * hi) < w * wi;
    }
  }

  lemma RowCarry(a: nat, bk: nat, mid: nat, wi: nat, base: nat, c: nat, res: nat)
    requires a < wi && mid < wi && bk < base
    requires res + (wi * base) * c == mid + a * bk
    ensures c == 0
  {
    MulLe(a, bk, base - 1);
    MulLe(base - 1, a, wi);
    assert mid + a * bk < wi * base;
    MulNonNeg(wi, base);
    if c >= 1 { MulLe(wi * base, 1, c); }
  }

  lemma RowAlgebra(w: int, mid: int, a: int, bk: int, lo: int, wn: int, hi: int, rows: int)
    requires lo + w * (mid + wn * hi) == a * rows
    ensures lo + w * ((mid + a * bk) + wn * hi) == a * (rows + w * bk)
  {}

  /** X := 0, then one row for every limb of B. */
  method MulRows(X: Mpi, A: Mpi, B: Mpi, i: nat, j: nat)
    requires X != A && X != B && i <= |A.p| && j <= |B.p|
    requires i + j <= |X.p| && Val(A.p[..i]) < Weight(i)
    modifies X
    ensures Val(X.p) == Val(A.p[..i]) * Val(B.p[..j])
    ensures |X.p| >= |old(X.p)|
  {
    hide *;
    ghost var a := Val(A.p[..i]);
    AbsZero();
    X.LSet(0);
    ghost var len := |X.p|;
    assert B.p[..0] == [];
    ValEmpty();
    var k := 0;
    while k < j
      invariant 0 <= k <= j && |X.p| == len
      invariant Val(X.p) as int == a * Val(B.p[..k])
    {
      ghost var q := X.p;
      var c := CoreMla(X, k, i + 1, A, i, B.p[k]);
      ValBound(B.p[..k]);
      RowFits(X.p, q, k, i, a, B.p[k], c, Val(B.p[..k]));
      ValSnoc(B.p, k);
      k := k + 1;
    }
  }

  lemma SignedProduct(x: Sign, s: Sign, t: Sign, a: nat, b: nat)
    requires a != 0 && b != 0 ==> x == s * t
    ensures Signed(x, a * b) == Signed(s, a) * Signed(t, b)
  {
    if a == 0 || b == 0 { assert a * b == 0; }
  }

  /** mbedtls_mpi_mul_mpi: X = A * B, also when X is A or B or both */
  method MulMpi(X: Mpi, A: Mpi, B: Mpi)
    modifies X
    ensures X.Value() == old(A.Value()) * old(B.Value())
    ensures |X.p| >= |old(X.p)|
  {
    hide Val, Weight, Sig, Signed;
    var A', B' := A, B;
    if X == A { A' := new Mpi(); A'.Copy(A); }
    if X == B { B' := new Mpi(); B'.Copy(B); }
    ghost var a, b := Val(A'.p), Val(B'.p);
    var i := SignificantLimbs(A'.p);
    var j := SignificantLimbs(B'.p);
    SigProperties(A'.p);
    SigProperties(B'.p);
    X.Grow(i + j);
    MulRows(X, A', B', i, j);
    X.s := if i == 0 || j == 0 then 1 else A'.s * B'.s;
    SignedProduct(X.s, A'.s, B'.s, a, b);
  }

  lemma SignedScale(s: Sign, a: nat, b: nat)
    ensures Signed(s, a * b) == Signed(s, a) * b
    ensures Signed(s, 0) == 0
  {}

  /** mbedtls_mpi_mul_int: X = A * b, computed as A + A * (b - 1) */
  method MulInt(X: Mpi, A: Mpi, b: Limb)
    modifies X
    ensures X.Value() == old(A.Value()) * b && Val(X.p) as int == old(Val(A.p)) * b
    ensures |X.p| >= |old(X.p)|
  {
    hide Val, Weight, Sig, Signed;
    ghost var q := A.p;
    var n := SignificantLimbs(A.p);
    SigProperties(A.p);
    SignedScale(A.s, Val(q), b);
    if b == 0 || n == 0 {
      X.LSet(0);
      assert Val(q) * b == 0;
      return;
    }
    X.Grow(n + 1);
    X.Copy(A);
    ghost var p := X.p;
    assert A.p[..n] == q[..n];
    var c := CoreMla(X, 0, |X.p|, A, n, b - 1);
    MulIntFits(X.p, p, q, n, b, c);
  }

  lemma MulIntFits(r: seq<Limb>, p: seq<Limb>, q: seq<Limb>, n: nat, b: Limb, c: Limb)
    requires n <= |q| && Val(q[..n]) == Val(q) == Val(p) < Weight(n)
    requires |r| == |p| >= n + 1 && b > 0
    requires Val(r[0..0 + |p|]) + Weight(|p|) * c == Val(p[0..0 + |p|]) + Val(q[..n]) * (b - 1)
    ensures Val(r) as int == Val(q) * b
  {
    hide *;
    var a := Val(q);
    assert r[0..0 + |p|] == r && p[0..0 + |p|] == p;
    WeightMono(n + 1, |p|);
    WeightNext(n);
    MulIntCarry(a, b, Weight(n), BASE, Weight(|p|), c, Val(r));
  }

  lemma MulIntCarry(a: nat, b: nat, w: nat, base: nat, top: nat, c: nat, r: nat)
    requires a < w && 0 < b < base && w * base <= top
    requires r + top * c == a + a * (b - 1)
    ensures r == a * b
  {
    MulAddDist(a, b, 1);
    MulLe(a, b, base);
    MulLt(base, a, w);
    if c >= 1 { MulLe(top, 1, c); }
    assert top * 0 == 0;
  }
}
