/** Machine words and little-endian limb sequences: the word size, the bit operations the
    C code uses on words, and the number a limb sequence stands for. */
module Limbs {
  import opened Arith

  // ----- The word size (bignum.c: ciL, biL, biH) ------------------------------------------

  /** mbedtls_mpi_uint has 32 or 64 bits; everything is proved for both. */
  type LimbBits = x: nat | x == 32 || x == 64 witness 64

  const biL: LimbBits
  const biH: nat := biL / 2

  /** Bytes in a limb */
  const ciL: nat := biL / 8

  lemma LimbBytes()
    ensures ciL * 8 == biL && ciL > 0
  {}

  type Radix = x: nat | x >= 0x1_0000 witness 0x1_0000

  const BASE: Radix := TwoTo(biL)
  const RADIX: Radix := TwoTo(biH)

  function TwoTo(k: nat): (r: Radix)
    requires k >= 16
    ensures r == P2(k)
  {
    P2Mono(16, k);
    Two16();
    P2(k)
  }

  type Limb = x: nat | x < BASE

  /** unsigned char */
  type Byte = x: nat | x < 256

  /** n zero bytes */
  function Nulls(n: nat): (z: seq<Byte>)
    ensures |z| == n && forall k :: 0 <= k < n ==> z[k] == 0
  {
    if n == 0 then [] else Nulls(n - 1) + [0]
  }

  lemma Two16()
    ensures P2(16) == 0x1_0000
  {
    assert P2(4) == 16;
    P2Add(4, 4);
    P2Add(8, 8);
  }

  lemma HalfBits()
    ensures biH + biH == biL && biH >= 16
    ensures RADIX % 2 == 0
  {
    BaseIsP2();
    P2Even(biH);
  }

  lemma P2Even(k: nat)
    requires k > 0
    ensures P2(k) % 2 == 0
  {}

  lemma BaseIsP2()
    ensures BASE == P2(biL) && RADIX == P2(biH)
  {
    assert TwoTo(biL) == P2(biL);
  }

  lemma RadixSquared()
    ensures BASE == RADIX * RADIX
  {
    BaseIsP2();
    P2Add(biH, biH);
  }

  // ----- Bit operations on natural numbers ------------------------------------------------

  function Shr(x: nat, k: nat): nat
  {
    DivNonNeg(x, P2(k));
    x / P2(k)
  }

  /** Left shift of a word: bits pushed past the word are lost. */
  function Shl(x: nat, k: nat): Limb
  {
    x * P2(k) % BASE
  }

  /** Unsigned word arithmetic is modulo BASE. */
  function Wrap(x: int): Limb
  {
    x % BASE
  }

  lemma WrapSmall(x: int)
    requires 0 <= x < BASE
    ensures Wrap(x) == x
  {
    DivModSmall(x, BASE);
  }

  function And(x: nat, y: nat): nat
  {
    if x == 0 || y == 0 then 0 else 2 * And(x / 2, y / 2) + (x % 2) * (y % 2)
  }

  function Or(x: nat, y: nat): nat
    decreases x + y
  {
    if x == 0 then y else if y == 0 then x
    else 2 * Or(x / 2, y / 2) + (if x % 2 == 1 || y % 2 == 1 then 1 else 0)
  }

  /** Bit k of a word */
  ghost predicate HasBit(x: nat, k: nat)
  {
    if k == 0 then x % 2 == 1 else HasBit(x / 2, k - 1)
  }

  lemma {:induction false} HasBitShr(x: nat, k: nat)
    ensures HasBit(x, k) <==> Shr(x, k) % 2 == 1
  {
    if k == 0 {
      P2Zero();
    } else {
      HasBitShr(x / 2, k - 1);
      ShrHalf(x, k - 1);
    }
  }

  lemma {:induction false} NoBits(k: nat)
    ensures !HasBit(0, k)
  {
    if k > 0 { NoBits(k - 1); }
  }

  /** The bitwise operations, bit by bit */
  lemma {:induction false} AndBit(x: nat, y: nat, k: nat)
    ensures HasBit(And(x, y), k) <==> HasBit(x, k) && HasBit(y, k)
  {
    NoBits(k);
    if x != 0 && y != 0 {
      AndLow(x, y);
      if k > 0 { AndBit(x / 2, y / 2, k - 1); }
    }
  }

  lemma AndLow(x: nat, y: nat)
    requires x != 0 && y != 0
    ensures And(x, y) / 2 == And(x / 2, y / 2) && (And(x, y) % 2 == 1 <==> x % 2 == 1 && y % 2 == 1)
  {
    assert (x % 2) * (y % 2) == if x % 2 == 1 && y % 2 == 1 then 1 else 0;
  }

  lemma {:induction false} OrBit(x: nat, y: nat, k: nat)
    ensures HasBit(Or(x, y), k) <==> HasBit(x, k) || HasBit(y, k)
    decreases x + y
  {
    NoBits(k);
    if x != 0 && y != 0 && k > 0 { OrBit(x / 2, y / 2, k - 1); }
  }

  lemma ShrHalf(x: nat, k: nat)
    ensures Shr(x, k + 1) == Shr(x / 2, k)
    ensures Shr(x, k + 1) == Shr(x, k) / 2
  {
    DivDiv(x, 2, P2(k));
    DivDiv(x, P2(k), 2);
  }

  /** or-ing bits into an empty low field is addition */
  lemma {:induction false} OrDisjoint(x: nat, y: nat, k: nat)
    requires x % P2(k) == 0 && y < P2(k)
    ensures Or(x, y) == x + y
  {
    if x != 0 && y != 0 {
      assert k > 0;
      DivDiv(x, 2, P2(k - 1));
      assert x % 2 == 0 && x / 2 % P2(k - 1) == 0;
      OrDisjoint(x / 2, y / 2, k - 1);
    }
  }

  lemma {:induction false} AndPow2(x: nat, k: nat)
    ensures And(x, P2(k)) == Shr(x, k) % 2 * P2(k)
  {
    if x == 0 {
      DivModSmall(0, P2(k));
    } else if k == 0 {
      assert P2(0) == 1;
      assert And(x / 2, 0) == 0;
    } else {
      AndPow2(x / 2, k - 1);
      ShrHalf(x, k - 1);
    }
  }

  lemma {:induction false} AndMask(x: nat, k: nat)
    ensures And(x, P2(k) - 1) == x % P2(k)
  {
    if k > 0 {
      var m := P2(k - 1);
      AndMask(x / 2, k - 1);
      MaskHalves(x, m);
    }
  }

  lemma MaskHalves(x: nat, m: nat)
    requires 0 < m
    ensures (2 * m - 1) / 2 == m - 1 && (2 * m - 1) % 2 == 1
    ensures x % (2 * m) == x % 2 + 2 * (x / 2 % m)
    ensures x == 0 ==> x % (2 * m) == 0
  {
    DivDiv(x, 2, m);
    DivModSmall(0, m);
  }

  lemma AndOne(x: nat)
    ensures And(x, 1) == x % 2
  {
    AndPow2(x, 0);
  }

  // ----- The number of significant bits ---------------------------------------------------

  /** n is the bit length of v. */
  ghost predicate IsBitlen(n: nat, v: nat)
  {
    if v == 0 then n == 0 else n > 0 && P2(n - 1) <= v < P2(n)
  }

  lemma BitlenUnique(m: nat, n: nat, v: nat)
    requires IsBitlen(m, v) && IsBitlen(n, v)
    ensures m == n
  {
    if v > 0 {
      if m < n { P2Mono(m, n - 1); }
      if n < m { P2Mono(n, m - 1); }
    }
  }

  /** The bit length of v; 0 for 0. */
  ghost function BitLen(v: nat): nat
  {
    if v == 0 then 0 else 1 + BitLen(v / 2)
  }

  lemma {:induction false} BitLenProperty(v: nat)
    ensures IsBitlen(BitLen(v), v)
  {
    if v > 0 { BitLenProperty(v / 2); }
  }

  lemma BitLenIs(n: nat, v: nat)
    requires IsBitlen(n, v)
    ensures n == BitLen(v)
  {
    BitLenProperty(v);
    BitlenUnique(n, BitLen(v), v);
  }

  lemma BitLenBounds(v: nat)
    requires v > 0
    ensures BitLen(v) > 0
    ensures P2(BitLen(v) - 1) <= v < P2(BitLen(v))
  {
    BitLenProperty(v);
  }

  lemma BitLenShift(v: nat, k: nat)
    requires v > 0
    ensures v * P2(k) > 0
    ensures BitLen(v * P2(k)) == BitLen(v) + k
  {
    var n := BitLen(v);
    BitLenBounds(v);
    P2Add(n - 1, k);
    P2Add(n, k);
    ShiftedBounds(v, P2(n - 1), P2(n), P2(k));
    BitLenIs(n + k, v * P2(k));
  }

  lemma ShiftedBounds(v: int, lo: int, hi: int, d: int)
    requires 0 < d && 0 < v && lo <= v < hi
    ensures lo * d <= v * d < hi * d
    ensures 0 < v * d
  {}

  // ----- Little-endian limb sequences -----------------------------------------------------

  /** BASE to the n */
  ghost function Weight(n: nat): (r: nat)
    ensures r > 0
  {
    if n == 0 then 1 else (MulLt(BASE, 0, Weight(n - 1)); BASE * Weight(n - 1))
  }

  lemma WeightZero()
    ensures Weight(0) == 1
  {}

  lemma WeightNext(i: nat)
    ensures Weight(i + 1) == Weight(i) * BASE
  {
    hide P2, TwoTo;
  }

  lemma {:induction false} WeightIsP2(n: nat)
    ensures Weight(n) == P2(biL * n)
  {
    hide *;
    if n > 0 {
      var m := biL * (n - 1);
      MulNonNeg(biL, n - 1);
      MulAddDist(biL, n - 1, 1);
      BaseIsP2();
      WeightIsP2(n - 1);
      WeightNext(n - 1);
      P2Add(m, biL);
    } else {
      WeightZero();
      P2Zero();
    }
  }

  lemma {:induction false} WeightAdd(m: nat, n: nat)
    ensures Weight(m + n) == Weight(m) * Weight(n)
  {
    if m > 0 {
      WeightAdd(m - 1, n);
      MulAssoc(BASE, Weight(m - 1), Weight(n));
    }
  }

  lemma WeightMono(m: nat, n: nat)
    requires m <= n
    ensures Weight(m) <= Weight(n)
  {
    WeightAdd(m, n - m);
    MulLe(Weight(m), 1, Weight(n - m));
  }

  /** The number a limb sequence stands for. */
  ghost function Val(p: seq<Limb>): nat
  {
    if |p| == 0 then 0 else (MulNonNeg(BASE, Val(p[1..])); p[0] + BASE * Val(p[1..]))
  }

  lemma {:induction false} ValAppend(a: seq<Limb>, b: seq<Limb>)
    ensures Val(a + b) == Val(a) + Weight(|a|) * Val(b)
  {
    if |a| == 0 {
      assert a + b == b;
    } else {
      var n, va, vb := |a| - 1, Val(a[1..]), Val(b);
      assert (a + b)[1..] == a[1..] + b;
      ValAppend(a[1..], b);
      MulAddDist(BASE, va, Weight(n) * vb);
      MulAssoc(BASE, Weight(n), vb);
    }
  }

  lemma ValSplit(p: seq<Limb>, k: nat)
    requires k <= |p|
    ensures Val(p) == Val(p[..k]) + Weight(k) * Val(p[k..])
  {
    assert p == p[..k] + p[k..];
    ValAppend(p[..k], p[k..]);
  }

  lemma {:induction false} ValBound(p: seq<Limb>)
    ensures Val(p) < Weight(|p|)
  {
    if |p| > 0 {
      var v, b := Val(p[1..]), Weight(|p| - 1);
      ValBound(p[1..]);
      MulLe(BASE, v + 1, b);
      MulAddDist(BASE, v, 1);
    }
  }

  lemma ValEmpty()
    ensures Val([]) == 0
  {}

  lemma ValOne(v: Limb)
    ensures Val([v]) == v
  {
    assert [v][1..] == [];
    assert Val([]) == 0;
  }

  lemma ValHead(p: seq<Limb>, i: nat)
    requires i < |p|
    ensures Val(p[i..]) == p[i] + BASE * Val(p[i + 1..])
  {
    assert p[i..][1..] == p[i + 1..];
  }

  lemma ValSnoc(p: seq<Limb>, k: nat)
    requires k < |p|
    ensures Val(p[..k + 1]) == Val(p[..k]) + Weight(k) * p[k]
  {
    assert p[..k + 1] == p[..k] + [p[k]];
    ValAppend(p[..k], [p[k]]);
    ValOne(p[k]);
  }

  lemma ValTwo(a: Limb, b: Limb)
    ensures Val([a, b]) == a + BASE * b
  {
    assert [a, b] == [a] + [b];
    ValAppend([a], [b]);
    ValOne(a);
    ValOne(b);
    assert Weight(1) == BASE * Weight(0);
  }

  lemma ValThree(a: Limb, b: Limb, c: Limb)
    ensures Val([a, b, c]) == a + BASE * (b + BASE * c)
  {
    assert [a, b, c] == [a] + [b, c];
    ValAppend([a], [b, c]);
    ValOne(a);
    ValTwo(b, c);
    assert Weight(1) == BASE * Weight(0);
  }

  /** Writing one limb changes the value by that limb's weight. */
  lemma ValUpdate(p: seq<Limb>, i: nat, v: Limb)
    requires i < |p|
    ensures Val(p[i := v]) == Val(p) + Weight(i) * v - Weight(i) * p[i]
  {
    hide Weight;
    var q := p[i := v];
    assert q[..i] == p[..i];
    assert q[i..] == [v] + p[i + 1..];
    assert p[i..] == [p[i]] + p[i + 1..];
    ValSplit(p, i);
    ValSplit(q, i);
    var r := BASE * Val(p[i + 1..]);
    MulAddDist(Weight(i), v, r);
    MulAddDist(Weight(i), p[i], r);
  }

  ghost predicate AllZero(p: seq<Limb>)
  {
    forall i :: 0 <= i < |p| ==> p[i] == 0
  }

  lemma ZeroFrom(p: seq<Limb>, k: nat)
    requires k <= |p| && forall j :: k <= j < |p| ==> p[j] == 0
    ensures AllZero(p[k..])
  {}

  lemma {:induction false} ValZero(p: seq<Limb>)
    ensures Val(p) == 0 <==> AllZero(p)
  {
    if |p| > 0 {
      ValZero(p[1..]);
      if Val(p) == 0 {
        MulLe(BASE, 0, Val(p[1..]));
        if Val(p[1..]) > 0 { MulLe(BASE, 1, Val(p[1..])); }
        assert p == [p[0]] + p[1..];
      }
      if AllZero(p) {
        assert AllZero(p[1..]);
      }
    }
  }

  /** Leading zero limbs do not matter. */
  lemma ValTrim(p: seq<Limb>, k: nat)
    requires k <= |p| && AllZero(p[k..])
    ensures Val(p) == Val(p[..k]) < Weight(k)
  {
    ValZero(p[k..]);
    ValSplit(p, k);
    assert Weight(k) * 0 == 0;
    ValBound(p[..k]);
  }

  lemma ValPad(p: seq<Limb>, z: seq<Limb>)
    requires AllZero(z)
    ensures Val(p + z) == Val(p)
  {
    ValAppend(p, z);
    ValZero(z);
  }

  /** A number below Weight(k) leaves every limb from k on at zero. */
  lemma ValHighZero(p: seq<Limb>, k: nat)
    requires k <= |p| && Val(p) < Weight(k)
    ensures AllZero(p[k..]) && Val(p[..k]) == Val(p)
  {
    ValSplit(p, k);
    if Val(p[k..]) > 0 { MulLe(Weight(k), 1, Val(p[k..])); }
    ValZero(p[k..]);
  }

  /** The low limbs are the remainder, the high limbs the quotient, by a power of the base. */
  lemma ValDivMod(p: seq<Limb>, k: nat)
    requires k <= |p|
    ensures Val(p) / Weight(k) == Val(p[k..])
    ensures Val(p) % Weight(k) == Val(p[..k])
  {
    var lo, hi, b := Val(p[..k]), Val(p[k..]), Weight(k);
    ValSplit(p, k);
    ValBound(p[..k]);
    DivModLow(Val(p), b, hi, lo);
  }

  lemma {:induction false} ValInjective(p: seq<Limb>, q: seq<Limb>)
    requires |p| == |q| && Val(p) == Val(q)
    ensures p == q
  {
    if |p| > 0 {
      DivModUnique(Val(p), BASE, Val(p[1..]), p[0]);
      DivModUnique(Val(q), BASE, Val(q[1..]), q[0]);
      ValInjective(p[1..], q[1..]);
      assert p == [p[0]] + p[1..];
      assert q == [q[0]] + q[1..];
    }
  }

  /** The top limb decides the size. */
  lemma ValTop(p: seq<Limb>, k: nat)
    requires k < |p| && AllZero(p[k + 1..])
    ensures Weight(k) * p[k] <= Val(p) < Weight(k) * p[k] + Weight(k)
  {
    var lo := Val(p[..k]);
    ValTrim(p, k + 1);
    ValSnoc(p, k);
    ValBound(p[..k]);
    assert |p[..k]| == k && lo < Weight(k);
  }

  lemma ValEven(p: seq<Limb>)
    requires |p| > 0
    ensures Val(p) % 2 == p[0] % 2
  {
    EvenAbove(p[0], P2(biL - 1), Val(p[1..]));
  }
}
