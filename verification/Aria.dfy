/** ARIA: the substitution-permutation network whose decryption is the encryption loop on other keys. */
module Aria {
  import opened Blocks

  // ----- Exclusive or of selected bytes ---------------------------------------------------

  lemma XorLaws(a: bv8, b: bv8, c: bv8, d: bv8)
    ensures XorByte(a, 0) == a && XorByte(0, a) == a && XorByte(a, a) == 0 && XorByte(a, b) == XorByte(b, a)
    ensures XorByte(XorByte(a, b), XorByte(c, d)) == XorByte(XorByte(a, c), XorByte(b, d))
  {}

  /** Exclusive or of seven bytes */
  function X7(a: bv8, b: bv8, c: bv8, d: bv8, e: bv8, f: bv8, g: bv8): bv8
  {
    XorByte(XorByte(XorByte(a, b), XorByte(c, d)), XorByte(XorByte(e, f), g))
  }

  function Bit(m: bv16, k: nat): bool
    requires k < 16
  {
    (m >> (k as bv5)) & 1 == 1
  }

  /** The exclusive or of the bytes below k whose bits are set in the mask */
  ghost function Sum(x: Bytes, m: bv16, k: nat): bv8
    requires |x| == 16 && k <= 16
  {
    if k == 0 then 0 else XorByte(Sum(x, m, k - 1), if Bit(m, k - 1) then x[k - 1] else 0)
  }

  function XorMask(m: bv16, n: bv16): bv16
  {
    m ^ n
  }

  lemma BitXor(m: bv16, n: bv16, k: nat)
    requires k < 16
    ensures Bit(XorMask(m, n), k) <==> Bit(m, k) != Bit(n, k)
  {
    assert ((m ^ n) >> (k as bv5)) & 1 == ((m >> (k as bv5)) & 1) ^ ((n >> (k as bv5)) & 1);
  }

  /** Masks add by exclusive or, like the sums they select. */
  lemma {:induction false} SumXor(x: Bytes, m: bv16, n: bv16, k: nat)
    requires |x| == 16 && k <= 16
    ensures Sum(x, XorMask(m, n), k) == XorByte(Sum(x, m, k), Sum(x, n, k))
  {
    hide XorByte, Bit, XorMask;
    if k == 0 {
      XorLaws(0, 0, 0, 0);
    } else {
      SumXor(x, m, n, k - 1);
      BitXor(m, n, k - 1);
      var v := x[k - 1];
      var a, b := if Bit(m, k - 1) then v else 0, if Bit(n, k - 1) then v else 0;
      XorLaws(v, 0, 0, 0);
      XorLaws(0, 0, 0, 0);
      XorLaws(Sum(x, m, k - 1), Sum(x, n, k - 1), a, b);
    }
  }

  lemma {:induction false} SumOfBit(x: Bytes, m: bv16, j: nat, k: nat)
    requires |x| == 16 && k <= 16 && j < 16
    requires forall i :: 0 <= i < 16 ==> (Bit(m, i) <==> i == j)
    ensures Sum(x, m, k) == if j < k then x[j] else 0
  {
    if k > 0 {
      SumOfBit(x, m, j, k - 1);
      hide XorByte, Bit;
      XorLaws(x[j], 0, 0, 0);
      XorLaws(0, 0, 0, 0);
    }
  }

  function UnitMask(j: nat): bv16
    requires j < 16
  {
    1 << (j as bv5)
  }

  lemma UnitBits(j: nat, i: nat)
    requires j < 16 && i < 16
    ensures Bit(UnitMask(j), i) <==> i == j
  {
    assert ((1 as bv16 << (j as bv5)) >> (i as bv5)) & 1 == 1 <==> (i as bv5) == (j as bv5);
  }

  lemma SumOfUnit(x: Bytes, j: nat)
    requires |x| == 16 && j < 16
    ensures Sum(x, UnitMask(j), 16) == x[j]
  {
    hide Bit, UnitMask;
    forall i | 0 <= i < 16 ensures Bit(UnitMask(j), i) <==> i == j { UnitBits(j, i); }
    SumOfBit(x, UnitMask(j), j, 16);
  }

  function X7Mask(a: bv16, b: bv16, c: bv16, d: bv16, e: bv16, f: bv16, g: bv16): bv16
  {
    XorMask(XorMask(XorMask(a, b), XorMask(c, d)), XorMask(XorMask(e, f), g))
  }

  /** Seven sums make one. */
  lemma SevenSums(x: Bytes, a: bv16, b: bv16, c: bv16, d: bv16, e: bv16, f: bv16, g: bv16)
    requires |x| == 16
    ensures X7(Sum(x, a, 16), Sum(x, b, 16), Sum(x, c, 16), Sum(x, d, 16), Sum(x, e, 16), Sum(x, f, 16), Sum(x, g, 16))
         == Sum(x, X7Mask(a, b, c, d, e, f, g), 16)
  {
    hide XorByte, XorMask, Sum;
    SumXor(x, a, b, 16);
    SumXor(x, c, d, 16);
    SumXor(x, XorMask(a, b), XorMask(c, d), 16);
    SumXor(x, e, f, 16);
    SumXor(x, XorMask(e, f), g, 16);
    SumXor(x, XorMask(XorMask(a, b), XorMask(c, d)), XorMask(XorMask(e, f), g), 16);
  }

  // ----- The diffusion layer on bytes -----------------------------------------------------

  /** The involution A, row by row (section 2.4.3 of RFC 5794) */
  function Diffuse(x: Bytes): (r: Bytes)
    requires |x| == 16
    ensures |r| == 16
  {
    [X7(x[3], x[4], x[6], x[8], x[9], x[13], x[14]), X7(x[2], x[5], x[7], x[8], x[9], x[12], x[15]),
     X7(x[1], x[4], x[6], x[10], x[11], x[12], x[15]), X7(x[0], x[5], x[7], x[10], x[11], x[13], x[14]),
     X7(x[0], x[2], x[5], x[8], x[11], x[14], x[15]), X7(x[1], x[3], x[4], x[9], x[10], x[14], x[15]),
     X7(x[0], x[2], x[7], x[9], x[10], x[12], x[13]), X7(x[1], x[3], x[6], x[8], x[11], x[12], x[13]),
     X7(x[0], x[1], x[4], x[7], x[10], x[13], x[15]), X7(x[0], x[1], x[5], x[6], x[11], x[12], x[14]),
     X7(x[2], x[3], x[5], x[6], x[8], x[13], x[15]), X7(x[2], x[3], x[4], x[7], x[9], x[12], x[14]),
     X7(x[1], x[2], x[6], x[7], x[9], x[11], x[12]), X7(x[0], x[3], x[6], x[7], x[8], x[10], x[13]),
     X7(x[0], x[3], x[4], x[5], x[9], x[11], x[14]), X7(x[1], x[2], x[4], x[5], x[8], x[10], x[15])]
  }

  /** Row i of A as a mask: bit k says that byte k enters byte i. */
  function Row(i: nat): bv16
    requires i < 16
  {
    if i < 8 then
      if i < 4 then if i == 0 then 0x6358 else if i == 1 then 0x93a4 else if i == 2 then 0x9c52 else 0x6ca1
      else if i == 4 then 0xc925 else if i == 5 then 0xc61a else if i == 6 then 0x3685 else 0x394a
    else
      if i < 12 then if i == 8 then 0xa493 else if i == 9 then 0x5863 else if i == 10 then 0xa16c else 0x529c
      else if i == 12 then 0x1ac6 else if i == 13 then 0x25c9 else if i == 14 then 0x4a39 else 0x8536
  }

  /** A row of the definition is the sum over its mask. */
  lemma RowSum(x: Bytes, a: nat, b: nat, c: nat, d: nat, e: nat, f: nat, g: nat, m: bv16)
    requires |x| == 16 && a < 16 && b < 16 && c < 16 && d < 16 && e < 16 && f < 16 && g < 16
    requires X7Mask(UnitMask(a), UnitMask(b), UnitMask(c), UnitMask(d), UnitMask(e), UnitMask(f), UnitMask(g)) == m
    ensures X7(x[a], x[b], x[c], x[d], x[e], x[f], x[g]) == Sum(x, m, 16)
  {
    hide *;
    SevenSums(x, UnitMask(a), UnitMask(b), UnitMask(c), UnitMask(d), UnitMask(e), UnitMask(f), UnitMask(g));
    SumOfUnit(x, a);
    SumOfUnit(x, b);
    SumOfUnit(x, c);
    SumOfUnit(x, d);
    SumOfUnit(x, e);
    SumOfUnit(x, f);
    SumOfUnit(x, g);
  }

  /** Every byte of Diffuse(x) is the sum over its row. */
  lemma DiffuseSums(x: Bytes)
    requires |x| == 16
    ensures forall i :: 0 <= i < 16 ==> Diffuse(x)[i] == Sum(x, Row(i), 16)
  {
    hide Sum, X7;
    RowSum(x, 3, 4, 6, 8, 9, 13, 14, Row(0));
    RowSum(x, 2, 5, 7, 8, 9, 12, 15, Row(1));
    RowSum(x, 1, 4, 6, 10, 11, 12, 15, Row(2));
    RowSum(x, 0, 5, 7, 10, 11, 13, 14, Row(3));
    RowSum(x, 0, 2, 5, 8, 11, 14, 15, Row(4));
    RowSum(x, 1, 3, 4, 9, 10, 14, 15, Row(5));
    RowSum(x, 0, 2, 7, 9, 10, 12, 13, Row(6));
    RowSum(x, 1, 3, 6, 8, 11, 12, 13, Row(7));
    RowSum(x, 0, 1, 4, 7, 10, 13, 15, Row(8));
    RowSum(x, 0, 1, 5, 6, 11, 12, 14, Row(9));
    RowSum(x, 2, 3, 5, 6, 8, 13, 15, Row(10));
    RowSum(x, 2, 3, 4, 7, 9, 12, 14, Row(11));
    RowSum(x, 1, 2, 6, 7, 9, 11, 12, Row(12));
    RowSum(x, 0, 3, 6, 7, 8, 10, 13, Row(13));
    RowSum(x, 0, 3, 4, 5, 9, 11, 14, Row(14));
    RowSum(x, 1, 2, 4, 5, 8, 10, 15, Row(15));
  }

  /** Row i of the square of the matrix. */
  lemma RowTwice(x: Bytes, y: Bytes, a: nat, b: nat, c: nat, d: nat, e: nat, f: nat, g: nat, i: nat)
    requires |x| == 16 && |y| == 16 && i < 16 && forall k :: 0 <= k < 16 ==> y[k] == Sum(x, Row(k), 16)
    requires a < 16 && b < 16 && c < 16 && d < 16 && e < 16 && f < 16 && g < 16
    requires X7Mask(Row(a), Row(b), Row(c), Row(d), Row(e), Row(f), Row(g)) == UnitMask(i)
    ensures X7(y[a], y[b], y[c], y[d], y[e], y[f], y[g]) == x[i]
  {
    hide *;
    SevenSums(x, Row(a), Row(b), Row(c), Row(d), Row(e), Row(f), Row(g));
    SumOfUnit(x, i);
  }

  lemma FirstWordTwice(x: Bytes, y: Bytes)
    requires |x| == 16 && |y| == 16 && forall k :: 0 <= k < 16 ==> y[k] == Sum(x, Row(k), 16)
    ensures forall i :: 0 <= i < 4 ==> Diffuse(y)[i] == x[i]
  {
    hide Sum, X7;
    RowTwice(x, y, 3, 4, 6, 8, 9, 13, 14, 0);
    RowTwice(x, y, 2, 5, 7, 8, 9, 12, 15, 1);
    RowTwice(x, y, 1, 4, 6, 10, 11, 12, 15, 2);
    RowTwice(x, y, 0, 5, 7, 10, 11, 13, 14, 3);
  }

  lemma SecondWordTwice(x: Bytes, y: Bytes)
    requires |x| == 16 && |y| == 16 && forall k :: 0 <= k < 16 ==> y[k] == Sum(x, Row(k), 16)
    ensures forall i :: 4 <= i < 8 ==> Diffuse(y)[i] == x[i]
  {
    hide Sum, X7;
    RowTwice(x, y, 0, 2, 5, 8, 11, 14, 15, 4);
    RowTwice(x, y, 1, 3, 4, 9, 10, 14, 15, 5);
    RowTwice(x, y, 0, 2, 7, 9, 10, 12, 13, 6);
    RowTwice(x, y, 1, 3, 6, 8, 11, 12, 13, 7);
  }

  lemma ThirdWordTwice(x: Bytes, y: Bytes)
    requires |x| == 16 && |y| == 16 && forall k :: 0 <= k < 16 ==> y[k] == Sum(x, Row(k), 16)
    ensures forall i :: 8 <= i < 12 ==> Diffuse(y)[i] == x[i]
  {
    hide Sum, X7;
    RowTwice(x, y, 0, 1, 4, 7, 10, 13, 15, 8);
    RowTwice(x, y, 0, 1, 5, 6, 11, 12, 14, 9);
    RowTwice(x, y, 2, 3, 5, 6, 8, 13, 15, 10);
    RowTwice(x, y, 2, 3, 4, 7, 9, 12, 14, 11);
  }

  lemma FourthWordTwice(x: Bytes, y: Bytes)
    requires |x| == 16 && |y| == 16 && forall k :: 0 <= k < 16 ==> y[k] == Sum(x, Row(k), 16)
    ensures forall i :: 12 <= i < 16 ==> Diffuse(y)[i] == x[i]
  {
    hide Sum, X7;
    RowTwice(x, y, 1, 2, 6, 7, 9, 11, 12, 12);
    RowTwice(x, y, 0, 3, 6, 7, 8, 10, 13, 13);
    RowTwice(x, y, 0, 3, 4, 5, 9, 11, 14, 14);
    RowTwice(x, y, 1, 2, 4, 5, 8, 10, 15, 15);
  }

  /** A is an involution. */
  lemma DiffuseTwice(x: Bytes)
    requires |x| == 16
    ensures Diffuse(Diffuse(x)) == x
  {
    hide *;
    DiffuseSums(x);
    FirstWordTwice(x, Diffuse(x));
    SecondWordTwice(x, Diffuse(x));
    ThirdWordTwice(x, Diffuse(x));
    FourthWordTwice(x, Diffuse(x));
  }

  lemma {:induction false} SumLinear(x: Bytes, z: Bytes, m: bv16, k: nat)
    requires |x| == 16 && |z| == 16 && k <= 16
    ensures Sum(Xor(x, z), m, k) == XorByte(Sum(x, m, k), Sum(z, m, k))
  {
    hide XorByte, Bit;
    if k == 0 {
      XorLaws(0, 0, 0, 0);
    } else {
      SumLinear(x, z, m, k - 1);
      XorLaws(0, 0, 0, 0);
      var on := Bit(m, k - 1);
      XorLaws(Sum(x, m, k - 1), Sum(z, m, k - 1), if on then x[k - 1] else 0, if on then z[k - 1] else 0);
    }
  }

  /** A respects exclusive or. */
  lemma DiffuseLinear(x: Bytes, z: Bytes)
    requires |x| == 16 && |z| == 16
    ensures Diffuse(Xor(x, z)) == Xor(Diffuse(x), Diffuse(z))
  {
    hide *;
    DiffuseSums(x);
    DiffuseSums(z);
    DiffuseSums(Xor(x, z));
    forall i | 0 <= i < 16 ensures Diffuse(Xor(x, z))[i] == Xor(Diffuse(x), Diffuse(z))[i] {
      SumLinear(x, z, Row(i), 16);
    }
  }

  // ----- Words ----------------------------------------------------------------------------

  /** MBEDTLS_BYTE_0 .. MBEDTLS_BYTE_3 */
  function Byte0(w: bv32): bv8 { (w & 0xff) as bv8 }

  function Byte1(w: bv32): bv8 { ((w >> 8) & 0xff) as bv8 }

  function Byte2(w: bv32): bv8 { ((w >> 16) & 0xff) as bv8 }

  function Byte3(w: bv32): bv8 { ((w >> 24) & 0xff) as bv8 }

  /** Four bytes as a word, the first one least significant */
  function Word(b0: bv8, b1: bv8, b2: bv8, b3: bv8): bv32
  {
    (b0 as bv32) ^ (b1 as bv32 << 8) ^ (b2 as bv32 << 16) ^ (b3 as bv32 << 24)
  }

  lemma BytesOfWord(b0: bv8, b1: bv8, b2: bv8, b3: bv8)
    ensures var w := Word(b0, b1, b2, b3);
      Byte0(w) == b0 && Byte1(w) == b1 && Byte2(w) == b2 && Byte3(w) == b3
  {}

  lemma WordOfBytes(w: bv32)
    ensures Word(Byte0(w), Byte1(w), Byte2(w), Byte3(w)) == w
  {}

  /** ARIA_P1, ARIA_P2 and ARIA_P3 */
  function P1(x: bv32): bv32 { ((x >> 8) & 0x00FF00FF) ^ ((x & 0x00FF00FF) << 8) }

  function P2(x: bv32): bv32 { (x >> 16) ^ (x << 16) }

  function XorWord(x: bv32, y: bv32): bv32 { x ^ y }

  lemma P1Bytes(x: bv32)
    ensures Byte0(P1(x)) == Byte1(x) && Byte1(P1(x)) == Byte0(x)
    ensures Byte2(P1(x)) == Byte3(x) && Byte3(P1(x)) == Byte2(x)
  {}

  lemma P2Bytes(x: bv32)
    ensures Byte0(P2(x)) == Byte2(x) && Byte1(P2(x)) == Byte3(x)
    ensures Byte2(P2(x)) == Byte0(x) && Byte3(P2(x)) == Byte1(x)
  {}

  lemma XorByte0(x: bv32, y: bv32)
    ensures Byte0(XorWord(x, y)) == XorByte(Byte0(x), Byte0(y))
  {}

  lemma XorByte1(x: bv32, y: bv32)
    ensures Byte1(XorWord(x, y)) == XorByte(Byte1(x), Byte1(y))
  {}

  lemma XorByte2(x: bv32, y: bv32)
    ensures Byte2(XorWord(x, y)) == XorByte(Byte2(x), Byte2(y))
  {}

  lemma XorByte3(x: bv32, y: bv32)
    ensures Byte3(XorWord(x, y)) == XorByte(Byte3(x), Byte3(y))
  {}

  /** Masks of the four bytes of a word: which state bytes have been added up in each */
  datatype Masks = Masks(m0: bv16, m1: bv16, m2: bv16, m3: bv16)

  ghost predicate Holds(w: bv32, x: Bytes, m: Masks)
    requires |x| == 16
  {
    && Byte0(w) == Sum(x, m.m0, 16) && Byte1(w) == Sum(x, m.m1, 16)
    && Byte2(w) == Sum(x, m.m2, 16) && Byte3(w) == Sum(x, m.m3, 16)
  }

  lemma HoldsP1(w: bv32, x: Bytes, m: Masks) returns (r: Masks)
    requires |x| == 16 && Holds(w, x, m)
    ensures r == Masks(m.m1, m.m0, m.m3, m.m2) && Holds(P1(w), x, r)
  {
    r := Masks(m.m1, m.m0, m.m3, m.m2);
    hide P1, Byte0, Byte1, Byte2, Byte3, Sum;
    P1Bytes(w);
  }

  lemma HoldsP2(w: bv32, x: Bytes, m: Masks) returns (r: Masks)
    requires |x| == 16 && Holds(w, x, m)
    ensures r == Masks(m.m2, m.m3, m.m0, m.m1) && Holds(P2(w), x, r)
  {
    r := Masks(m.m2, m.m3, m.m0, m.m1);
    hide P2, Byte0, Byte1, Byte2, Byte3, Sum;
    P2Bytes(w);
  }

  lemma HoldsXor(w: bv32, v: bv32, x: Bytes, m: Masks, n: Masks) returns (r: Masks)
    requires |x| == 16 && Holds(w, x, m) && Holds(v, x, n)
    ensures r == Masks(XorMask(m.m0, n.m0), XorMask(m.m1, n.m1), XorMask(m.m2, n.m2), XorMask(m.m3, n.m3))
    ensures Holds(XorWord(w, v), x, r)
  {
    r := Masks(XorMask(m.m0, n.m0), XorMask(m.m1, n.m1), XorMask(m.m2, n.m2), XorMask(m.m3, n.m3));
    hide Byte0, Byte1, Byte2, Byte3, Sum, XorWord, XorMask, XorByte;
    XorByte0(w, v);
    XorByte1(w, v);
    XorByte2(w, v);
    XorByte3(w, v);
    SumXor(x, m.m0, n.m0, 16);
    SumXor(x, m.m1, n.m1, 16);
    SumXor(x, m.m2, n.m2, 16);
    SumXor(x, m.m3, n.m3, 16);
  }

  /** The 16 state bytes of four words. */
  function StateBytes(a: bv32, b: bv32, c: bv32, d: bv32): (x: Bytes)
    ensures |x| == 16
  {
    [Byte0(a), Byte1(a), Byte2(a), Byte3(a), Byte0(b), Byte1(b), Byte2(b), Byte3(b),
     Byte0(c), Byte1(c), Byte2(c), Byte3(c), Byte0(d), Byte1(d), Byte2(d), Byte3(d)]
  }

  lemma StateAt(a: bv32, b: bv32, c: bv32, d: bv32)
    ensures var x := StateBytes(a, b, c, d);
      && x[0] == Byte0(a) && x[1] == Byte1(a) && x[2] == Byte2(a) && x[3] == Byte3(a)
      && x[4] == Byte0(b) && x[5] == Byte1(b) && x[6] == Byte2(b) && x[7] == Byte3(b)
      && x[8] == Byte0(c) && x[9] == Byte1(c) && x[10] == Byte2(c) && x[11] == Byte3(c)
      && x[12] == Byte0(d) && x[13] == Byte1(d) && x[14] == Byte2(d) && x[15] == Byte3(d)
  {
    hide *;
    FirstWords(a, b, c, d);
    LastWords(a, b, c, d);
  }

  lemma FirstWords(a: bv32, b: bv32, c: bv32, d: bv32)
    ensures var x := StateBytes(a, b, c, d);
      && x[0] == Byte0(a) && x[1] == Byte1(a) && x[2] == Byte2(a) && x[3] == Byte3(a)
      && x[4] == Byte0(b) && x[5] == Byte1(b) && x[6] == Byte2(b) && x[7] == Byte3(b)
  {
    hide Byte0, Byte1, Byte2, Byte3;
  }

  lemma LastWords(a: bv32, b: bv32, c: bv32, d: bv32)
    ensures var x := StateBytes(a, b, c, d);
      && x[8] == Byte0(c) && x[9] == Byte1(c) && x[10] == Byte2(c) && x[11] == Byte3(c)
      && x[12] == Byte0(d) && x[13] == Byte1(d) && x[14] == Byte2(d) && x[15] == Byte3(d)
  {
    hide Byte0, Byte1, Byte2, Byte3;
  }

  lemma StartMasks(a: bv32, b: bv32, c: bv32, d: bv32)
    ensures var x := StateBytes(a, b, c, d);
      && Holds(a, x, Masks(0x0001, 0x0002, 0x0004, 0x0008)) && Holds(b, x, Masks(0x0010, 0x0020, 0x0040, 0x0080))
      && Holds(c, x, Masks(0x0100, 0x0200, 0x0400, 0x0800)) && Holds(d, x, Masks(0x1000, 0x2000, 0x4000, 0x8000))
  {
    hide Sum, Byte0, Byte1, Byte2, Byte3, UnitMask;
    var x := StateBytes(a, b, c, d);
    UnitMasks();
    SumOfUnit(x, 0); SumOfUnit(x, 1); SumOfUnit(x, 2); SumOfUnit(x, 3);
    SumOfUnit(x, 4); SumOfUnit(x, 5); SumOfUnit(x, 6); SumOfUnit(x, 7);
    SumOfUnit(x, 8); SumOfUnit(x, 9); SumOfUnit(x, 10); SumOfUnit(x, 11);
    SumOfUnit(x, 12); SumOfUnit(x, 13); SumOfUnit(x, 14); SumOfUnit(x, 15);
  }

  lemma UnitMasks()
    ensures UnitMask(0) == 0x0001 && UnitMask(1) == 0x0002 && UnitMask(2) == 0x0004 && UnitMask(3) == 0x0008
    ensures UnitMask(4) == 0x0010 && UnitMask(5) == 0x0020 && UnitMask(6) == 0x0040 && UnitMask(7) == 0x0080
    ensures UnitMask(8) == 0x0100 && UnitMask(9) == 0x0200 && UnitMask(10) == 0x0400 && UnitMask(11) == 0x0800
    ensures UnitMask(12) == 0x1000 && UnitMask(13) == 0x2000 && UnitMask(14) == 0x4000 && UnitMask(15) == 0x8000
  {}

  /** aria_a, with what each word holds tracked beside it */
  method AriaA(a0: bv32, b0: bv32, c0: bv32, d0: bv32) returns (a: bv32, b: bv32, c: bv32, d: bv32)
    ensures StateBytes(a, b, c, d) == Diffuse(StateBytes(a0, b0, c0, d0))
  {
    hide Sum, Byte0, Byte1, Byte2, Byte3, P1, P2, XorWord, Holds, Diffuse, StateBytes;
    ghost var x := StateBytes(a0, b0, c0, d0);
    StartMasks(a0, b0, c0, d0);
    a, b, c, d := a0, b0, c0, d0;
    ghost var ma, mb := Masks(0x0001, 0x0002, 0x0004, 0x0008), Masks(0x0010, 0x0020, 0x0040, 0x0080);
    ghost var mc, md := Masks(0x0100, 0x0200, 0x0400, 0x0800), Masks(0x1000, 0x2000, 0x4000, 0x8000);
    ghost var mta, mtb, mtc, m := mb, mb, mb, mb;
    var ta := b;
    b, mb := a, ma;
    ma := HoldsP2(ta, x, mta);
    a := P2(ta);
    mtb := HoldsP2(d, x, md);
    var tb := P2(d);
    md := HoldsP1(c, x, mc);
    d := P1(c);
    mc := HoldsP1(tb, x, mtb);
    c := P1(tb);
    mta := HoldsXor(ta, d, x, mta, md);
    ta := XorWord(ta, d);
    mtc := HoldsP2(b, x, mb);
    var tc := P2(b);
    m := HoldsP1(ta, x, mta);
    m := HoldsXor(P1(ta), tc, x, m, mtc);
    mta := HoldsXor(XorWord(P1(ta), tc), c, x, m, mc);
    ta := XorWord(XorWord(P1(ta), tc), c);
    m := HoldsP2(d, x, md);
    mtb := HoldsXor(tb, P2(d), x, mtb, m);
    tb := XorWord(tb, P2(d));
    m := HoldsP1(a, x, ma);
    mtc := HoldsXor(tc, P1(a), x, mtc, m);
    tc := XorWord(tc, P1(a));
    m := HoldsXor(ta, tb, x, mta, mtb);
    mb := HoldsXor(b, XorWord(ta, tb), x, mb, m);
    b := XorWord(b, XorWord(ta, tb));
    m := HoldsP2(tb, x, mtb);
    mtb := HoldsXor(P2(tb), ta, x, m, mta);
    tb := XorWord(P2(tb), ta);
    m := HoldsP1(tb, x, mtb);
    ma := HoldsXor(a, P1(tb), x, ma, m);
    a := XorWord(a, P1(tb));
    mta := HoldsP2(ta, x, mta);
    ta := P2(ta);
    m := HoldsP1(ta, x, mta);
    m := HoldsXor(P1(ta), tc, x, m, mtc);
    md := HoldsXor(d, XorWord(P1(ta), tc), x, md, m);
    d := XorWord(d, XorWord(P1(ta), tc));
    mtc := HoldsP2(tc, x, mtc);
    tc := P2(tc);
    m := HoldsP1(tc, x, mtc);
    m := HoldsXor(P1(tc), ta, x, m, mta);
    mc := HoldsXor(c, XorWord(P1(tc), ta), x, mc, m);
    c := XorWord(c, XorWord(P1(tc), ta));
    RowsReached(x, a, b, c, d, ma, mb, mc, md);
  }

  /** Words that hold the rows of A hold the image of the state. */
  lemma RowsReached(x: Bytes, a: bv32, b: bv32, c: bv32, d: bv32, ma: Masks, mb: Masks, mc: Masks, md: Masks)
    requires |x| == 16 && Holds(a, x, ma) && Holds(b, x, mb) && Holds(c, x, mc) && Holds(d, x, md)
    requires ma == Masks(Row(0), Row(1), Row(2), Row(3)) && mb == Masks(Row(4), Row(5), Row(6), Row(7))
    requires mc == Masks(Row(8), Row(9), Row(10), Row(11)) && md == Masks(Row(12), Row(13), Row(14), Row(15))
    ensures StateBytes(a, b, c, d) == Diffuse(x)
  {
    hide *;
    DiffuseSums(x);
    StateAt(a, b, c, d);
    HoldsBytes(a, x, ma);
    HoldsBytes(b, x, mb);
    HoldsBytes(c, x, mc);
    HoldsBytes(d, x, md);
    var l, r := StateBytes(a, b, c, d), Diffuse(x);
    assert l[0] == r[0] && l[1] == r[1] && l[2] == r[2] && l[3] == r[3];
    assert l[4] == r[4] && l[5] == r[5] && l[6] == r[6] && l[7] == r[7];
    assert l[8] == r[8] && l[9] == r[9] && l[10] == r[10] && l[11] == r[11];
    assert l[12] == r[12] && l[13] == r[13] && l[14] == r[14] && l[15] == r[15];
    assert l == r;
  }

  lemma HoldsBytes(w: bv32, x: Bytes, m: Masks)
    requires |x| == 16 && Holds(w, x, m)
    ensures Byte0(w) == Sum(x, m.m0, 16) && Byte1(w) == Sum(x, m.m1, 16)
    ensures Byte2(w) == Sum(x, m.m2, 16) && Byte3(w) == Sum(x, m.m3, 16)
  {}

  // ----- The substitution layers ----------------------------------------------------------

  /** aria_sb1, aria_sb2 and their inverse tables */
  datatype SBoxes = SBoxes(sb1: bv8 -> bv8, sb2: bv8 -> bv8, is1: bv8 -> bv8, is2: bv8 -> bv8)

  ghost predicate InversePairs(sb: SBoxes)
  {
    forall v: bv8 :: sb.is1(sb.sb1(v)) == v && sb.sb1(sb.is1(v)) == v && sb.is2(sb.sb2(v)) == v
      && sb.sb2(sb.is2(v)) == v
  }

  /** Four tables applied in turn to the bytes of a state */
  function Quad(sa: bv8 -> bv8, sb: bv8 -> bv8, sc: bv8 -> bv8, sd: bv8 -> bv8, x: Bytes): (r: Bytes)
    requires |x| == 16
    ensures |r| == 16
  {
    [sa(x[0]), sb(x[1]), sc(x[2]), sd(x[3]), sa(x[4]), sb(x[5]), sc(x[6]), sd(x[7]),
     sa(x[8]), sb(x[9]), sc(x[10]), sd(x[11]), sa(x[12]), sb(x[13]), sc(x[14]), sd(x[15])]
  }

  /** SL1 in the even steps, SL2 in the odd ones */
  function Subst(sb: SBoxes, odd: bool, x: Bytes): (r: Bytes)
    requires |x| == 16
    ensures |r| == 16
  {
    if odd then Quad(sb.is1, sb.is2, sb.sb1, sb.sb2, x) else Quad(sb.sb1, sb.sb2, sb.is1, sb.is2, x)
  }

  /** The box at each position (section 2.4.2 of RFC 5794): the four in turn, the odd layer starting with the third */
  lemma SubstAt(sb: SBoxes, odd: bool, x: Bytes, p: nat)
    requires |x| == 16 && p < 16
    ensures var boxes := [sb.sb1, sb.sb2, sb.is1, sb.is2];
      Subst(sb, odd, x)[p] == boxes[(if odd then p + 2 else p) % 4](x[p])
  {
    hide Quad;
    if odd {
      QuadBox(sb.is1, sb.is2, sb.sb1, sb.sb2, x, p);
    } else {
      QuadBox(sb.sb1, sb.sb2, sb.is1, sb.is2, x, p);
    }
  }

  lemma QuadBox(sa: bv8 -> bv8, sb: bv8 -> bv8, sc: bv8 -> bv8, sd: bv8 -> bv8, x: Bytes, p: nat)
    requires |x| == 16 && p < 16
    ensures Quad(sa, sb, sc, sd, x)[p] == [sa, sb, sc, sd][p % 4](x[p])
  {
    QuadAt(sa, sb, sc, sd, x);
    hide Quad;
    var q, i := Quad(sa, sb, sc, sd, x), p / 4;
    assert q[4 * i] == sa(x[4 * i]) && q[4 * i + 1] == sb(x[4 * i + 1]);
    assert q[4 * i + 2] == sc(x[4 * i + 2]) && q[4 * i + 3] == sd(x[4 * i + 3]);
    assert p == 4 * i || p == 4 * i + 1 || p == 4 * i + 2 || p == 4 * i + 3;
  }

  ghost predicate Undoes(t: bv8 -> bv8, s: bv8 -> bv8)
  {
    forall v: bv8 :: t(s(v)) == v
  }

  lemma QuadUndo(sa: bv8 -> bv8, sb: bv8 -> bv8, sc: bv8 -> bv8, sd: bv8 -> bv8,
                 ta: bv8 -> bv8, tb: bv8 -> bv8, tc: bv8 -> bv8, td: bv8 -> bv8, x: Bytes)
    requires |x| == 16 && Undoes(ta, sa) && Undoes(tb, sb) && Undoes(tc, sc) && Undoes(td, sd)
    ensures Quad(ta, tb, tc, td, Quad(sa, sb, sc, sd, x)) == x
  {
    hide Quad, Undoes;
    var y := Quad(sa, sb, sc, sd, x);
    QuadAt(sa, sb, sc, sd, x);
    QuadAt(ta, tb, tc, td, y);
    var q := Quad(ta, tb, tc, td, y);
    forall i | 0 <= i < 4
      ensures q[4 * i] == x[4 * i] && q[4 * i + 1] == x[4 * i + 1] && q[4 * i + 2] == x[4 * i + 2]
      ensures q[4 * i + 3] == x[4 * i + 3]
    {
      UndoAt(ta, sa, x[4 * i]);
      UndoAt(tb, sb, x[4 * i + 1]);
      UndoAt(tc, sc, x[4 * i + 2]);
      UndoAt(td, sd, x[4 * i + 3]);
    }
    forall k | 0 <= k < 16 ensures q[k] == x[k] {
      var i := k / 4;
      assert k == 4 * i || k == 4 * i + 1 || k == 4 * i + 2 || k == 4 * i + 3;
    }
  }

  lemma UndoAt(t: bv8 -> bv8, s: bv8 -> bv8, v: bv8)
    requires Undoes(t, s)
    ensures t(s(v)) == v
  {}

  lemma QuadAt(sa: bv8 -> bv8, sb: bv8 -> bv8, sc: bv8 -> bv8, sd: bv8 -> bv8, x: Bytes)
    requires |x| == 16
    ensures forall i :: 0 <= i < 4 ==>
      var r := Quad(sa, sb, sc, sd, x);
      r[4 * i] == sa(x[4 * i]) && r[4 * i + 1] == sb(x[4 * i + 1]) && r[4 * i + 2] == sc(x[4 * i + 2])
        && r[4 * i + 3] == sd(x[4 * i + 3])
  {
    var r := Quad(sa, sb, sc, sd, x);
    forall i | 0 <= i < 4
      ensures r[4 * i] == sa(x[4 * i]) && r[4 * i + 1] == sb(x[4 * i + 1]) && r[4 * i + 2] == sc(x[4 * i + 2])
      ensures r[4 * i + 3] == sd(x[4 * i + 3])
    {
      if i == 0 {
        assert r[0] == sa(x[0]) && r[1] == sb(x[1]);
        assert r[2] == sc(x[2]) && r[3] == sd(x[3]);
      } else if i == 1 {
        assert r[4] == sa(x[4]) && r[5] == sb(x[5]);
        assert r[6] == sc(x[6]) && r[7] == sd(x[7]);
      } else if i == 2 {
        assert r[8] == sa(x[8]) && r[9] == sb(x[9]);
        assert r[10] == sc(x[10]) && r[11] == sd(x[11]);
      } else if i == 3 {
        assert r[12] == sa(x[12]) && r[13] == sb(x[13]);
        assert r[14] == sc(x[14]) && r[15] == sd(x[15]);
      }
    }
  }

  /** The two layers undo each other, position by position. */
  lemma SubstUndo(sb: SBoxes, odd: bool, x: Bytes)
    requires InversePairs(sb) && |x| == 16
    ensures Subst(sb, !odd, Subst(sb, odd, x)) == x
  {
    hide Quad;
    if odd {
      QuadUndo(sb.is1, sb.is2, sb.sb1, sb.sb2, sb.sb1, sb.sb2, sb.is1, sb.is2, x);
    } else {
      QuadUndo(sb.sb1, sb.sb2, sb.is1, sb.is2, sb.is1, sb.is2, sb.sb1, sb.sb2, x);
    }
  }

  /** aria_sl on one word */
  function SlWord(w: bv32, sa: bv8 -> bv8, sb: bv8 -> bv8, sc: bv8 -> bv8, sd: bv8 -> bv8): bv32
  {
    Word(sa(Byte0(w)), sb(Byte1(w)), sc(Byte2(w)), sd(Byte3(w)))
  }

  lemma SlWordBytes(w: bv32, sa: bv8 -> bv8, sb: bv8 -> bv8, sc: bv8 -> bv8, sd: bv8 -> bv8)
    ensures var v := SlWord(w, sa, sb, sc, sd);
      Byte0(v) == sa(Byte0(w)) && Byte1(v) == sb(Byte1(w)) && Byte2(v) == sc(Byte2(w)) && Byte3(v) == sd(Byte3(w))
  {
    hide Word, Byte0, Byte1, Byte2, Byte3;
    BytesOfWord(sa(Byte0(w)), sb(Byte1(w)), sc(Byte2(w)), sd(Byte3(w)));
  }

  /** aria_sl */
  method AriaSl(a0: bv32, b0: bv32, c0: bv32, d0: bv32, sa: bv8 -> bv8, sb: bv8 -> bv8, sc: bv8 -> bv8, sd: bv8 -> bv8)
    returns (a: bv32, b: bv32, c: bv32, d: bv32)
    ensures StateBytes(a, b, c, d) == Quad(sa, sb, sc, sd, StateBytes(a0, b0, c0, d0))
  {
    hide SlWord, Byte0, Byte1, Byte2, Byte3;
    a := SlWord(a0, sa, sb, sc, sd);
    b := SlWord(b0, sa, sb, sc, sd);
    c := SlWord(c0, sa, sb, sc, sd);
    d := SlWord(d0, sa, sb, sc, sd);
    SlWordBytes(a0, sa, sb, sc, sd);
    SlWordBytes(b0, sa, sb, sc, sd);
    SlWordBytes(c0, sa, sb, sc, sd);
    SlWordBytes(d0, sa, sb, sc, sd);
  }

  // ----- The cipher and its inverse -------------------------------------------------------

  ghost predicate Schedule(ks: seq<Bytes>, nr: nat)
  {
    |ks| == nr + 1 && nr > 0 && nr % 2 == 0 && forall i :: 0 <= i <= nr ==> |ks[i]| == 16
  }

  /** The steps i .. nr - 1 of the encryption loop, and the final key mixing */
  ghost function Forward(sb: SBoxes, x: Bytes, ks: seq<Bytes>, i: nat, nr: nat): (r: Bytes)
    requires Schedule(ks, nr) && i < nr && |x| == 16
    ensures |r| == 16
    decreases nr - i
  {
    var y := Subst(sb, i % 2 == 1, Xor(x, ks[i]));
    if i == nr - 1 then Xor(y, ks[nr]) else Forward(sb, Diffuse(y), ks, i + 1, nr)
  }

  /** The state before key i is mixed in */
  ghost function Before(sb: SBoxes, x: Bytes, ks: seq<Bytes>, i: nat, nr: nat): (r: Bytes)
    requires Schedule(ks, nr) && i < nr && |x| == 16
    ensures |r| == 16
  {
    if i == 0 then x else Diffuse(Subst(sb, (i - 1) % 2 == 1, Xor(Before(sb, x, ks, i - 1, nr), ks[i - 1])))
  }

  lemma {:induction false} ForwardFrom(sb: SBoxes, x: Bytes, ks: seq<Bytes>, i: nat, nr: nat)
    requires Schedule(ks, nr) && i < nr && |x| == 16
    ensures Forward(sb, x, ks, 0, nr) == Forward(sb, Before(sb, x, ks, i, nr), ks, i, nr)
  {
    hide Subst, Diffuse, Xor;
    if i > 0 { ForwardFrom(sb, x, ks, i - 1, nr); }
  }

  /** The cipher of section 2.2 of RFC 5794, from the state before the last step and byte by byte: every byte with its
      key byte through the box of its position, and the last key added without diffusion. */
  lemma ForwardBytes(sb: SBoxes, x: Bytes, ks: seq<Bytes>, nr: nat, p: nat)
    requires Schedule(ks, nr) && |x| == 16 && p < 16
    ensures var boxes, t := [sb.sb1, sb.sb2, sb.is1, sb.is2], Before(sb, x, ks, nr - 1, nr);
      Forward(sb, x, ks, 0, nr)[p] == XorByte(boxes[(p + 2) % 4](XorByte(t[p], ks[nr - 1][p])), ks[nr][p])
  {
    hide *;
    ScheduleIs(ks, nr);
    KeySizes(ks, nr - 1, nr);
    ForwardFrom(sb, x, ks, nr - 1, nr);
    var t := Before(sb, x, ks, nr - 1, nr);
    ForwardLast(sb, t, ks, nr);
    assert (nr - 1) % 2 == 1;
    SubstAt(sb, true, Xor(t, ks[nr - 1]), p);
  }

  /** The state before step i + 1: the boxes of step i, the odd steps beginning with the third, and the diffusion. */
  lemma BeforeNext(sb: SBoxes, x: Bytes, ks: seq<Bytes>, i: nat, nr: nat) returns (s: Bytes)
    requires Schedule(ks, nr) && i + 1 < nr && |x| == 16
    ensures |s| == 16 && Before(sb, x, ks, i + 1, nr) == Diffuse(s) && Before(sb, x, ks, 0, nr) == x
    ensures var boxes, t := [sb.sb1, sb.sb2, sb.is1, sb.is2], Before(sb, x, ks, i, nr);
      forall p :: 0 <= p < 16 ==> s[p] == boxes[(p + 2 * i) % 4](XorByte(t[p], ks[i][p]))
  {
    var t := Before(sb, x, ks, i, nr);
    s := Subst(sb, i % 2 == 1, Xor(t, ks[i]));
    BoxesInTurn(sb, i % 2 == 1, Xor(t, ks[i]));
    hide Subst, Diffuse;
    var boxes := [sb.sb1, sb.sb2, sb.is1, sb.is2];
    forall p | 0 <= p < 16 ensures s[p] == boxes[(p + 2 * i) % 4](XorByte(t[p], ks[i][p])) {
      BoxNumber(p, i);
    }
  }

  lemma BoxNumber(p: nat, i: nat)
    ensures (p + 2 * i) % 4 == (if i % 2 == 1 then p + 2 else p) % 4
  {
    var k := i / 2;
    assert i == 2 * k + i % 2;
    assert p + 2 * i == 4 * k + (p + 2 * (i % 2));
  }

  /** Key i as mbedtls_aria_setkey_dec leaves it */
  ghost function DecKey(ks: seq<Bytes>, nr: nat, i: nat): (r: Bytes)
    requires Schedule(ks, nr) && i <= nr
    ensures |r| == 16
  {
    if i == 0 || i == nr then ks[nr - i] else Diffuse(ks[nr - i])
  }

  ghost function DecKeys(ks: seq<Bytes>, nr: nat): (r: seq<Bytes>)
    requires Schedule(ks, nr)
    ensures Schedule(r, nr)
    ensures forall i :: 0 <= i <= nr ==> r[i] == DecKey(ks, nr, i)
  {
    seq(nr + 1, i requires 0 <= i <= nr => DecKey(ks, nr, i))
  }

  lemma DecKeyFirst(ks: seq<Bytes>, nr: nat)
    requires Schedule(ks, nr)
    ensures DecKeys(ks, nr)[0] == ks[nr]
  {
    hide Schedule;
    assert DecKeys(ks, nr)[0] == DecKey(ks, nr, 0);
  }

  /** Decryption step nr - 1 - j meets the state that left step j of the encryption, under its own key. */
  lemma {:induction false} GoesBack(sb: SBoxes, x: Bytes, ks: seq<Bytes>, j: nat, nr: nat)
    requires InversePairs(sb) && Schedule(ks, nr) && j < nr && |x| == 16
    ensures var s := Subst(sb, j % 2 == 1, Xor(Before(sb, x, ks, j, nr), ks[j]));
      Forward(sb, Xor(s, DecKeys(ks, nr)[nr - 1 - j]), DecKeys(ks, nr), nr - 1 - j, nr) == x
  {
    hide Subst, Diffuse, Xor, InversePairs, DecKeys, Schedule;
    var ds, i := DecKeys(ks, nr), nr - 1 - j;
    KeySizes(ks, j, nr);
    KeySizes(ds, i, nr);
    Parities(j, nr);
    var y := Before(sb, x, ks, j, nr);
    var s := Subst(sb, j % 2 == 1, Xor(y, ks[j]));
    XorTwice(s, ds[i]);
    SubstUndo(sb, j % 2 == 1, Xor(y, ks[j]));
    var z := Xor(s, ds[i]);
    assert Subst(sb, i % 2 == 1, Xor(z, ds[i])) == Xor(y, ks[j]);
    if j == 0 {
      XorTwice(x, ks[0]);
      ForwardLast(sb, z, ds, nr);
    } else {
      DiffuseLinear(y, ks[j]);
      KeySizes(ks, j - 1, nr);
      var s' := Subst(sb, (j - 1) % 2 == 1, Xor(Before(sb, x, ks, j - 1, nr), ks[j - 1]));
      DiffuseTwice(s');
      GoesBack(sb, x, ks, j - 1, nr);
      ForwardNext(sb, z, ds, i, nr);
    }
  }

  lemma Parities(j: nat, nr: nat)
    requires j < nr && nr % 2 == 0
    ensures ((nr - 1 - j) % 2 == 1) == !(j % 2 == 1)
  {}

  lemma ScheduleIs(ks: seq<Bytes>, nr: nat)
    requires Schedule(ks, nr)
    ensures nr >= 2 && nr % 2 == 0 && |ks| == nr + 1
  {}

  lemma KeySizes(ks: seq<Bytes>, j: nat, nr: nat)
    requires Schedule(ks, nr) && j < nr
    ensures nr % 2 == 0 && |ks| == nr + 1 && |ks[j]| == 16 && |ks[nr]| == 16 && |ks[nr - j]| == 16
  {}

  lemma ForwardLast(sb: SBoxes, z: Bytes, ks: seq<Bytes>, nr: nat)
    requires Schedule(ks, nr) && |z| == 16
    ensures Forward(sb, z, ks, nr - 1, nr) == Xor(Subst(sb, (nr - 1) % 2 == 1, Xor(z, ks[nr - 1])), ks[nr])
  {
    hide Subst, Xor, Diffuse;
  }

  lemma ForwardNext(sb: SBoxes, z: Bytes, ks: seq<Bytes>, i: nat, nr: nat)
    requires Schedule(ks, nr) && |z| == 16 && i < nr - 1
    ensures Forward(sb, z, ks, i, nr) == Forward(sb, Diffuse(Subst(sb, i % 2 == 1, Xor(z, ks[i]))), ks, i + 1, nr)
  {
    hide Subst, Xor, Diffuse;
  }

  /** The block law of section 2 of RFC 5794: the encryption loop on the decryption keys undoes encryption. */
  lemma DecryptUndoesEncrypt(sb: SBoxes, x: Bytes, ks: seq<Bytes>, nr: nat)
    requires InversePairs(sb) && Schedule(ks, nr) && |x| == 16
    ensures Forward(sb, Forward(sb, x, ks, 0, nr), DecKeys(ks, nr), 0, nr) == x
  {
    hide *;
    var ds := DecKeys(ks, nr);
    ScheduleIs(ks, nr);
    KeySizes(ks, nr - 1, nr);
    KeySizes(ks, 0, nr);
    KeySizes(ds, 0, nr);
    ForwardFrom(sb, x, ks, nr - 1, nr);
    ForwardLast(sb, Before(sb, x, ks, nr - 1, nr), ks, nr);
    DecKeyFirst(ks, nr);
    GoesBack(sb, x, ks, nr - 1, nr);
  }

  // ----- The key schedule in place --------------------------------------------------------

  /** Round key i: a row of four words, as bytes */
  ghost function KeyBytes(rk: array2<bv32>, i: nat): (r: Bytes)
    requires i < rk.Length0 && rk.Length1 == 4
    reads rk
    ensures |r| == 16
  {
    StateBytes(rk[i, 0], rk[i, 1], rk[i, 2], rk[i, 3])
  }

  ghost function Keys(rk: array2<bv32>, nr: nat): (ks: seq<Bytes>)
    requires nr < rk.Length0 && rk.Length1 == 4
    reads rk
    ensures |ks| == nr + 1 && forall i :: 0 <= i <= nr ==> ks[i] == KeyBytes(rk, i) && |ks[i]| == 16
  {
    seq(nr + 1, i requires 0 <= i <= nr reads rk => KeyBytes(rk, i))
  }

  /** The inner loop of the flip: swap two round keys word by word */
  method SwapRows(rk: array2<bv32>, i: nat, j: nat)
    requires i < j < rk.Length0 && rk.Length1 == 4
    modifies rk
    ensures forall c :: 0 <= c < 4 ==> rk[i, c] == old(rk[j, c]) && rk[j, c] == old(rk[i, c])
    ensures forall r, c :: 0 <= r < rk.Length0 && 0 <= c < 4 && r != i && r != j ==> rk[r, c] == old(rk[r, c])
  {
    var k := 0;
    while k < 4
      invariant 0 <= k <= 4
      invariant forall c :: 0 <= c < k ==> rk[i, c] == old(rk[j, c]) && rk[j, c] == old(rk[i, c])
      invariant forall c :: k <= c < 4 ==> rk[i, c] == old(rk[i, c]) && rk[j, c] == old(rk[j, c])
      invariant forall r, c :: 0 <= r < rk.Length0 && 0 <= c < 4 && r != i && r != j ==> rk[r, c] == old(rk[r, c])
    {
      var t := rk[i, k];
      rk[i, k] := rk[j, k];
      rk[j, k] := t;
      k := k + 1;
    }
  }

  /** The first loop of mbedtls_aria_setkey_dec: the order of the round keys is reversed. */
  method FlipKeys(rk: array2<bv32>, nr: nat)
    requires nr < rk.Length0 && rk.Length1 == 4
    modifies rk
    ensures forall r, c :: 0 <= r <= nr && 0 <= c < 4 ==> rk[r, c] == old(rk[nr - r, c])
  {
    var i: nat, j: int := 0, nr;
    while i < j
      invariant 0 <= i && i + j == nr && i <= j + 1
      invariant forall r, c :: 0 <= r <= nr && 0 <= c < 4 && (r < i || r > j) ==> rk[r, c] == old(rk[nr - r, c])
      invariant forall r, c :: i <= r <= j && 0 <= c < 4 ==> rk[r, c] == old(rk[r, c])
      decreases j - i
    {
      SwapRows(rk, i, j);
      i, j := i + 1, j - 1;
    }
  }

  /** The second loop: the middle keys go through A. */
  method TransformKeys(rk: array2<bv32>, nr: nat)
    requires nr < rk.Length0 && rk.Length1 == 4
    modifies rk
    ensures forall i :: 0 <= i <= nr ==>
      KeyBytes(rk, i) == if 0 < i < nr then Diffuse(old(KeyBytes(rk, i))) else old(KeyBytes(rk, i))
  {
    var i := 1;
    while i < nr
      invariant 1 <= i && (i <= nr || nr == 0)
      invariant forall r :: 0 <= r <= nr && (r == 0 || r >= i) ==> KeyBytes(rk, r) == old(KeyBytes(rk, r))
      invariant forall r :: 0 < r < i && r < nr ==> KeyBytes(rk, r) == Diffuse(old(KeyBytes(rk, r)))
    {
      hide StateBytes, Diffuse, KeyBytes;
      TransformRow(rk, i);
      i := i + 1;
    }
  }

  /** aria_a on one round key */
  method TransformRow(rk: array2<bv32>, i: nat)
    requires i < rk.Length0 && rk.Length1 == 4
    modifies rk
    ensures KeyBytes(rk, i) == Diffuse(old(KeyBytes(rk, i)))
    ensures forall r, c :: 0 <= r < rk.Length0 && 0 <= c < 4 && r != i ==> rk[r, c] == old(rk[r, c])
    ensures forall r :: 0 <= r < rk.Length0 && r != i ==> KeyBytes(rk, r) == old(KeyBytes(rk, r))
  {
    hide StateBytes, Diffuse;
    var a, b, c, d := AriaA(rk[i, 0], rk[i, 1], rk[i, 2], rk[i, 3]);
    rk[i, 0] := a;
    rk[i, 1] := b;
    rk[i, 2] := c;
    rk[i, 3] := d;
  }

  /** MBEDTLS_ERR_ARIA_BAD_INPUT_DATA */
  const BAD_INPUT_DATA: int := -0x005C

  /** The number of rounds for a key size, 0 for a size that is refused */
  function RoundCount(keybits: nat): nat
  {
    if keybits == 128 then 12 else if keybits == 192 then 14 else if keybits == 256 then 16 else 0
  }

  /** mbedtls_aria_setkey_dec, on the encryption subkeys mbedtls_aria_setkey_enc leaves in rk when it accepts the key
      size */
  method SetkeyDec(rk: array2<bv32>, keybits: nat) returns (ret: int, nr: nat)
    requires rk.Length0 == 17 && rk.Length1 == 4
    modifies rk
    ensures nr == RoundCount(keybits) < 17 && ret == if nr == 0 then BAD_INPUT_DATA else 0
    ensures ret != 0 ==> forall i, j :: 0 <= i < 17 && 0 <= j < 4 ==> rk[i, j] == old(rk[i, j])
    ensures ret == 0 ==> Schedule(old(Keys(rk, RoundCount(keybits))), nr)
    ensures ret == 0 ==> Keys(rk, nr) == DecKeys(old(Keys(rk, RoundCount(keybits))), nr)
  {
    hide StateBytes, Diffuse, Keys, KeyBytes, DecKeys, Schedule;
    if keybits != 128 && keybits != 192 && keybits != 256 { return BAD_INPUT_DATA, 0; }
    nr := RoundCount(keybits);
    ReverseSchedule(rk, nr);
    return 0, nr;
  }

  /** Flip the order of the round keys and apply the affine transform to the middle ones. */
  method ReverseSchedule(rk: array2<bv32>, nr: nat)
    requires rk.Length0 == 17 && rk.Length1 == 4 && (nr == 12 || nr == 14 || nr == 16)
    modifies rk
    ensures Schedule(old(Keys(rk, nr)), nr) && Keys(rk, nr) == DecKeys(old(Keys(rk, nr)), nr)
  {
    hide StateBytes, Diffuse;
    ghost var ks := Keys(rk, nr);
    FlipKeys(rk, nr);
    assert forall i :: 0 <= i <= nr ==> KeyBytes(rk, i) == ks[nr - i];
    TransformKeys(rk, nr);
  }

  // ----- mbedtls_aria_crypt_ecb -----------------------------------------------------------

  /** Key mixing: a ^= rk[i][0] and so on */
  method MixKey(a0: bv32, b0: bv32, c0: bv32, d0: bv32, rk: array2<bv32>, i: nat)
    returns (a: bv32, b: bv32, c: bv32, d: bv32)
    requires i < rk.Length0 && rk.Length1 == 4
    ensures StateBytes(a, b, c, d) == Xor(StateBytes(a0, b0, c0, d0), KeyBytes(rk, i))
  {
    hide StateBytes, XorWord, Xor;
    a := XorWord(a0, rk[i, 0]);
    b := XorWord(b0, rk[i, 1]);
    c := XorWord(c0, rk[i, 2]);
    d := XorWord(d0, rk[i, 3]);
    XorStates(a0, b0, c0, d0, rk[i, 0], rk[i, 1], rk[i, 2], rk[i, 3]);
  }

  lemma XorStates(a: bv32, b: bv32, c: bv32, d: bv32, e: bv32, f: bv32, g: bv32, h: bv32)
    ensures StateBytes(XorWord(a, e), XorWord(b, f), XorWord(c, g), XorWord(d, h))
         == Xor(StateBytes(a, b, c, d), StateBytes(e, f, g, h))
  {
    hide *;
    var l := StateBytes(XorWord(a, e), XorWord(b, f), XorWord(c, g), XorWord(d, h));
    var r := Xor(StateBytes(a, b, c, d), StateBytes(e, f, g, h));
    StateAt(a, b, c, d);
    StateAt(e, f, g, h);
    StateAt(XorWord(a, e), XorWord(b, f), XorWord(c, g), XorWord(d, h));
    WordXor(a, e);
    WordXor(b, f);
    WordXor(c, g);
    WordXor(d, h);
    assert l[0] == r[0] && l[1] == r[1] && l[2] == r[2] && l[3] == r[3];
    assert l[4] == r[4] && l[5] == r[5] && l[6] == r[6] && l[7] == r[7];
    assert l[8] == r[8] && l[9] == r[9] && l[10] == r[10] && l[11] == r[11];
    assert l[12] == r[12] && l[13] == r[13] && l[14] == r[14] && l[15] == r[15];
    assert l == r;
  }

  lemma WordXor(x: bv32, y: bv32)
    ensures Byte0(XorWord(x, y)) == XorByte(Byte0(x), Byte0(y)) && Byte1(XorWord(x, y)) == XorByte(Byte1(x), Byte1(y))
    ensures Byte2(XorWord(x, y)) == XorByte(Byte2(x), Byte2(y)) && Byte3(XorWord(x, y)) == XorByte(Byte3(x), Byte3(y))
  {
    hide *;
    XorByte0(x, y);
    XorByte1(x, y);
    XorByte2(x, y);
    XorByte3(x, y);
  }

  lemma BoxesInTurn(sb: SBoxes, odd: bool, x: Bytes)
    requires |x| == 16
    ensures var boxes := [sb.sb1, sb.sb2, sb.is1, sb.is2];
      forall p :: 0 <= p < 16 ==> Subst(sb, odd, x)[p] == boxes[(if odd then p + 2 else p) % 4](x[p])
  {
    var boxes := [sb.sb1, sb.sb2, sb.is1, sb.is2];
    forall p | 0 <= p < 16 ensures Subst(sb, odd, x)[p] == boxes[(if odd then p + 2 else p) % 4](x[p]) {
      SubstAt(sb, odd, x, p);
    }
  }

  /** Key mixing and substitution, the first half of a step: every byte with its key byte through the box of its
      position */
  method MixAndSubst(sb: SBoxes, odd: bool, a0: bv32, b0: bv32, c0: bv32, d0: bv32, rk: array2<bv32>, i: nat)
    returns (a: bv32, b: bv32, c: bv32, d: bv32)
    requires i < rk.Length0 && rk.Length1 == 4
    ensures StateBytes(a, b, c, d) == Subst(sb, odd, Xor(StateBytes(a0, b0, c0, d0), KeyBytes(rk, i)))
    ensures var boxes := [sb.sb1, sb.sb2, sb.is1, sb.is2];
      forall p :: 0 <= p < 16 ==>
        StateBytes(a, b, c, d)[p]
        == boxes[(if odd then p + 2 else p) % 4](XorByte(StateBytes(a0, b0, c0, d0)[p], KeyBytes(rk, i)[p]))
  {
    hide StateBytes, Quad;
    ghost var x := Xor(StateBytes(a0, b0, c0, d0), KeyBytes(rk, i));
    BoxesInTurn(sb, odd, x);
    a, b, c, d := MixKey(a0, b0, c0, d0, rk, i);
    if odd {
      a, b, c, d := AriaSl(a, b, c, d, sb.is1, sb.is2, sb.sb1, sb.sb2);
    } else {
      a, b, c, d := AriaSl(a, b, c, d, sb.sb1, sb.sb2, sb.is1, sb.is2);
    }
  }

  /** The loop of mbedtls_aria_crypt_ecb and the final key mixing */
  method CryptWords(sb: SBoxes, nr: nat, rk: array2<bv32>, a0: bv32, b0: bv32, c0: bv32, d0: bv32)
    returns (a: bv32, b: bv32, c: bv32, d: bv32)
    requires rk.Length0 == 17 && rk.Length1 == 4 && (nr == 12 || nr == 14 || nr == 16)
    ensures Schedule(Keys(rk, nr), nr)
    ensures StateBytes(a, b, c, d) == Forward(sb, StateBytes(a0, b0, c0, d0), Keys(rk, nr), 0, nr)
  {
    hide StateBytes, Subst, Xor, Diffuse, Forward, KeyBytes;
    ghost var ks, x := Keys(rk, nr), StateBytes(a0, b0, c0, d0);
    a, b, c, d := a0, b0, c0, d0;
    var i := 0;
    while true
      invariant 0 <= i < nr && i % 2 == 0
      invariant Forward(sb, StateBytes(a, b, c, d), ks, i, nr) == Forward(sb, x, ks, 0, nr)
      decreases nr - i
    {
      ForwardNext(sb, StateBytes(a, b, c, d), ks, i, nr);
      a, b, c, d := MixAndSubst(sb, false, a, b, c, d, rk, i);
      i := i + 1;
      a, b, c, d := AriaA(a, b, c, d);
      if i == nr - 1 {
        ForwardLast(sb, StateBytes(a, b, c, d), ks, nr);
      } else {
        ForwardNext(sb, StateBytes(a, b, c, d), ks, i, nr);
      }
      a, b, c, d := MixAndSubst(sb, true, a, b, c, d, rk, i);
      i := i + 1;
      if i >= nr { break; }
      a, b, c, d := AriaA(a, b, c, d);
    }
    a, b, c, d := MixKey(a, b, c, d, rk, i);
  }

  // ----- Bytes in and out -----------------------------------------------------------------

  /** MBEDTLS_GET_UINT32_LE and MBEDTLS_PUT_UINT32_LE */
  function GetLE(b: Bytes): bv32
    requires |b| == 4
  {
    Word(b[0], b[1], b[2], b[3])
  }

  /** mbedtls_aria_crypt_ecb */
  method CryptEcb(sb: SBoxes, nr: nat, rk: array2<bv32>, input: array<bv8>, output: array<bv8>)
    requires rk.Length0 == 17 && rk.Length1 == 4 && (nr == 12 || nr == 14 || nr == 16)
    requires input.Length == 16 && output.Length == 16
    modifies output
    ensures Schedule(Keys(rk, nr), nr)
    ensures output[..] == Forward(sb, old(input[..]), Keys(rk, nr), 0, nr)
  {
    hide *;
    ghost var x := input[..];
    LoadedState(x);
    assert x[0..4] == input[0..4] && x[4..8] == input[4..8] && x[8..12] == input[8..12] && x[12..16] == input[12..16];
    var a, b, c, d := GetLE(input[0..4]), GetLE(input[4..8]), GetLE(input[8..12]), GetLE(input[12..16]);
    a, b, c, d := CryptWords(sb, nr, rk, a, b, c, d);
    StoreState(output, a, b, c, d);
  }

  method StoreState(output: array<bv8>, a: bv32, b: bv32, c: bv32, d: bv32)
    requires output.Length == 16
    modifies output
    ensures output[..] == StateBytes(a, b, c, d)
  {
    hide StateBytes;
    var r := StateBytes(a, b, c, d);
    forall k | 0 <= k < 16 { output[k] := r[k]; }
    assert output[..] == r;
  }

  lemma LoadedState(x: Bytes)
    requires |x| == 16
    ensures StateBytes(GetLE(x[0..4]), GetLE(x[4..8]), GetLE(x[8..12]), GetLE(x[12..16])) == x
  {
    hide StateBytes, Word, Byte0, Byte1, Byte2, Byte3;
    var a, b, c, d := GetLE(x[0..4]), GetLE(x[4..8]), GetLE(x[8..12]), GetLE(x[12..16]);
    var l := StateBytes(a, b, c, d);
    StateAt(a, b, c, d);
    BytesOfWord(x[0], x[1], x[2], x[3]);
    BytesOfWord(x[4], x[5], x[6], x[7]);
    BytesOfWord(x[8], x[9], x[10], x[11]);
    BytesOfWord(x[12], x[13], x[14], x[15]);
    assert l[0] == x[0] && l[1] == x[1] && l[2] == x[2] && l[3] == x[3];
    assert l[4] == x[4] && l[5] == x[5] && l[6] == x[6] && l[7] == x[7];
    assert l[8] == x[8] && l[9] == x[9] && l[10] == x[10] && l[11] == x[11];
    assert l[12] == x[12] && l[13] == x[13] && l[14] == x[14] && l[15] == x[15];
    assert l == x;
  }
}
