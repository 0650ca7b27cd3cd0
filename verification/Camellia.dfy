/** Camellia: the Feistel network with its FL layers, and the decryption key schedule. */
module Camellia {
  import opened Blocks
  import Arith

  /** Two words: half of the 128-bit state, or one 64-bit subkey */
  datatype Half = Half(l: bv32, r: bv32)

  datatype State = State(d1: Half, d2: Half)

  /** SBOX1 .. SBOX4, arbitrary */
  datatype SBoxes = SBoxes(s1: bv8 -> bv8, s2: bv8 -> bv8, s3: bv8 -> bv8, s4: bv8 -> bv8)

  // ----- The round functions --------------------------------------------------------------

  function XorWord(a: bv32, b: bv32): bv32
  {
    a ^ b
  }

  function XorHalf(a: Half, b: Half): Half
  {
    Half(XorWord(a.l, b.l), XorWord(a.r, b.r))
  }

  lemma XorWordTwice(a: bv32, b: bv32)
    ensures XorWord(XorWord(a, b), b) == a
  {}

  lemma XorHalfTwice(a: Half, b: Half)
    ensures XorHalf(XorHalf(a, b), b) == a
  {
    hide XorWord;
    XorWordTwice(a.l, b.l);
    XorWordTwice(a.r, b.r);
  }

  function ByteOf(x: bv32, shift: bv5): bv8
  {
    ((x >> shift) & 0xff) as bv8
  }

  function Word(b3: bv8, b2: bv8, b1: bv8, b0: bv8): bv32
  {
    (b3 as bv32 << 24) | (b2 as bv32 << 16) | (b1 as bv32 << 8) | (b0 as bv32)
  }

  // The three rotations to the left, as the code writes them

  function Rotl8(x: bv32): bv32 { (x << 8) | (x >> 24) }

  function Rotl16(x: bv32): bv32 { (x << 16) | (x >> 16) }

  function Rotl24(x: bv32): bv32 { (x << 24) | (x >> 8) }

  /** What camellia_feistel adds to the other half. */
  function F(sb: SBoxes, x: Half, k: Half): Half
  {
    var i0 := XorWord(x.l, k.l);
    var i1 := XorWord(x.r, k.r);
    var j0 := Word(sb.s1(ByteOf(i0, 24)), sb.s2(ByteOf(i0, 16)), sb.s3(ByteOf(i0, 8)), sb.s4(ByteOf(i0, 0)));
    var j1 := Word(sb.s2(ByteOf(i1, 24)), sb.s3(ByteOf(i1, 16)), sb.s4(ByteOf(i1, 8)), sb.s1(ByteOf(i1, 0)));
    Mixed(j0, j1)
  }

  /** The last four assignments of camellia_feistel to its two words */
  function Mixed(j0: bv32, j1: bv32): Half
  {
    var a0 := XorWord(j0, Rotl8(j1));
    var a1 := XorWord(j1, Rotl16(a0));
    var b0 := XorWord(a0, Rotl24(a1));
    var b1 := XorWord(a1, Rotl24(b0));
    Half(b1, b0)
  }

  /** The bytes of a word, the most significant first */
  ghost predicate Holds(w: bv32, a: bv8, b: bv8, c: bv8, d: bv8)
  {
    ByteOf(w, 24) == a && ByteOf(w, 16) == b && ByteOf(w, 8) == c && ByteOf(w, 0) == d
  }

  lemma WordHolds(a: bv8, b: bv8, c: bv8, d: bv8)
    ensures Holds(Word(a, b, c, d), a, b, c, d)
  {}

  lemma XorHolds(v: bv32, w: bv32, a: bv8, b: bv8, c: bv8, d: bv8, e: bv8, f: bv8, g: bv8, h: bv8)
    requires Holds(v, a, b, c, d) && Holds(w, e, f, g, h)
    ensures Holds(XorWord(v, w), XorByte(a, e), XorByte(b, f), XorByte(c, g), XorByte(d, h))
  {
    hide XorWord, ByteOf, XorByte;
    XorByte24(v, w);
    XorByte16(v, w);
    XorByte8(v, w);
    XorByte0(v, w);
  }

  lemma XorByte24(v: bv32, w: bv32)
    ensures ByteOf(XorWord(v, w), 24) == XorByte(ByteOf(v, 24), ByteOf(w, 24))
  {}

  lemma XorByte16(v: bv32, w: bv32)
    ensures ByteOf(XorWord(v, w), 16) == XorByte(ByteOf(v, 16), ByteOf(w, 16))
  {}

  lemma XorByte8(v: bv32, w: bv32)
    ensures ByteOf(XorWord(v, w), 8) == XorByte(ByteOf(v, 8), ByteOf(w, 8))
  {}

  lemma XorByte0(v: bv32, w: bv32)
    ensures ByteOf(XorWord(v, w), 0) == XorByte(ByteOf(v, 0), ByteOf(w, 0))
  {}

  lemma RotlHolds(w: bv32, a: bv8, b: bv8, c: bv8, d: bv8)
    requires Holds(w, a, b, c, d)
    ensures Holds(Rotl8(w), b, c, d, a) && Holds(Rotl16(w), c, d, a, b) && Holds(Rotl24(w), d, a, b, c)
  {
    RotlBytes8(w);
    RotlBytes16(w);
    RotlBytes24(w);
    hide Rotl8, Rotl16, Rotl24, ByteOf;
  }

  lemma RotlBytes8(w: bv32)
    ensures Holds(Rotl8(w), ByteOf(w, 16), ByteOf(w, 8), ByteOf(w, 0), ByteOf(w, 24))
  {}

  lemma RotlBytes16(w: bv32)
    ensures Holds(Rotl16(w), ByteOf(w, 8), ByteOf(w, 0), ByteOf(w, 24), ByteOf(w, 16))
  {}

  lemma RotlBytes24(w: bv32)
    ensures Holds(Rotl24(w), ByteOf(w, 0), ByteOf(w, 24), ByteOf(w, 16), ByteOf(w, 8))
  {}

  function Sum5(a: bv8, b: bv8, c: bv8, d: bv8, e: bv8): bv8
  {
    XorByte(XorByte(XorByte(XorByte(a, b), c), d), e)
  }

  function Sum6(a: bv8, b: bv8, c: bv8, d: bv8, e: bv8, f: bv8): bv8
  {
    XorByte(Sum5(a, b, c, d, e), f)
  }

  /** The function F of section 2.4.1 of RFC 3713, byte by byte: the key is added, every byte goes through its S-box,
      and every byte of the result is the sum of five or six of the substituted ones. */
  lemma FSums(sb: SBoxes, x: Half, k: Half)
    ensures var z := Xor(PutBE(x.l) + PutBE(x.r), PutBE(k.l) + PutBE(k.r));
      var t1, t2, t3, t4 := sb.s1(z[0]), sb.s2(z[1]), sb.s3(z[2]), sb.s4(z[3]);
      var t5, t6, t7, t8 := sb.s2(z[4]), sb.s3(z[5]), sb.s4(z[6]), sb.s1(z[7]);
      PutBE(F(sb, x, k).l) + PutBE(F(sb, x, k).r) ==
        [Sum6(t1, t3, t4, t6, t7, t8), Sum6(t1, t2, t4, t5, t7, t8),
         Sum6(t1, t2, t3, t5, t6, t8), Sum6(t2, t3, t4, t5, t6, t7),
         Sum5(t1, t2, t6, t7, t8), Sum5(t2, t3, t5, t7, t8),
         Sum5(t3, t4, t5, t6, t8), Sum5(t1, t4, t5, t6, t7)]
  {
    hide *;
    var z := Xor(PutBE(x.l) + PutBE(x.r), PutBE(k.l) + PutBE(k.r));
    KeyAdded(x, k);
    var t1, t2, t3, t4 := sb.s1(z[0]), sb.s2(z[1]), sb.s3(z[2]), sb.s4(z[3]);
    var t5, t6, t7, t8 := sb.s2(z[4]), sb.s3(z[5]), sb.s4(z[6]), sb.s1(z[7]);
    WordHolds(t1, t2, t3, t4);
    WordHolds(t5, t6, t7, t8);
    FIs(sb, x, k);
    var r := Mixed(Word(t1, t2, t3, t4), Word(t5, t6, t7, t8));
    MixedSums(Word(t1, t2, t3, t4), Word(t5, t6, t7, t8), t1, t2, t3, t4, t5, t6, t7, t8);
    HoldsPut(r.l, Sum6(t1, t3, t4, t6, t7, t8), Sum6(t1, t2, t4, t5, t7, t8),
             Sum6(t1, t2, t3, t5, t6, t8), Sum6(t2, t3, t4, t5, t6, t7));
    HoldsPut(r.r, Sum5(t1, t2, t6, t7, t8), Sum5(t2, t3, t5, t7, t8),
             Sum5(t3, t4, t5, t6, t8), Sum5(t1, t4, t5, t6, t7));
  }

  lemma KeyAdded(x: Half, k: Half)
    ensures var z := Xor(PutBE(x.l) + PutBE(x.r), PutBE(k.l) + PutBE(k.r));
      var i0, i1 := XorWord(x.l, k.l), XorWord(x.r, k.r);
      && ByteOf(i0, 24) == z[0] && ByteOf(i0, 16) == z[1] && ByteOf(i0, 8) == z[2] && ByteOf(i0, 0) == z[3]
      && ByteOf(i1, 24) == z[4] && ByteOf(i1, 16) == z[5] && ByteOf(i1, 8) == z[6] && ByteOf(i1, 0) == z[7]
  {
    hide ByteOf, XorWord, XorByte;
    XorByte24(x.l, k.l);
    XorByte16(x.l, k.l);
    XorByte8(x.l, k.l);
    XorByte0(x.l, k.l);
    XorByte24(x.r, k.r);
    XorByte16(x.r, k.r);
    XorByte8(x.r, k.r);
    XorByte0(x.r, k.r);
  }

  lemma HoldsPut(w: bv32, a: bv8, b: bv8, c: bv8, d: bv8)
    requires Holds(w, a, b, c, d)
    ensures PutBE(w) == [a, b, c, d]
  {
    hide ByteOf;
  }

  lemma FIs(sb: SBoxes, x: Half, k: Half)
    ensures var i0, i1 := XorWord(x.l, k.l), XorWord(x.r, k.r);
      F(sb, x, k) == Mixed(
        Word(sb.s1(ByteOf(i0, 24)), sb.s2(ByteOf(i0, 16)), sb.s3(ByteOf(i0, 8)), sb.s4(ByteOf(i0, 0))),
        Word(sb.s2(ByteOf(i1, 24)), sb.s3(ByteOf(i1, 16)), sb.s4(ByteOf(i1, 8)), sb.s1(ByteOf(i1, 0))))
  {
    hide XorWord, Word, ByteOf, Rotl8, Rotl16, Rotl24;
  }

  lemma MixedSums(j0: bv32, j1: bv32, t1: bv8, t2: bv8, t3: bv8, t4: bv8, t5: bv8, t6: bv8, t7: bv8, t8: bv8)
    requires Holds(j0, t1, t2, t3, t4) && Holds(j1, t5, t6, t7, t8)
    ensures var r := Mixed(j0, j1);
      && Holds(r.l, Sum6(t1, t3, t4, t6, t7, t8), Sum6(t1, t2, t4, t5, t7, t8),
               Sum6(t1, t2, t3, t5, t6, t8), Sum6(t2, t3, t4, t5, t6, t7))
      && Holds(r.r, Sum5(t1, t2, t6, t7, t8), Sum5(t2, t3, t5, t7, t8),
               Sum5(t3, t4, t5, t6, t8), Sum5(t1, t4, t5, t6, t7))
  {
    var a0 := XorWord(j0, Rotl8(j1));
    var a1 := XorWord(j1, Rotl16(a0));
    var b0 := XorWord(a0, Rotl24(a1));
    hide *;
    MixedIs(j0, j1);
    RotlHolds(j1, t5, t6, t7, t8);
    XorHolds(j0, Rotl8(j1), t1, t2, t3, t4, t6, t7, t8, t5);
    var p1, p2, p3, p4 := XorByte(t1, t6), XorByte(t2, t7), XorByte(t3, t8), XorByte(t4, t5);
    RotlHolds(a0, p1, p2, p3, p4);
    XorHolds(j1, Rotl16(a0), t5, t6, t7, t8, p3, p4, p1, p2);
    var q1, q2, q3, q4 := XorByte(t5, p3), XorByte(t6, p4), XorByte(t7, p1), XorByte(t8, p2);
    RotlHolds(a1, q1, q2, q3, q4);
    XorHolds(a0, Rotl24(a1), p1, p2, p3, p4, q4, q1, q2, q3);
    RotlHolds(b0, XorByte(p1, q4), XorByte(p2, q1), XorByte(p3, q2), XorByte(p4, q3));
    XorHolds(a1, Rotl24(b0), q1, q2, q3, q4, XorByte(p4, q3), XorByte(p1, q4), XorByte(p2, q1), XorByte(p3, q2));
    LowSum1(t1, t2, t6, t7, t8);
    LowSum2(t2, t3, t5, t7, t8);
    LowSum3(t3, t4, t5, t6, t8);
    LowSum4(t1, t4, t5, t6, t7);
    HighSum1(t1, t3, t4, t5, t6, t7, t8);
    HighSum2(t1, t2, t4, t5, t6, t7, t8);
    HighSum3(t1, t2, t3, t5, t6, t7, t8);
    HighSum4(t2, t3, t4, t5, t6, t7, t8);
  }

  lemma MixedIs(j0: bv32, j1: bv32)
    ensures var a0 := XorWord(j0, Rotl8(j1));
      var a1 := XorWord(j1, Rotl16(a0));
      var b0 := XorWord(a0, Rotl24(a1));
      Mixed(j0, j1) == Half(XorWord(a1, Rotl24(b0)), b0)
  {
    hide XorWord, Rotl8, Rotl16, Rotl24;
  }

  lemma LowSum1(t1: bv8, t2: bv8, t6: bv8, t7: bv8, t8: bv8)
    ensures XorByte(XorByte(t1, t6), XorByte(t8, XorByte(t2, t7)))
         == Sum5(t1, t2, t6, t7, t8)
  {
    hide XorByte, Bit;
    var l := XorByte(XorByte(t1, t6), XorByte(t8, XorByte(t2, t7)));
    var r := Sum5(t1, t2, t6, t7, t8);
    forall i | 0 <= i < 8 ensures Bit(l, i) == Bit(r, i) { XorBits(i); }
    BitsDecide(l, r);
  }

  lemma LowSum2(t2: bv8, t3: bv8, t5: bv8, t7: bv8, t8: bv8)
    ensures XorByte(XorByte(t2, t7), XorByte(t5, XorByte(t3, t8)))
         == Sum5(t2, t3, t5, t7, t8)
  {
    hide XorByte, Bit;
    var l := XorByte(XorByte(t2, t7), XorByte(t5, XorByte(t3, t8)));
    var r := Sum5(t2, t3, t5, t7, t8);
    forall i | 0 <= i < 8 ensures Bit(l, i) == Bit(r, i) { XorBits(i); }
    BitsDecide(l, r);
  }

  lemma LowSum3(t3: bv8, t4: bv8, t5: bv8, t6: bv8, t8: bv8)
    ensures XorByte(XorByte(t3, t8), XorByte(t6, XorByte(t4, t5)))
         == Sum5(t3, t4, t5, t6, t8)
  {
    hide XorByte, Bit;
    var l := XorByte(XorByte(t3, t8), XorByte(t6, XorByte(t4, t5)));
    var r := Sum5(t3, t4, t5, t6, t8);
    forall i | 0 <= i < 8 ensures Bit(l, i) == Bit(r, i) { XorBits(i); }
    BitsDecide(l, r);
  }

  lemma LowSum4(t1: bv8, t4: bv8, t5: bv8, t6: bv8, t7: bv8)
    ensures XorByte(XorByte(t4, t5), XorByte(t7, XorByte(t1, t6)))
         == Sum5(t1, t4, t5, t6, t7)
  {
    hide XorByte, Bit;
    var l := XorByte(XorByte(t4, t5), XorByte(t7, XorByte(t1, t6)));
    var r := Sum5(t1, t4, t5, t6, t7);
    forall i | 0 <= i < 8 ensures Bit(l, i) == Bit(r, i) { XorBits(i); }
    BitsDecide(l, r);
  }

  lemma HighSum1(t1: bv8, t3: bv8, t4: bv8, t5: bv8, t6: bv8, t7: bv8, t8: bv8)
    ensures XorByte(XorByte(t5, XorByte(t3, t8)),
                    XorByte(XorByte(t4, t5), XorByte(t7, XorByte(t1, t6))))
         == Sum6(t1, t3, t4, t6, t7, t8)
  {
    hide XorByte, Bit;
    var l := XorByte(XorByte(t5, XorByte(t3, t8)), XorByte(XorByte(t4, t5), XorByte(t7, XorByte(t1, t6))));
    var r := Sum6(t1, t3, t4, t6, t7, t8);
    forall i | 0 <= i < 8 ensures Bit(l, i) == Bit(r, i) { XorBits(i); }
    BitsDecide(l, r);
  }

  lemma HighSum2(t1: bv8, t2: bv8, t4: bv8, t5: bv8, t6: bv8, t7: bv8, t8: bv8)
    ensures XorByte(XorByte(t6, XorByte(t4, t5)),
                    XorByte(XorByte(t1, t6), XorByte(t8, XorByte(t2, t7))))
         == Sum6(t1, t2, t4, t5, t7, t8)
  {
    hide XorByte, Bit;
    var l := XorByte(XorByte(t6, XorByte(t4, t5)), XorByte(XorByte(t1, t6), XorByte(t8, XorByte(t2, t7))));
    var r := Sum6(t1, t2, t4, t5, t7, t8);
    forall i | 0 <= i < 8 ensures Bit(l, i) == Bit(r, i) { XorBits(i); }
    BitsDecide(l, r);
  }

  lemma HighSum3(t1: bv8, t2: bv8, t3: bv8, t5: bv8, t6: bv8, t7: bv8, t8: bv8)
    ensures XorByte(XorByte(t7, XorByte(t1, t6)),
                    XorByte(XorByte(t2, t7), XorByte(t5, XorByte(t3, t8))))
         == Sum6(t1, t2, t3, t5, t6, t8)
  {
    hide XorByte, Bit;
    var l := XorByte(XorByte(t7, XorByte(t1, t6)), XorByte(XorByte(t2, t7), XorByte(t5, XorByte(t3, t8))));
    var r := Sum6(t1, t2, t3, t5, t6, t8);
    forall i | 0 <= i < 8 ensures Bit(l, i) == Bit(r, i) { XorBits(i); }
    BitsDecide(l, r);
  }

  lemma HighSum4(t2: bv8, t3: bv8, t4: bv8, t5: bv8, t6: bv8, t7: bv8, t8: bv8)
    ensures XorByte(XorByte(t8, XorByte(t2, t7)),
                    XorByte(XorByte(t3, t8), XorByte(t6, XorByte(t4, t5))))
         == Sum6(t2, t3, t4, t5, t6, t7)
  {
    hide XorByte, Bit;
    var l := XorByte(XorByte(t8, XorByte(t2, t7)), XorByte(XorByte(t3, t8), XorByte(t6, XorByte(t4, t5))));
    var r := Sum6(t2, t3, t4, t5, t6, t7);
    forall i | 0 <= i < 8 ensures Bit(l, i) == Bit(r, i) { XorBits(i); }
    BitsDecide(l, r);
  }

  function OrWord(a: bv32, b: bv32): bv32
  {
    a | b
  }

  function RotlAnd(a: bv32, b: bv32): bv32
  {
    ((a & b) << 1) | ((a & b) >> 31)
  }

  /** The macros FL and FLInv */
  function FL(x: Half, k: Half): Half
  {
    var xr := XorWord(RotlAnd(x.l, k.l), x.r);
    var xl := XorWord(OrWord(xr, k.r), x.l);
    Half(xl, xr)
  }

  function FLInv(y: Half, k: Half): Half
  {
    var yl := XorWord(OrWord(y.r, k.r), y.l);
    var yr := XorWord(RotlAnd(yl, k.l), y.r);
    Half(yl, yr)
  }

  /** Byte k of a word, the least significant one being byte 0, and bit i */
  ghost function WordByte(x: bv32, k: nat): bv8
    requires k < 4
  {
    if k == 0 then ByteOf(x, 0) else if k == 1 then ByteOf(x, 8) else if k == 2 then ByteOf(x, 16) else ByteOf(x, 24)
  }

  ghost predicate WordBit(x: bv32, i: nat)
    requires i < 32
  {
    Bit(WordByte(x, i / 8), i % 8)
  }

  /** The bit below bit i, in a rotation by one */
  function Below(i: nat): (j: nat)
    requires i < 32
    ensures j < 32
  {
    if i == 0 then 31 else i - 1
  }

  lemma XorWordBit(a: bv32, b: bv32, i: nat)
    requires i < 32
    ensures WordBit(XorWord(a, b), i) <==> WordBit(a, i) != WordBit(b, i)
  {
    hide XorWord, ByteOf, Bit;
    XorByte24(a, b);
    XorByte16(a, b);
    XorByte8(a, b);
    XorByte0(a, b);
    XorBit(WordByte(a, i / 8), WordByte(b, i / 8), i % 8);
  }

  function OrByte(a: bv8, b: bv8): bv8 { a | b }

  lemma OrByte24(a: bv32, b: bv32)
    ensures ByteOf(OrWord(a, b), 24) == OrByte(ByteOf(a, 24), ByteOf(b, 24))
  {}

  lemma OrByte16(a: bv32, b: bv32)
    ensures ByteOf(OrWord(a, b), 16) == OrByte(ByteOf(a, 16), ByteOf(b, 16))
  {}

  lemma OrByte8(a: bv32, b: bv32)
    ensures ByteOf(OrWord(a, b), 8) == OrByte(ByteOf(a, 8), ByteOf(b, 8))
  {}

  lemma OrByte0(a: bv32, b: bv32)
    ensures ByteOf(OrWord(a, b), 0) == OrByte(ByteOf(a, 0), ByteOf(b, 0))
  {}

  lemma OrBit(a: bv8, b: bv8, i: nat)
    requires i < 8
    ensures Bit(OrByte(a, b), i) <==> Bit(a, i) || Bit(b, i)
  {
    if i == 0 {} else if i == 1 {} else if i == 2 {} else if i == 3 {} else if i == 4 {} else if i == 5 {}
    else if i == 6 {} else {}
  }

  lemma OrWordBit(a: bv32, b: bv32, i: nat)
    requires i < 32
    ensures WordBit(OrWord(a, b), i) <==> WordBit(a, i) || WordBit(b, i)
  {
    hide OrWord, ByteOf, Bit, OrByte;
    OrByte24(a, b);
    OrByte16(a, b);
    OrByte8(a, b);
    OrByte0(a, b);
    OrBit(WordByte(a, i / 8), WordByte(b, i / 8), i % 8);
  }

  /** A byte of the rotated conjunction, from the bytes at its place and those below */
  function ShiftedIn(a: bv8, b: bv8, belowA: bv8, belowB: bv8): bv8
  {
    ((a & b) << 1) | ((belowA & belowB) >> 7)
  }

  lemma RotlAndBytes(a: bv32, b: bv32)
    ensures ByteOf(RotlAnd(a, b), 24) == ShiftedIn(ByteOf(a, 24), ByteOf(b, 24), ByteOf(a, 16), ByteOf(b, 16))
    ensures ByteOf(RotlAnd(a, b), 16) == ShiftedIn(ByteOf(a, 16), ByteOf(b, 16), ByteOf(a, 8), ByteOf(b, 8))
    ensures ByteOf(RotlAnd(a, b), 8) == ShiftedIn(ByteOf(a, 8), ByteOf(b, 8), ByteOf(a, 0), ByteOf(b, 0))
    ensures ByteOf(RotlAnd(a, b), 0) == ShiftedIn(ByteOf(a, 0), ByteOf(b, 0), ByteOf(a, 24), ByteOf(b, 24))
  {}

  lemma ShiftedInBit(a: bv8, b: bv8, belowA: bv8, belowB: bv8, i: nat)
    requires i < 8
    ensures Bit(ShiftedIn(a, b, belowA, belowB), i)
      <==> if i == 0 then Bit(belowA, 7) && Bit(belowB, 7) else Bit(a, i - 1) && Bit(b, i - 1)
  {
    if i == 0 {} else if i == 1 {} else if i == 2 {} else if i == 3 {} else if i == 4 {} else if i == 5 {}
    else if i == 6 {} else {}
  }

  lemma RotlAndBit(a: bv32, b: bv32, i: nat)
    requires i < 32
    ensures WordBit(RotlAnd(a, b), i) <==> WordBit(a, Below(i)) && WordBit(b, Below(i))
  {
    var k, j := i / 8, i % 8;
    BelowPlace(i);
    RotatedByte(a, b, k);
    hide *;
    WordBitIs(RotlAnd(a, b), i);
    WordBitIs(a, Below(i));
    WordBitIs(b, Below(i));
    var below := if k == 0 then 3 else k - 1;
    ShiftedInBit(WordByte(a, k), WordByte(b, k), WordByte(a, below), WordByte(b, below), j);
  }

  lemma WordBitIs(x: bv32, i: nat)
    requires i < 32
    ensures WordBit(x, i) == Bit(WordByte(x, i / 8), i % 8)
  {}

  lemma BelowPlace(i: nat)
    requires i < 32
    ensures i % 8 == 0 ==> Below(i) / 8 == (if i / 8 == 0 then 3 else i / 8 - 1) && Below(i) % 8 == 7
    ensures i % 8 != 0 ==> Below(i) / 8 == i / 8 && Below(i) % 8 == i % 8 - 1
  {}

  lemma RotatedByte(a: bv32, b: bv32, k: nat)
    requires k < 4
    ensures var below := if k == 0 then 3 else k - 1;
      WordByte(RotlAnd(a, b), k) == ShiftedIn(WordByte(a, k), WordByte(b, k), WordByte(a, below), WordByte(b, below))
  {
    hide RotlAnd, ByteOf, ShiftedIn;
    RotlAndBytes(a, b);
  }

  /** FL of section 2.4.2 of RFC 3713, bit by bit: to the right word is added what the left word and the key have in
      common, rotated by one; to the left word the bits that the new right word or the key has. */
  lemma FLBits(x: Half, k: Half, i: nat)
    requires i < 32
    ensures var y := FL(x, k);
      && (WordBit(y.r, i) <==> WordBit(x.r, i) != (WordBit(x.l, Below(i)) && WordBit(k.l, Below(i))))
      && (WordBit(y.l, i) <==> WordBit(x.l, i) != (WordBit(y.r, i) || WordBit(k.r, i)))
  {
    hide XorWord, OrWord, RotlAnd, WordBit;
    var y := FL(x, k);
    XorWordBit(RotlAnd(x.l, k.l), x.r, i);
    RotlAndBit(x.l, k.l, i);
    XorWordBit(OrWord(y.r, k.r), x.l, i);
    OrWordBit(y.r, k.r, i);
  }

  /** FL undoes FLInv. */
  lemma FLUndo(y: Half, k: Half)
    ensures FL(FLInv(y, k), k) == y
    ensures FLInv(FL(y, k), k) == y
  {
    hide XorWord, OrWord, RotlAnd;
    var a, b := FLInv(y, k), FL(y, k);
    XorWordFirst(OrWord(y.r, k.r), y.l);
    XorWordFirst(RotlAnd(a.l, k.l), y.r);
    XorWordFirst(RotlAnd(y.l, k.l), y.r);
    XorWordFirst(OrWord(b.r, k.r), y.l);
  }

  lemma XorWordFirst(a: bv32, b: bv32)
    ensures XorWord(a, XorWord(a, b)) == b
  {}

  /** Two Feistel rounds: first the right half is changed, then the left one. */
  function Two(sb: SBoxes, s: State, k1: Half, k2: Half): State
  {
    var d2 := XorHalf(s.d2, F(sb, s.d1, k1));
    var d1 := XorHalf(s.d1, F(sb, d2, k2));
    State(d1, d2)
  }

  function Swap(s: State): State
  {
    State(s.d2, s.d1)
  }

  /** On the swapped state the same two rounds, with the subkeys exchanged, go back. */
  lemma TwoUndo(sb: SBoxes, s: State, k1: Half, k2: Half)
    ensures Two(sb, Swap(Two(sb, s, k1, k2)), k2, k1) == Swap(s)
  {
    hide F, XorHalf;
    var t := Two(sb, s, k1, k2);
    XorHalfTwice(s.d1, F(sb, t.d2, k2));
    XorHalfTwice(s.d2, F(sb, s.d1, k1));
  }

  /** Six rounds under the first six subkeys. */
  function Six(sb: SBoxes, s: State, ks: seq<Half>): State
    requires |ks| >= 6
  {
    Two(sb, Two(sb, Two(sb, s, ks[0], ks[1]), ks[2], ks[3]), ks[4], ks[5])
  }

  function Layer(s: State, k1: Half, k2: Half): State
  {
    State(FL(s.d1, k1), FLInv(s.d2, k2))
  }

  lemma LayerUndo(s: State, k1: Half, k2: Half)
    ensures Layer(Swap(Layer(s, k1, k2)), k2, k1) == Swap(s)
  {
    hide FL, FLInv;
    FLUndo(s.d1, k1);
    FLUndo(s.d2, k2);
  }

  // ----- The network ----------------------------------------------------------------------

  /** nr groups of six rounds with FL layers between them, under 8 * nr - 2 subkeys */
  function Groups(sb: SBoxes, s: State, ks: seq<Half>, nr: nat): State
    requires nr > 0 && |ks| == 8 * nr - 2
    decreases nr
  {
    var t := Six(sb, s, ks);
    if nr == 1 then t else Groups(sb, Layer(t, ks[6], ks[7]), ks[8..], nr - 1)
  }

  /** The same, peeling off the last group. */
  lemma {:induction false} GroupsLast(sb: SBoxes, s: State, ks: seq<Half>, nr: nat)
    requires nr > 1 && |ks| == 8 * nr - 2
    ensures var n := |ks|;
      Groups(sb, s, ks, nr)
      == Six(sb, Layer(Groups(sb, s, ks[..n - 8], nr - 1), ks[n - 8], ks[n - 7]), ks[n - 6..])
    decreases nr
  {
    hide Layer, Six;
    var n := |ks|;
    GroupsStep(sb, s, ks, nr);
    var t := Layer(Six(sb, s, ks), ks[6], ks[7]);
    SixPrefix(sb, s, ks, n - 8);
    if nr == 2 {
      assert ks[8..] == ks[n - 6..];
      GroupsOne(sb, t, ks[8..]);
      GroupsOne(sb, s, ks[..n - 8]);
    } else {
      GroupsLast(sb, t, ks[8..], nr - 1);
      GroupsStep(sb, s, ks[..n - 8], nr - 1);
      assert ks[8..][..n - 16] == ks[..n - 8][8..];
      assert ks[8..][n - 14..] == ks[n - 6..];
    }
  }

  lemma GroupsStep(sb: SBoxes, s: State, ks: seq<Half>, nr: nat)
    requires nr > 1 && |ks| == 8 * nr - 2
    ensures Groups(sb, s, ks, nr) == Groups(sb, Layer(Six(sb, s, ks), ks[6], ks[7]), ks[8..], nr - 1)
  {
    hide Layer, Six;
  }

  lemma GroupsOne(sb: SBoxes, s: State, ks: seq<Half>)
    requires |ks| == 6
    ensures Groups(sb, s, ks, 1) == Six(sb, s, ks)
  {
    hide Layer, Six;
  }

  lemma SixPrefix(sb: SBoxes, s: State, ks: seq<Half>, m: nat)
    requires 6 <= m <= |ks|
    ensures Six(sb, s, ks[..m]) == Six(sb, s, ks)
  {
    hide Two;
  }

  /** The subkeys in reverse order */
  function Reversed(ks: seq<Half>): (r: seq<Half>)
    ensures |r| == |ks| && forall j :: 0 <= j < |ks| ==> r[j] == ks[|ks| - 1 - j]
  {
    seq(|ks|, j requires 0 <= j < |ks| => ks[|ks| - 1 - j])
  }

  lemma SixUndo(sb: SBoxes, s: State, ks: seq<Half>, rs: seq<Half>)
    requires |ks| == 6 && |rs| >= 6 && forall j :: 0 <= j < 6 ==> rs[j] == ks[5 - j]
    ensures Six(sb, Swap(Six(sb, s, ks)), rs) == Swap(s)
  {
    hide Two, Swap;
    var a := Two(sb, s, ks[0], ks[1]);
    var b := Two(sb, a, ks[2], ks[3]);
    TwoUndo(sb, b, ks[4], ks[5]);
    TwoUndo(sb, a, ks[2], ks[3]);
    TwoUndo(sb, s, ks[0], ks[1]);
  }

  /** On the swapped state the network runs backwards under the reversed subkeys. */
  lemma {:induction false} GroupsUndo(sb: SBoxes, s: State, ks: seq<Half>, nr: nat)
    requires nr > 0 && |ks| == 8 * nr - 2
    ensures Groups(sb, Swap(Groups(sb, s, ks, nr)), Reversed(ks), nr) == Swap(s)
    decreases nr
  {
    hide Six, Layer, Groups, Reversed, Swap;
    var n, rs := |ks|, Reversed(ks);
    if nr == 1 {
      GroupsOne(sb, s, ks);
      GroupsOne(sb, Swap(Six(sb, s, ks)), rs);
      SixUndo(sb, s, ks, rs);
    } else {
      var t := Groups(sb, s, ks[..n - 8], nr - 1);
      GroupsLast(sb, s, ks, nr);
      var u := Layer(t, ks[n - 8], ks[n - 7]);
      SixUndo(sb, u, ks[n - 6..], rs);
      LayerUndo(t, ks[n - 8], ks[n - 7]);
      GroupsStep(sb, Swap(Six(sb, u, ks[n - 6..])), rs, nr);
      assert rs[8..] == Reversed(ks[..n - 8]);
      GroupsUndo(sb, s, ks[..n - 8], nr - 1);
    }
  }

  /** The whole cipher: 8 * nr + 2 subkeys, the first and last two for whitening */
  function Crypt(sb: SBoxes, s: State, ks: seq<Half>, nr: nat): State
    requires nr > 0 && |ks| == 8 * nr + 2
  {
    var n := |ks|;
    var t := Groups(sb, State(XorHalf(s.d1, ks[0]), XorHalf(s.d2, ks[1])), ks[2..n - 2], nr);
    State(XorHalf(t.d2, ks[n - 2]), XorHalf(t.d1, ks[n - 1]))
  }

  /** The state after r rounds of section 2.3.1 of RFC 3713, round by round: the odd rounds change the second half and
      the even ones the first, and after every six rounds but the last come the FL layers. Subkey number r stands
      behind the whitening pair and the FL pairs used before it. */
  ghost function AfterRounds(sb: SBoxes, s: State, ks: seq<Half>, nr: nat, r: nat): State
    requires nr > 0 && |ks| == 8 * nr + 2 && r <= 6 * nr
  {
    if r == 0 then State(XorHalf(s.d1, ks[0]), XorHalf(s.d2, ks[1])) else
      var t, i := AfterRounds(sb, s, ks, nr, r - 1), r + 1 + 2 * ((r - 1) / 6);
      var u := if r % 2 == 1 then State(t.d1, XorHalf(t.d2, F(sb, t.d1, ks[i])))
               else State(XorHalf(t.d1, F(sb, t.d2, ks[i])), t.d2);
      if r % 6 == 0 && r < 6 * nr then State(FL(u.d1, ks[i + 1]), FLInv(u.d2, ks[i + 2])) else u
  }

  /** Round e + 1 of group g, counted from 0 */
  lemma AfterNext(sb: SBoxes, s: State, ks: seq<Half>, nr: nat, g: nat, e: nat)
    requires nr > 0 && |ks| == 8 * nr + 2 && g < nr && e < 6
    ensures var t, i := AfterRounds(sb, s, ks, nr, 6 * g + e), 8 * g + e + 2;
      var u := if e % 2 == 0 then State(t.d1, XorHalf(t.d2, F(sb, t.d1, ks[i])))
               else State(XorHalf(t.d1, F(sb, t.d2, ks[i])), t.d2);
      AfterRounds(sb, s, ks, nr, 6 * g + e + 1) == if e == 5 && g + 1 < nr then Layer(u, ks[i + 1], ks[i + 2]) else u
  {
    hide F, FL, FLInv, XorHalf;
    RoundPlace(g, e);
  }

  lemma RoundPlace(g: nat, e: nat)
    requires e < 6
    ensures (6 * g + e) / 6 == g && ((6 * g + e + 1) % 2 == 1 <==> e % 2 == 0) && ((6 * g + e + 1) % 6 == 0 <==> e == 5)
  {
    Arith.DivModUnique(6 * g + e, 6, g, e);
    Arith.DivModUnique(6 * g + e + 1, 2, 3 * g + (e + 1) / 2, (e + 1) % 2);
    if e == 5 { Arith.DivModUnique(6 * g + 6, 6, g + 1, 0); } else { Arith.DivModUnique(6 * g + e + 1, 6, g, e + 1); }
  }

  lemma TwoAfter(sb: SBoxes, s: State, ks: seq<Half>, nr: nat, g: nat, j: nat)
    requires nr > 0 && |ks| == 8 * nr + 2 && g < nr && j < 3
    ensures var t := Two(sb, AfterRounds(sb, s, ks, nr, 6 * g + 2 * j), ks[8 * g + 2 * j + 2], ks[8 * g + 2 * j + 3]);
      AfterRounds(sb, s, ks, nr, 6 * g + 2 * j + 2)
      == if j == 2 && g + 1 < nr then Layer(t, ks[8 * g + 8], ks[8 * g + 9]) else t
  {
    hide *;
    var e, i := 2 * j, 8 * g + 2 * j + 2;
    AfterNext(sb, s, ks, nr, g, e);
    AfterNext(sb, s, ks, nr, g, e + 1);
    TwoIs(sb, AfterRounds(sb, s, ks, nr, 6 * g + e), ks[i], ks[i + 1]);
    assert e % 2 == 0 && (e + 1) % 2 == 1;
  }

  lemma TwoIs(sb: SBoxes, s: State, k1: Half, k2: Half)
    ensures var u := State(s.d1, XorHalf(s.d2, F(sb, s.d1, k1)));
      Two(sb, s, k1, k2) == State(XorHalf(u.d1, F(sb, u.d2, k2)), u.d2)
  {
    hide F, XorHalf;
  }

  lemma SixAfter(sb: SBoxes, s: State, ks: seq<Half>, nr: nat, g: nat)
    requires nr > 0 && |ks| == 8 * nr + 2 && g < nr
    ensures var t := Six(sb, AfterRounds(sb, s, ks, nr, 6 * g), ks[8 * g + 2..]);
      AfterRounds(sb, s, ks, nr, 6 * g + 6)
      == if g + 1 < nr then Layer(t, ks[8 * g + 8], ks[8 * g + 9]) else t
  {
    hide *;
    TwoAfter(sb, s, ks, nr, g, 0);
    TwoAfter(sb, s, ks, nr, g, 1);
    TwoAfter(sb, s, ks, nr, g, 2);
    SixIs(sb, AfterRounds(sb, s, ks, nr, 6 * g), ks, 8 * g + 2);
  }

  lemma {:induction false} GroupsAfter(sb: SBoxes, s: State, ks: seq<Half>, nr: nat, g: nat)
    requires nr > 0 && |ks| == 8 * nr + 2 && g < nr
    ensures Groups(sb, AfterRounds(sb, s, ks, nr, 6 * g), ks[8 * g + 2..|ks| - 2], nr - g)
         == AfterRounds(sb, s, ks, nr, 6 * nr)
    decreases nr - g
  {
    hide *;
    var m := |ks| - 2;
    var t, tail := AfterRounds(sb, s, ks, nr, 6 * g), ks[8 * g + 2..m];
    SixAfter(sb, s, ks, nr, g);
    SixSlice(sb, t, ks, 8 * g + 2, m);
    if g + 1 == nr {
      GroupsOne(sb, t, tail);
    } else {
      GroupsStep(sb, t, tail, nr - g);
      assert tail[6] == ks[8 * g + 8] && tail[7] == ks[8 * g + 9] && tail[8..] == ks[8 * (g + 1) + 2..m];
      GroupsAfter(sb, s, ks, nr, g + 1);
    }
  }

  /** The cipher is the one of the standard: the rounds in turn, and the halves exchanged under the last keys. */
  lemma CryptIsRounds(sb: SBoxes, s: State, ks: seq<Half>, nr: nat)
    requires nr > 0 && |ks| == 8 * nr + 2
    ensures var t := AfterRounds(sb, s, ks, nr, 6 * nr);
      Crypt(sb, s, ks, nr) == State(XorHalf(t.d2, ks[|ks| - 2]), XorHalf(t.d1, ks[|ks| - 1]))
  {
    GroupsAfter(sb, s, ks, nr, 0);
    FirstKeys(sb, s, ks, nr);
    hide Groups, AfterRounds, XorHalf;
  }

  lemma FirstKeys(sb: SBoxes, s: State, ks: seq<Half>, nr: nat)
    requires nr > 0 && |ks| == 8 * nr + 2
    ensures AfterRounds(sb, s, ks, nr, 0) == State(XorHalf(s.d1, ks[0]), XorHalf(s.d2, ks[1]))
  {
    hide XorHalf;
  }

  /** The subkeys as mbedtls_camellia_setkey_dec arranges them: the inner ones reversed, the two
      whitening pairs exchanged as pairs */
  function DecKeys(ks: seq<Half>): (r: seq<Half>)
    requires |ks| >= 4
    ensures |r| == |ks|
  {
    var n := |ks|;
    [ks[n - 2], ks[n - 1]] + Reversed(ks[2..n - 2]) + [ks[0], ks[1]]
  }

  /** Decryption undoes encryption, for every S-box, key schedule and block. */
  lemma CryptUndo(sb: SBoxes, s: State, ks: seq<Half>, nr: nat)
    requires nr > 0 && |ks| == 8 * nr + 2
    ensures Crypt(sb, Crypt(sb, s, ks, nr), DecKeys(ks), nr) == s
  {
    hide Groups, XorHalf, Reversed;
    var n, ds := |ks|, DecKeys(ks);
    var a := State(XorHalf(s.d1, ks[0]), XorHalf(s.d2, ks[1]));
    var t := Groups(sb, a, ks[2..n - 2], nr);
    XorHalfTwice(t.d2, ks[n - 2]);
    XorHalfTwice(t.d1, ks[n - 1]);
    assert ds[2..n - 2] == Reversed(ks[2..n - 2]);
    GroupsUndo(sb, a, ks[2..n - 2], nr);
    XorHalfTwice(s.d1, ks[0]);
    XorHalfTwice(s.d2, ks[1]);
    assert ds[0] == ks[n - 2] && ds[1] == ks[n - 1] && ds[n - 2] == ks[0] && ds[n - 1] == ks[1];
  }

  // ----- mbedtls_camellia_setkey_dec ------------------------------------------------------

  /** mbedtls_camellia_context */
  class Context {
    var nr: nat
    const rk: array<bv32>

    constructor ()
      ensures nr == 0 && fresh(rk) && rk.Length == 68
    {
      nr := 0;
      rk := new bv32[68];
    }
  }

  /** The subkeys stored in a word array, two words each */
  ghost function Subkeys(rk: seq<bv32>, count: nat): (ks: seq<Half>)
    requires 2 * count <= |rk|
    ensures |ks| == count && forall j :: 0 <= j < count ==> ks[j] == Half(rk[2 * j], rk[2 * j + 1])
  {
    seq(count, j requires 0 <= j < count => Half(rk[2 * j], rk[2 * j + 1]))
  }

  /** The key length fixes the number of groups. */
  function GroupCount(keybits: nat): nat
  {
    if keybits == 128 then 3 else if keybits == 192 || keybits == 256 then 4 else 0
  }

  /** MBEDTLS_ERR_CAMELLIA_BAD_INPUT_DATA */
  const BAD_INPUT_DATA: int := -0x0024

  /** One subkey: *RK++ = *SK++ twice */
  method MovePair(rk: array<bv32>, to: nat, sk: array<bv32>, from: nat, ghost done: seq<Half>)
    requires rk != sk && 2 * to + 2 <= rk.Length && 2 * from + 2 <= sk.Length
    requires Subkeys(rk[..], to) == done
    modifies rk
    ensures Subkeys(rk[..], to + 1) == done + [Half(sk[2 * from], sk[2 * from + 1])]
  {
    rk[2 * to] := sk[2 * from];
    rk[2 * to + 1] := sk[2 * from + 1];
  }

  /** Two subkeys in a row: the four copies before and after the loop */
  method MoveTwoPairs(rk: array<bv32>, to: nat, sk: array<bv32>, from: nat, ghost done: seq<Half>, ghost ks: seq<Half>)
    requires rk != sk && 2 * to + 4 <= rk.Length && 2 * from + 4 <= sk.Length
    requires Subkeys(rk[..], to) == done
    requires from + 2 <= |ks| && 2 * |ks| <= sk.Length && Subkeys(sk[..], |ks|) == ks
    modifies rk
    ensures Subkeys(rk[..], to + 2) == done + [ks[from], ks[from + 1]]
  {
    hide *;
    MovePair(rk, to, sk, from, done);
    assert ks[from] == Half(sk[2 * from], sk[2 * from + 1]);
    MovePair(rk, to + 1, sk, from + 1, done + [ks[from]]);
    assert ks[from + 1] == Half(sk[2 * (from + 1)], sk[2 * (from + 1) + 1]);
    assert (done + [ks[from]]) + [ks[from + 1]] == done + [ks[from], ks[from + 1]];
  }

  /** The loop of the schedule: count subkeys from sk on downwards, two words forwards each */
  method MoveReversed(rk: array<bv32>, to0: nat, sk: array<bv32>, sk0: nat, count: nat, ghost done: seq<Half>,
                      ghost ks: seq<Half>)
    requires rk != sk && 2 * (to0 + count) <= rk.Length && sk0 == count + 1 && |ks| == count + 4
    requires 2 * |ks| <= sk.Length && Subkeys(sk[..], |ks|) == ks && Subkeys(rk[..], to0) == done
    modifies rk
    ensures Subkeys(rk[..], to0 + count) == done + Reversed(ks[2..count + 2])
  {
    hide *;
    ghost var rs := Reversed(ks[2..count + 2]);
    var i, to, from := count, to0, sk0;
    assert done + rs[..0] == done;
    while i > 0
      invariant 0 <= i <= count && to == to0 + (count - i) && from == i + 1
      invariant Subkeys(rk[..], to) == done + rs[..count - i]
    {
      MovePair(rk, to, sk, from, done + rs[..count - i]);
      NextReversed(ks, count - i);
      assert ks[from] == Half(sk[2 * from], sk[2 * from + 1]);
      assert (done + rs[..count - i]) + [ks[from]] == done + rs[..count - i + 1];
      to, from := to + 1, from + 1;
      i, from := i - 1, from - 2;
    }
    assert rs[..count] == rs;
  }

  /** The copying part of the schedule, for idx = 0 or 1 */
  method ReverseSchedule(rk: array<bv32>, cty: array<bv32>, idx: nat)
    requires rk != cty && rk.Length == 68 && cty.Length == 68 && idx <= 1
    modifies rk
    ensures Subkeys(rk[..], 26 + 8 * idx) == DecKeys(Subkeys(cty[..], 26 + 8 * idx))
  {
    hide *;
    ghost var m := 24 + 8 * idx;
    ghost var ks := Subkeys(cty[..], m + 2);
    var sk, to := 24 + 8 * idx, 0;
    EmptySubkeys(rk[..]);
    MoveTwoPairs(rk, to, cty, sk, [], ks);
    to, sk := to + 2, sk + 2;
    sk := sk - 3;
    ghost var head := [ks[m], ks[m + 1]];
    assert [] + head == head;
    MoveReversed(rk, to, cty, sk, 22 + 8 * idx, head, ks);
    to, sk := to + (22 + 8 * idx), sk - (22 + 8 * idx);
    sk := sk - 1;
    ghost var body := head + Reversed(ks[2..m]);
    assert sk == 0 && to == m;
    MoveTwoPairs(rk, to, cty, sk, body, ks);
    DecKeysIs(ks, m);
  }

  lemma EmptySubkeys(rk: seq<bv32>)
    ensures Subkeys(rk, 0) == []
  {}

  lemma TwoSubkeys(sk: seq<bv32>, j: nat, count: nat)
    requires 2 * count <= |sk| && j + 2 <= count
    ensures var ks := Subkeys(sk, count);
      [Half(sk[2 * j], sk[2 * j + 1]), Half(sk[2 * j + 2], sk[2 * j + 3])] == [ks[j], ks[j + 1]]
  {}

  /** mbedtls_camellia_setkey_dec, the encryption key schedule being given in cty */
  method SetkeyDec(ctx: Context, cty: Context, keybits: nat) returns (ret: int)
    requires ctx != cty && ctx.rk != cty.rk && ctx.rk.Length == 68 && cty.rk.Length == 68
    requires cty.nr == GroupCount(keybits)
    modifies ctx, ctx.rk
    ensures ret == if GroupCount(keybits) == 0 then BAD_INPUT_DATA else 0
    ensures ret == 0 ==> ctx.nr == cty.nr
    ensures ret == 0 ==> Subkeys(ctx.rk[..], 8 * cty.nr + 2) == DecKeys(Subkeys(cty.rk[..], 8 * cty.nr + 2))
  {
    hide *;
    CountIs(keybits);
    if keybits != 128 && keybits != 192 && keybits != 256 { return BAD_INPUT_DATA; }
    ctx.nr := cty.nr;
    var idx := if ctx.nr == 4 then 1 else 0;
    ReverseSchedule(ctx.rk, cty.rk, idx);
    assert 26 + 8 * idx == 8 * cty.nr + 2;
    return 0;
  }

  lemma CountIs(keybits: nat)
    ensures GroupCount(keybits) == if keybits == 128 then 3 else if keybits == 192 || keybits == 256 then 4 else 0
    ensures BAD_INPUT_DATA == -0x0024
  {}

  lemma NextReversed(ks: seq<Half>, j: nat)
    requires j + 4 < |ks|
    ensures var rs := Reversed(ks[2..|ks| - 2]); j < |rs| && rs[..j + 1] == rs[..j] + [ks[|ks| - 3 - j]]
  {}

  lemma DecKeysIs(ks: seq<Half>, m: nat)
    requires |ks| == m + 2 >= 4
    ensures DecKeys(ks) == ([ks[m], ks[m + 1]] + Reversed(ks[2..m])) + [ks[0], ks[1]]
  {}

  // ----- mbedtls_camellia_crypt_ecb -------------------------------------------------------

  ghost function StateOf(x: seq<bv32>): State
    requires |x| == 4
  {
    State(Half(x[0], x[1]), Half(x[2], x[3]))
  }

  /** camellia_feistel( x + from, k, x + to ) on the state array */
  method Feistel(sb: SBoxes, x: array<bv32>, from: nat, rk: array<bv32>, k: nat, to: nat)
    requires x.Length == 4 && x != rk && 2 * k + 2 <= rk.Length && {from, to} == {0, 2}
    modifies x
    ensures x[from] == old(x[from]) && x[from + 1] == old(x[from + 1])
    ensures Half(x[to], x[to + 1])
         == XorHalf(old(Half(x[to], x[to + 1])), F(sb, Half(x[from], x[from + 1]), Half(rk[2 * k], rk[2 * k + 1])))
  {
    hide XorWord, Word, ByteOf, Rotl8, Rotl16, Rotl24;
    var i0 := XorWord(x[from], rk[2 * k]);
    var i1 := XorWord(x[from + 1], rk[2 * k + 1]);
    i0 := Word(sb.s1(ByteOf(i0, 24)), sb.s2(ByteOf(i0, 16)), sb.s3(ByteOf(i0, 8)), sb.s4(ByteOf(i0, 0)));
    i1 := Word(sb.s2(ByteOf(i1, 24)), sb.s3(ByteOf(i1, 16)), sb.s4(ByteOf(i1, 8)), sb.s1(ByteOf(i1, 0)));
    i0 := XorWord(i0, Rotl8(i1));
    i1 := XorWord(i1, Rotl16(i0));
    i0 := XorWord(i0, Rotl24(i1));
    i1 := XorWord(i1, Rotl24(i0));
    assert from == 0 ==> to == 2;
    x[to] := XorWord(x[to], i1);
    x[to + 1] := XorWord(x[to + 1], i0);
  }

  /** Two rounds in place. */
  method TwoRounds(sb: SBoxes, x: array<bv32>, rk: array<bv32>, k: nat)
    requires x.Length == 4 && x != rk && 2 * k + 4 <= rk.Length
    modifies x
    ensures StateOf(x[..])
         == Two(sb, old(StateOf(x[..])), Half(rk[2 * k], rk[2 * k + 1]), Half(rk[2 * k + 2], rk[2 * k + 3]))
  {
    hide F, XorHalf;
    Feistel(sb, x, 0, rk, k, 2);
    Feistel(sb, x, 2, rk, k + 1, 0);
  }

  /** Six rounds in place. */
  method SixRounds(sb: SBoxes, x: array<bv32>, rk: array<bv32>, k: nat, ghost ks: seq<Half>)
    requires x.Length == 4 && x != rk && |ks| >= k + 6 && 2 * |ks| <= rk.Length && Subkeys(rk[..], |ks|) == ks
    modifies x
    ensures StateOf(x[..]) == Six(sb, old(StateOf(x[..])), ks[k..])
  {
    hide *;
    TwoSubkeys(rk[..], k, |ks|);
    TwoSubkeys(rk[..], k + 2, |ks|);
    TwoSubkeys(rk[..], k + 4, |ks|);
    ghost var s := StateOf(x[..]);
    SixIs(sb, s, ks, k);
    TwoRounds(sb, x, rk, k);
    TwoRounds(sb, x, rk, k + 2);
    TwoRounds(sb, x, rk, k + 4);
  }

  lemma SixIs(sb: SBoxes, s: State, ks: seq<Half>, k: nat)
    requires |ks| >= k + 6
    ensures Six(sb, s, ks[k..])
         == Two(sb, Two(sb, Two(sb, s, ks[k], ks[k + 1]), ks[k + 2], ks[k + 3]), ks[k + 4], ks[k + 5])
  {
    hide Two;
  }

  /** The macros between the groups, in place. */
  method FLLayer(x: array<bv32>, rk: array<bv32>, k: nat, ghost ks: seq<Half>)
    requires x.Length == 4 && x != rk && |ks| >= k + 2 && 2 * |ks| <= rk.Length && Subkeys(rk[..], |ks|) == ks
    modifies x
    ensures StateOf(x[..]) == Layer(old(StateOf(x[..])), ks[k], ks[k + 1])
  {
    hide XorWord, OrWord, RotlAnd, Subkeys;
    TwoSubkeys(rk[..], k, |ks|);
    x[1] := XorWord(RotlAnd(x[0], rk[2 * k]), x[1]);
    x[0] := XorWord(OrWord(x[1], rk[2 * k + 1]), x[0]);
    x[2] := XorWord(OrWord(x[3], rk[2 * k + 3]), x[2]);
    x[3] := XorWord(RotlAnd(x[2], rk[2 * k + 2]), x[3]);
  }

  /** The round loop. */
  method RoundLoop(sb: SBoxes, x: array<bv32>, rk: array<bv32>, nr0: nat, ghost ks: seq<Half>) returns (k: nat)
    requires x.Length == 4 && x != rk && nr0 > 0 && |ks| == 8 * nr0 + 2
    requires 2 * |ks| <= rk.Length && Subkeys(rk[..], |ks|) == ks
    modifies x
    ensures k == |ks| - 2 && StateOf(x[..]) == Groups(sb, old(StateOf(x[..])), ks[2..|ks| - 2], nr0)
  {
    hide *;
    ghost var s, m := StateOf(x[..]), |ks| - 2;
    var nr := nr0;
    k := 2;
    while nr > 0
      invariant 0 <= nr <= nr0 && 2 <= k <= m == |ks| - 2
      invariant if nr == 0 then k == m else m - k == 8 * nr - 2
      invariant nr > 0 ==> Groups(sb, StateOf(x[..]), ks[k..m], nr) == Groups(sb, s, ks[2..m], nr0)
      invariant nr == 0 ==> StateOf(x[..]) == Groups(sb, s, ks[2..m], nr0)
    {
      nr := nr - 1;
      ghost var was, tail := StateOf(x[..]), ks[k..m];
      SixRounds(sb, x, rk, k, ks);
      SixSlice(sb, was, ks, k, m);
      k := k + 6;
      if nr > 0 {
        FLLayer(x, rk, k, ks);
        GroupsStep(sb, was, tail, nr + 1);
        assert tail[6] == ks[k] && tail[7] == ks[k + 1] && tail[8..] == ks[k + 2..m];
        k := k + 2;
      } else {
        GroupsOne(sb, was, tail);
      }
    }
  }

  lemma SixSlice(sb: SBoxes, s: State, ks: seq<Half>, k: nat, m: nat)
    requires k + 6 <= m <= |ks|
    ensures Six(sb, s, ks[k..]) == Six(sb, s, ks[k..m])
  {
    hide Two;
  }

  function GetBE(b: Bytes): bv32
    requires |b| == 4
  {
    Word(b[0], b[1], b[2], b[3])
  }

  function PutBE(x: bv32): (b: Bytes)
    ensures |b| == 4
  {
    [ByteOf(x, 24), ByteOf(x, 16), ByteOf(x, 8), ByteOf(x, 0)]
  }

  lemma BytesOfWord(b: Bytes)
    requires |b| == 4
    ensures PutBE(GetBE(b)) == b
  {}

  lemma WordOfBytes(x: bv32)
    ensures GetBE(PutBE(x)) == x
  {}

  /** A block of 16 bytes as a state, and back. */
  function Load(b: Bytes): State
    requires |b| == 16
  {
    State(Half(GetBE(b[0..4]), GetBE(b[4..8])), Half(GetBE(b[8..12]), GetBE(b[12..16])))
  }

  function Store(s: State): (b: Bytes)
    ensures |b| == 16
  {
    PutBE(s.d1.l) + PutBE(s.d1.r) + PutBE(s.d2.l) + PutBE(s.d2.r)
  }

  lemma LoadStore(s: State, b: Bytes)
    ensures Load(Store(s)) == s
    ensures |b| == 16 ==> Store(Load(b)) == b
  {
    hide GetBE, PutBE;
    var t := Store(s);
    assert t[0..4] == PutBE(s.d1.l) && t[4..8] == PutBE(s.d1.r) && t[8..12] == PutBE(s.d2.l)
      && t[12..16] == PutBE(s.d2.r);
    WordOfBytes(s.d1.l);
    WordOfBytes(s.d1.r);
    WordOfBytes(s.d2.l);
    WordOfBytes(s.d2.r);
    if |b| == 16 {
      BytesOfWord(b[0..4]);
      BytesOfWord(b[4..8]);
      BytesOfWord(b[8..12]);
      BytesOfWord(b[12..16]);
      Quarters(b);
    }
  }

  lemma Quarters(b: Bytes)
    requires |b| == 16
    ensures b[0..4] + b[4..8] + b[8..12] + b[12..16] == b
  {
    assert b[0..4] + b[4..8] == b[0..8];
    assert b[0..8] + b[8..12] == b[0..12];
    assert b[0..12] + b[12..16] == b;
  }

  /** The cipher on bytes. */
  ghost function CryptBytes(sb: SBoxes, b: Bytes, ks: seq<Half>, nr: nat): (r: Bytes)
    requires |b| == 16 && nr > 0 && |ks| == 8 * nr + 2
    ensures |r| == 16
  {
    Store(Crypt(sb, Load(b), ks, nr))
  }

  /** The block law of section 2.3 of RFC 3713: decryption is the same procedure on the reversed subkeys. */
  lemma DecryptUndoesEncrypt(sb: SBoxes, b: Bytes, ks: seq<Half>, nr: nat)
    requires |b| == 16 && nr > 0 && |ks| == 8 * nr + 2
    ensures CryptBytes(sb, CryptBytes(sb, b, ks, nr), DecKeys(ks), nr) == b
  {
    hide Crypt, Load, Store, DecKeys;
    CryptUndo(sb, Load(b), ks, nr);
    LoadStore(Crypt(sb, Load(b), ks, nr), b);
  }

  /** mbedtls_camellia_crypt_ecb, for encryption and decryption alike */
  method CryptEcb(ctx: Context, sb: SBoxes, input: array<bv8>, output: array<bv8>)
    requires (ctx.nr == 3 || ctx.nr == 4) && ctx.rk.Length == 68 && input.Length == 16 && output.Length == 16
    modifies output
    ensures output[..] == CryptBytes(sb, old(input[..]), Subkeys(ctx.rk[..], 8 * ctx.nr + 2), ctx.nr)
  {
    hide *;
    var rk, nr := ctx.rk, ctx.nr;
    ghost var ks := Subkeys(rk[..], 8 * nr + 2);
    var x := LoadBlock(input);
    ghost var s := StateOf(x[..]);
    TwoSubkeys(rk[..], 0, |ks|);
    TwoSubkeys(rk[..], 8 * nr, |ks|);
    WhitenFirst(x, rk, ks);
    var k := RoundLoop(sb, x, rk, nr, ks);
    WhitenLast(x, rk, k, ks);
    CryptIs(sb, s, ks, nr);
    StoreBlock(x, output);
  }

  method LoadBlock(input: array<bv8>) returns (x: array<bv32>)
    requires input.Length == 16
    ensures fresh(x) && x.Length == 4 && StateOf(x[..]) == Load(input[..])
  {
    hide GetBE;
    x := new bv32[4];
    ghost var b := input[..];
    assert b[0..4] == input[0..4] && b[4..8] == input[4..8] && b[8..12] == input[8..12] && b[12..16] == input[12..16];
    x[0] := GetBE(input[0..4]);
    x[1] := GetBE(input[4..8]);
    x[2] := GetBE(input[8..12]);
    x[3] := GetBE(input[12..16]);
  }

  /** The output takes the halves in exchanged order; x already has them exchanged by name. */
  method StoreBlock(x: array<bv32>, output: array<bv8>)
    requires x.Length == 4 && output.Length == 16
    modifies output
    ensures output[..] == Store(Swap(StateOf(x[..])))
  {
    hide PutBE;
    var b := PutBE(x[2]) + PutBE(x[3]) + PutBE(x[0]) + PutBE(x[1]);
    forall i | 0 <= i < 16 { output[i] := b[i]; }
    assert output[..] == b;
  }

  method WhitenFirst(x: array<bv32>, rk: array<bv32>, ghost ks: seq<Half>)
    requires x.Length == 4 && x != rk && rk.Length >= 4 && |ks| >= 2
    requires [Half(rk[0], rk[1]), Half(rk[2], rk[3])] == [ks[0], ks[1]]
    modifies x
    ensures StateOf(x[..]) == State(XorHalf(old(StateOf(x[..])).d1, ks[0]), XorHalf(old(StateOf(x[..])).d2, ks[1]))
  {
    hide XorWord;
    assert ks[0] == Half(rk[0], rk[1]) && ks[1] == Half(rk[2], rk[3]);
    x[0] := XorWord(x[0], rk[0]);
    x[1] := XorWord(x[1], rk[1]);
    x[2] := XorWord(x[2], rk[2]);
    x[3] := XorWord(x[3], rk[3]);
  }

  method WhitenLast(x: array<bv32>, rk: array<bv32>, k: nat, ghost ks: seq<Half>)
    requires x.Length == 4 && x != rk && 2 * k + 4 <= rk.Length && k + 2 <= |ks|
    requires [Half(rk[2 * k], rk[2 * k + 1]), Half(rk[2 * k + 2], rk[2 * k + 3])] == [ks[k], ks[k + 1]]
    modifies x
    ensures StateOf(x[..]) == State(XorHalf(old(StateOf(x[..])).d1, ks[k + 1]), XorHalf(old(StateOf(x[..])).d2, ks[k]))
  {
    hide XorWord;
    assert ks[k] == Half(rk[2 * k], rk[2 * k + 1]) && ks[k + 1] == Half(rk[2 * k + 2], rk[2 * k + 3]);
    x[2] := XorWord(x[2], rk[2 * k]);
    x[3] := XorWord(x[3], rk[2 * k + 1]);
    x[0] := XorWord(x[0], rk[2 * k + 2]);
    x[1] := XorWord(x[1], rk[2 * k + 3]);
  }

  lemma CryptIs(sb: SBoxes, s: State, ks: seq<Half>, nr: nat)
    requires nr > 0 && |ks| == 8 * nr + 2
    ensures var n := |ks|;
      var t := Groups(sb, State(XorHalf(s.d1, ks[0]), XorHalf(s.d2, ks[1])), ks[2..n - 2], nr);
      Crypt(sb, s, ks, nr) == Swap(State(XorHalf(t.d1, ks[n - 1]), XorHalf(t.d2, ks[n - 2])))
    ensures forall b: Bytes :: |b| == 16 && s == Load(b) ==> CryptBytes(sb, b, ks, nr) == Store(Crypt(sb, s, ks, nr))
  {
    hide Groups, XorHalf, Load, Store;
  }
}
