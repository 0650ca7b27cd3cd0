/** AES-XTS with ciphertext stealing (mbedtls_aes_crypt_xts), over an abstract block function. */
module Xts {
  import opened Blocks

  // ----- The tweak ------------------------------------------------------------------------

  /** Multiplication of the tweak by the primitive element, as section 5.2 of IEEE Std 1619-2007
      gives it byte by byte */
  function TimesAlpha(x: Bytes): (r: Bytes)
    requires |x| == 16
    ensures |r| == 16
  {
    seq(16, i requires 0 <= i < 16 => if i == 0 then AlphaFirst(x[15], x[0]) else AlphaByte(x[i - 1], x[i]))
  }

  function AlphaFirst(last: bv8, first: bv8): bv8
  {
    (first << 1) ^ (if last >> 7 == 1 then 0x87 else 0)
  }

  function AlphaByte(below: bv8, here: bv8): bv8
  {
    (here << 1) ^ (below >> 7)
  }

  /** Bit i of a block read as a polynomial of degree below 128 over GF(2): bit i % 8 of byte i / 8 */
  ghost predicate BlockBit(x: Bytes, i: nat)
    requires |x| == 16 && i < 128
  {
    Bit(x[i / 8], i % 8)
  }

  /** TimesAlpha is multiplication by x modulo x^128 + x^7 + x^2 + x + 1 (section 5.2 of IEEE Std 1619-2007): every
      coefficient moves up by one, and where x^128 would appear x^7 + x^2 + x + 1 is added. */
  lemma TimesAlphaBits(x: Bytes, i: nat)
    requires |x| == 16 && i < 128
    ensures BlockBit(TimesAlpha(x), i) <==> ((i > 0 && BlockBit(x, i - 1)) != (BlockBit(x, 127) && i in {0, 1, 2, 7}))
  {
    hide *;
    var k, j := i / 8, i % 8;
    BlockBitIs(TimesAlpha(x), i);
    BlockBitIs(x, 127);
    AlphaAt(x, k);
    if i > 0 {
      BlockBitIs(x, i - 1);
      BitBefore(i);
    }
    if k == 0 { FirstBits(x[15], x[0], j); } else { ByteBits(x[k - 1], x[k], j); }
  }

  lemma BlockBitIs(x: Bytes, i: nat)
    requires |x| == 16 && i < 128
    ensures BlockBit(x, i) <==> Bit(x[i / 8], i % 8)
  {}

  lemma AlphaAt(x: Bytes, k: nat)
    requires |x| == 16 && k < 16
    ensures TimesAlpha(x)[k] == if k == 0 then AlphaFirst(x[15], x[0]) else AlphaByte(x[k - 1], x[k])
  {
    hide AlphaFirst, AlphaByte;
  }

  lemma BitBefore(i: nat)
    requires i > 0
    ensures if i % 8 == 0 then (i - 1) / 8 == i / 8 - 1 && (i - 1) % 8 == 7
            else (i - 1) / 8 == i / 8 && (i - 1) % 8 == i % 8 - 1
  {}

  lemma FirstBits(last: bv8, first: bv8, i: nat)
    requires i < 8
    ensures Bit(AlphaFirst(last, first), i) <==> ((i > 0 && Bit(first, i - 1)) != (Bit(last, 7) && i in {0, 1, 2, 7}))
  {
    if i == 0 {} else if i == 1 {} else if i == 2 {} else if i == 3 {} else if i == 4 {} else if i == 5 {}
    else if i == 6 {} else {}
  }

  lemma ByteBits(below: bv8, here: bv8, i: nat)
    requires i < 8
    ensures Bit(AlphaByte(below, here), i) <==> if i == 0 then Bit(below, 7) else Bit(here, i - 1)
  {
    if i == 0 {} else if i == 1 {} else if i == 2 {} else if i == 3 {} else if i == 4 {} else if i == 5 {}
    else if i == 6 {} else {}
  }

  function GetLE64(x: Bytes): bv64
    requires |x| == 8
  {
    (x[0] as bv64) | (x[1] as bv64 << 8) | (x[2] as bv64 << 16) | (x[3] as bv64 << 24)
    | (x[4] as bv64 << 32) | (x[5] as bv64 << 40) | (x[6] as bv64 << 48) | (x[7] as bv64 << 56)
  }

  function ByteLE(v: bv64, i: bv6): bv8
  {
    ((v >> i) & 0xff) as bv8
  }

  function PutLE64(v: bv64): (r: Bytes)
    ensures |r| == 8
  {
    [ByteLE(v, 0), ByteLE(v, 8), ByteLE(v, 16), ByteLE(v, 24), ByteLE(v, 32), ByteLE(v, 40), ByteLE(v, 48),
     ByteLE(v, 56)]
  }

  /** Reading a byte of a word put together from bytes. */
  lemma BytesOfWord(x: Bytes)
    requires |x| == 8
    ensures PutLE64(GetLE64(x)) == x
  {}

  // The word operations of the code, by name, so that proofs about bytes need no bit-level facts.

  function Doubled(v: bv64): bv64 { v << 1 }

  function Mixed(v: bv64, c: bv64): bv64 { v ^ c }

  /** 0x0087 >> (8 - ((b >> 63) << 3)): the reduction word, if the top bit is lost */
  function Reduction(b: bv64): bv64 { 0x87 >> ((8 - ((b >> 63) << 3)) as bv7) }

  function TopBit(a: bv64): bv64 { a >> 63 }

  ghost predicate IsByte(c: bv64) { c & 0xff == c }

  function LowByte(first: bv8, c: bv8): bv8 { (first << 1) ^ c }

  /** One bit to the left: every byte takes the top bit of the one below. */
  lemma BytesOfShift(v: bv64)
    ensures ByteLE(Doubled(v), 0) == LowByte(ByteLE(v, 0), 0)
    ensures ByteLE(Doubled(v), 8) == AlphaByte(ByteLE(v, 0), ByteLE(v, 8))
    ensures ByteLE(Doubled(v), 16) == AlphaByte(ByteLE(v, 8), ByteLE(v, 16))
    ensures ByteLE(Doubled(v), 24) == AlphaByte(ByteLE(v, 16), ByteLE(v, 24))
    ensures ByteLE(Doubled(v), 32) == AlphaByte(ByteLE(v, 24), ByteLE(v, 32))
    ensures ByteLE(Doubled(v), 40) == AlphaByte(ByteLE(v, 32), ByteLE(v, 40))
    ensures ByteLE(Doubled(v), 48) == AlphaByte(ByteLE(v, 40), ByteLE(v, 48))
    ensures ByteLE(Doubled(v), 56) == AlphaByte(ByteLE(v, 48), ByteLE(v, 56))
  {}

  /** A byte-sized word only meets the lowest byte. */
  lemma BytesOfCarry(v: bv64, c: bv64)
    requires IsByte(c)
    ensures ByteLE(Mixed(Doubled(v), c), 0) == LowByte(ByteLE(v, 0), ByteLE(c, 0))
    ensures ByteLE(Mixed(v, c), 8) == ByteLE(v, 8) && ByteLE(Mixed(v, c), 16) == ByteLE(v, 16)
    ensures ByteLE(Mixed(v, c), 24) == ByteLE(v, 24) && ByteLE(Mixed(v, c), 32) == ByteLE(v, 32)
    ensures ByteLE(Mixed(v, c), 40) == ByteLE(v, 40) && ByteLE(Mixed(v, c), 48) == ByteLE(v, 48)
    ensures ByteLE(Mixed(v, c), 56) == ByteLE(v, 56)
  {}

  /** The reduction word. */
  lemma ReductionByte(b: bv64, first: bv8)
    ensures IsByte(Reduction(b)) && LowByte(first, ByteLE(Reduction(b), 0)) == AlphaFirst(ByteLE(b, 56), first)
  {
    assert ByteLE(b, 56) >> 7 == 1 <==> b >> 63 == 1;
    assert b >> 63 == 0 || b >> 63 == 1;
    if b >> 63 == 1 { assert Reduction(b) == 0x87; } else { assert Reduction(b) == 0; }
  }

  /** The bit carried between the halves. */
  lemma CarriedBit(a: bv64, middle: bv8)
    ensures IsByte(TopBit(a)) && LowByte(middle, ByteLE(TopBit(a), 0)) == AlphaByte(ByteLE(a, 56), middle)
  {
    assert ByteLE(TopBit(a), 0) == ByteLE(a, 56) >> 7;
  }

  lemma OrIsMixed(a: bv64, b: bv64)
    ensures TopBit(a) | Doubled(b) == Mixed(Doubled(b), TopBit(a))
  {}

  lemma PutBytes(v: bv64)
    ensures PutLE64(v) == [ByteLE(v, 0), ByteLE(v, 8), ByteLE(v, 16), ByteLE(v, 24),
                           ByteLE(v, 32), ByteLE(v, 40), ByteLE(v, 48), ByteLE(v, 56)]
  {}

  /** The bytes of a word moved up a bit, with c put in below. */
  lemma HalfShifted(x: Bytes, c: bv64)
    requires |x| == 8 && IsByte(c)
    ensures PutLE64(Mixed(Doubled(GetLE64(x)), c))
         == [LowByte(x[0], ByteLE(c, 0)), AlphaByte(x[0], x[1]), AlphaByte(x[1], x[2]), AlphaByte(x[2], x[3]),
             AlphaByte(x[3], x[4]), AlphaByte(x[4], x[5]), AlphaByte(x[5], x[6]), AlphaByte(x[6], x[7])]
  {
    hide *;
    var v := GetLE64(x);
    BytesOfWord(x);
    PutBytes(v);
    PutBytes(Mixed(Doubled(v), c));
    BytesOfShift(v);
    BytesOfCarry(v, c);
    BytesOfCarry(Doubled(v), c);
  }

  lemma AlphaIs(x: Bytes)
    requires |x| == 16
    ensures TimesAlpha(x)[0..8]
         == [AlphaFirst(x[15], x[0]), AlphaByte(x[0], x[1]), AlphaByte(x[1], x[2]), AlphaByte(x[2], x[3]),
             AlphaByte(x[3], x[4]), AlphaByte(x[4], x[5]), AlphaByte(x[5], x[6]), AlphaByte(x[6], x[7])]
  {
    hide AlphaByte, AlphaFirst;
  }

  lemma AlphaHigh(x: Bytes)
    requires |x| == 16
    ensures TimesAlpha(x)[8..16]
         == [AlphaByte(x[7], x[8]), AlphaByte(x[8], x[9]), AlphaByte(x[9], x[10]), AlphaByte(x[10], x[11]),
             AlphaByte(x[11], x[12]), AlphaByte(x[12], x[13]), AlphaByte(x[13], x[14]), AlphaByte(x[14], x[15])]
  {
    hide AlphaByte, AlphaFirst;
  }

  lemma WordsAreAlpha(x: Bytes)
    requires |x| == 16
    ensures var a, b := GetLE64(x[0..8]), GetLE64(x[8..16]);
      PutLE64(Mixed(Doubled(a), Reduction(b))) + PutLE64(TopBit(a) | Doubled(b)) == TimesAlpha(x)
  {
    hide *;
    var a, b := GetLE64(x[0..8]), GetLE64(x[8..16]);
    ReductionByte(b, x[0]);
    CarriedBit(a, x[8]);
    OrIsMixed(a, b);
    HalfShifted(x[0..8], Reduction(b));
    HalfShifted(x[8..16], TopBit(a));
    TopBytes(x[0..8]);
    TopBytes(x[8..16]);
    AlphaIs(x);
    AlphaHigh(x);
    assert TimesAlpha(x) == TimesAlpha(x)[0..8] + TimesAlpha(x)[8..16];
  }

  lemma TopBytes(x: Bytes)
    requires |x| == 8
    ensures ByteLE(GetLE64(x), 56) == x[7]
  {
    hide *;
    BytesOfWord(x);
    PutBytes(GetLE64(x));
  }

  /** mbedtls_gf128mul_x_ble: r = x * alpha; r may be x */
  method MulX(r: array<bv8>, x: array<bv8>)
    requires r.Length == 16 && x.Length == 16
    modifies r
    ensures r[..] == TimesAlpha(old(x[..]))
    ensures forall i :: 0 <= i < 128 ==>
      (BlockBit(r[..], i) <==>
        ((i > 0 && BlockBit(old(x[..]), i - 1)) != (BlockBit(old(x[..]), 127) && i in {0, 1, 2, 7})))
  {
    hide *;
    AllAlphaBits(x[..]);
    WordsAreAlpha(x[..]);
    assert x[..][0..8] == x[0..8] && x[..][8..16] == x[8..16];
    var a := GetLE64(x[0..8]);
    var b := GetLE64(x[8..16]);
    var ra := Mixed(Doubled(a), Reduction(b));
    var rb := TopBit(a) | Doubled(b);
    StoreHalves(r, PutLE64(ra), PutLE64(rb));
  }

  lemma AllAlphaBits(x: Bytes)
    requires |x| == 16
    ensures forall i :: 0 <= i < 128 ==>
      (BlockBit(TimesAlpha(x), i) <==> ((i > 0 && BlockBit(x, i - 1)) != (BlockBit(x, 127) && i in {0, 1, 2, 7})))
  {
    forall i | 0 <= i < 128
      ensures BlockBit(TimesAlpha(x), i) <==> ((i > 0 && BlockBit(x, i - 1)) != (BlockBit(x, 127) && i in {0, 1, 2, 7}))
    {
      TimesAlphaBits(x, i);
    }
  }

  method StoreHalves(r: array<bv8>, low: Bytes, high: Bytes)
    requires r.Length == 16 && |low| == 8 && |high| == 8
    modifies r
    ensures r[..] == low + high
  {
    hide *;
    forall k | 0 <= k < 8 { r[k] := low[k]; }
    forall k | 0 <= k < 8 { r[8 + k] := high[k]; }
    assert r[..8] == low && r[8..] == high;
    assert r[..] == r[..8] + r[8..];
  }

  // ----- XTS on byte strings (sections 5.3 and 5.4 of IEEE Std 1619-2007) -----------------

  /** One block under a tweak. */
  function Xex(f: Bytes -> Bytes, b: Bytes, t: Bytes): (r: Bytes)
    requires |b| == 16 && |t| == 16 && |f(Xor(b, t))| == 16
    ensures |r| == 16
  {
    Xor(f(Xor(b, t)), t)
  }

  /** The tweak k blocks on. */
  ghost function Tweak(t: Bytes, k: nat): (r: Bytes)
    requires |t| == 16
    ensures |r| == 16
  {
    if k == 0 then t else TimesAlpha(Tweak(t, k - 1))
  }

  /** Whole blocks, block j of p under the tweak number k + j */
  ghost function Blockwise(f: Bytes -> Bytes, p: Bytes, t: Bytes): (r: Bytes)
    requires |p| % 16 == 0 && |t| == 16 && Sized(f)
    ensures |r| == |p|
  {
    if p == [] then [] else
      var m := |p| - 16;
      Blockwise(f, p[..m], t) + Xex(f, p[m..], Tweak(t, m / 16))
  }

  /** The two last blocks, the second one partial: the first is processed under t1, then what it
      leaves completes the second, processed under t2 and stored first. */
  ghost function Steal(f: Bytes -> Bytes, last: Bytes, partial: Bytes, t1: Bytes, t2: Bytes): (r: Bytes)
    requires |last| == 16 && |partial| < 16 && |t1| == 16 && |t2| == 16 && Sized(f)
    ensures |r| == 16 + |partial|
  {
    var cc := Xex(f, last, t1);
    Xex(f, partial + cc[|partial|..], t2) + cc[..|partial|]
  }

  /** The bytes before the last whole block. */
  function HeadLength(n: nat): (h: nat)
    requires n >= 16
    ensures h % 16 == 0 && h + 16 <= n < h + 32
  {
    (n / 16 - 1) * 16
  }

  /** A data unit of at least 16 bytes. */
  ghost function XtsEncrypt(c: Cipher, p: Bytes, t: Bytes): (r: Bytes)
    requires |p| >= 16 && |t| == 16 && Sized(c.enc)
    ensures |r| == |p|
  {
    if |p| % 16 == 0 then Blockwise(c.enc, p, t) else
      var h := HeadLength(|p|);
      Blockwise(c.enc, p[..h], t) + Steal(c.enc, p[h..h + 16], p[h + 16..], Tweak(t, h / 16), Tweak(t, h / 16 + 1))
  }

  /** Decryption uses the two last tweaks in the other order. */
  ghost function XtsDecrypt(c: Cipher, p: Bytes, t: Bytes): (r: Bytes)
    requires |p| >= 16 && |t| == 16 && Sized(c.dec)
    ensures |r| == |p|
  {
    if |p| % 16 == 0 then Blockwise(c.dec, p, t) else
      var h := HeadLength(|p|);
      Blockwise(c.dec, p[..h], t) + Steal(c.dec, p[h..h + 16], p[h + 16..], Tweak(t, h / 16 + 1), Tweak(t, h / 16))
  }

  lemma XexInverse(c: Cipher, b: Bytes, t: Bytes)
    requires ValidCipher(c, 16) && |b| == 16 && |t| == 16
    ensures |c.enc(Xor(b, t))| == 16
    ensures |c.dec(Xor(Xex(c.enc, b, t), t))| == 16
    ensures Xex(c.dec, Xex(c.enc, b, t), t) == b
  {
    XorTwice(c.enc(Xor(b, t)), t);
    XorTwice(b, t);
  }

  /** One more block at the end. */
  lemma BlockwiseSnoc(f: Bytes -> Bytes, a: Bytes, b: Bytes, t: Bytes)
    requires |a| % 16 == 0 && |b| == 16 && |t| == 16 && Sized(f)
    ensures |f(Xor(b, Tweak(t, |a| / 16)))| == 16
    ensures Blockwise(f, a + b, t) == Blockwise(f, a, t) + Xex(f, b, Tweak(t, |a| / 16))
  {
    hide Xor, Xex, Tweak, Sized;
    SizedAt(f, Xor(b, Tweak(t, |a| / 16)));
    var p := a + b;
    assert p[..|a|] == a && p[|a|..] == b;
  }

  /** Block j of the result is block j of p, under tweak number j before and after the block function. */
  lemma {:induction false} BlockAt(f: Bytes -> Bytes, p: Bytes, t: Bytes, j: nat)
    requires |p| % 16 == 0 && |t| == 16 && Sized(f) && 16 * j + 16 <= |p|
    ensures var u := Tweak(t, j);
      && |f(Xor(p[16 * j..16 * j + 16], u))| == 16
      && Blockwise(f, p, t)[16 * j..16 * j + 16] == Xor(f(Xor(p[16 * j..16 * j + 16], u)), u)
  {
    hide *;
    var m := |p| - 16;
    var a, b := p[..m], p[m..];
    assert p == a + b;
    BlockwiseSnoc(f, a, b, t);
    if j < m / 16 {
      BlockAt(f, a, t, j);
      InFront(a, b, j);
      InFront(Blockwise(f, a, t), Xex(f, b, Tweak(t, m / 16)), j);
    } else {
      assert 16 * j == m;
      XexIs(f, b, Tweak(t, j));
      AtEnd(a, b);
      AtEnd(Blockwise(f, a, t), Xex(f, b, Tweak(t, j)));
    }
  }

  lemma InFront(a: Bytes, b: Bytes, j: nat)
    requires 16 * j + 16 <= |a|
    ensures (a + b)[16 * j..16 * j + 16] == a[16 * j..16 * j + 16]
  {}

  lemma AtEnd(a: Bytes, b: Bytes)
    ensures (a + b)[|a|..|a| + |b|] == b
  {}

  lemma {:induction false} BlockwiseInverse(c: Cipher, p: Bytes, t: Bytes)
    requires ValidCipher(c, 16) && |p| % 16 == 0 && |t| == 16 && Sized(c.enc) && Sized(c.dec)
    ensures Blockwise(c.dec, Blockwise(c.enc, p, t), t) == p
  {
    if p == [] {
      NoBlocks(c.enc, t);
      NoBlocks(c.dec, t);
    } else {
      hide *;
      var m := |p| - 16;
      var a, b, u := p[..m], p[m..], Tweak(t, m / 16);
      assert p == a + b;
      BlockwiseInverse(c, a, t);
      BlockwiseSnoc(c.enc, a, b, t);
      XexInverse(c, b, u);
      BlockwiseSnoc(c.dec, Blockwise(c.enc, a, t), Xex(c.enc, b, u), t);
    }
  }

  lemma NoBlocks(f: Bytes -> Bytes, t: Bytes)
    requires |t| == 16 && Sized(f)
    ensures Blockwise(f, [], t) == []
  {}

  lemma StealInverse(c: Cipher, last: Bytes, partial: Bytes, t1: Bytes, t2: Bytes)
    requires ValidCipher(c, 16) && |last| == 16 && |partial| < 16 && |t1| == 16 && |t2| == 16
    requires Sized(c.enc) && Sized(c.dec)
    ensures var q := Steal(c.enc, last, partial, t1, t2);
      Steal(c.dec, q[..16], q[16..], t2, t1) == last + partial
  {
    hide Xor, Sized;
    var r := |partial|;
    SizedAt(c.enc, Xor(last, t1));
    var cc := Xex(c.enc, last, t1);
    SizedAt(c.enc, Xor(partial + cc[r..], t2));
    var q := Steal(c.enc, last, partial, t1, t2);
    assert q[..16] == Xex(c.enc, partial + cc[r..], t2) && q[16..] == cc[..r];
    XexInverse(c, partial + cc[r..], t2);
    XexInverse(c, last, t1);
    hide Xex;
    var pp := partial + cc[r..];
    assert pp[r..] == cc[r..] && pp[..r] == partial;
    assert cc[..r] + cc[r..] == cc;
  }

  /** Decryption undoes encryption, for every length and tweak. */
  lemma XtsRoundTrip(c: Cipher, p: Bytes, t: Bytes)
    requires ValidCipher(c, 16) && |p| >= 16 && |t| == 16 && Sized(c.enc) && Sized(c.dec)
    ensures XtsDecrypt(c, XtsEncrypt(c, p, t), t) == p
  {
    hide Sized, ValidCipher, Blockwise, Steal, Tweak, HeadLength;
    if |p| % 16 == 0 {
      BlockwiseInverse(c, p, t);
    } else {
      var h := HeadLength(|p|);
      var q := XtsEncrypt(c, p, t);
      var a, b := p[..h], p[h..];
      var t1, t2 := Tweak(t, h / 16), Tweak(t, h / 16 + 1);
      var s := Steal(c.enc, p[h..h + 16], p[h + 16..], t1, t2);
      assert q[..h] == Blockwise(c.enc, a, t) && q[h..h + 16] == s[..16] && q[h + 16..] == s[16..];
      BlockwiseInverse(c, a, t);
      StealInverse(c, p[h..h + 16], p[h + 16..], t1, t2);
      assert p == a + (p[h..h + 16] + p[h + 16..]);
    }
  }

  /** One block of a data unit, counted from 0 */
  function Block(p: Bytes, j: nat): (b: Bytes)
    requires 16 * j + 16 <= |p|
    ensures |b| == 16
  {
    p[16 * j..16 * j + 16]
  }

  /** A whole data unit block by block (sections 5.3.2 and 5.4.2 of IEEE Std 1619-2007): every whole block but the last
      one before a partial block lies under its own tweak. */
  lemma XtsBlock(c: Cipher, p: Bytes, t: Bytes, j: nat)
    requires |p| >= 16 && |t| == 16 && Sized(c.enc) && Sized(c.dec)
    requires if |p| % 16 == 0 then 16 * j + 16 <= |p| else 16 * j + 32 <= |p|
    ensures var u := Tweak(t, j);
      && |c.enc(Xor(Block(p, j), u))| == 16 && |c.dec(Xor(Block(p, j), u))| == 16
      && Block(XtsEncrypt(c, p, t), j) == Xor(c.enc(Xor(Block(p, j), u)), u)
      && Block(XtsDecrypt(c, p, t), j) == Xor(c.dec(Xor(Block(p, j), u)), u)
  {
    var h := if |p| % 16 == 0 then |p| else HeadLength(|p|);
    HeadBefore(|p|, j);
    UnitIs(c, p, t, h);
    hide *;
    BlockInFront(c.enc, p, t, h, j);
    BlockInFront(c.dec, p, t, h, j);
    SameBlock(XtsEncrypt(c, p, t), Blockwise(c.enc, p[..h], t), j);
    SameBlock(XtsDecrypt(c, p, t), Blockwise(c.dec, p[..h], t), j);
  }

  lemma UnitIs(c: Cipher, p: Bytes, t: Bytes, h: nat)
    requires |p| >= 16 && |t| == 16 && Sized(c.enc) && Sized(c.dec)
    requires h == if |p| % 16 == 0 then |p| else HeadLength(|p|)
    ensures h % 16 == 0 && h <= |p|
    ensures XtsEncrypt(c, p, t)[..h] == Blockwise(c.enc, p[..h], t)
    ensures XtsDecrypt(c, p, t)[..h] == Blockwise(c.dec, p[..h], t)
  {
    hide Blockwise, Steal, Tweak, Sized, HeadLength;
    if |p| % 16 == 0 { assert p[..h] == p; }
  }

  lemma SameBlock(q: Bytes, a: Bytes, j: nat)
    requires |a| <= |q| && q[..|a|] == a && 16 * j + 16 <= |a|
    ensures Block(q, j) == Block(a, j)
  {
    assert q[16 * j..16 * j + 16] == q[..|a|][16 * j..16 * j + 16];
  }

  lemma BlockInFront(f: Bytes -> Bytes, p: Bytes, t: Bytes, h: nat, j: nat)
    requires |t| == 16 && Sized(f) && h % 16 == 0 && 16 * j + 16 <= h <= |p|
    ensures var u := Tweak(t, j);
      |f(Xor(Block(p, j), u))| == 16 && Block(Blockwise(f, p[..h], t), j) == Xor(f(Xor(Block(p, j), u)), u)
  {
    BlockAt(f, p[..h], t, j);
    hide Xor, Tweak, Sized, Blockwise;
    assert p[..h][16 * j..16 * j + 16] == Block(p, j);
  }

  lemma HeadBefore(n: nat, j: nat)
    requires n >= 16
    ensures n % 16 != 0 && 16 * j + 32 <= n ==> 16 * j + 16 <= HeadLength(n)
  {}

  /** With r bytes behind the m whole blocks, the last whole block is encrypted under tweak m - 1; its first r bytes are
      the last ones of the output, and the others complete the partial block, which is encrypted under tweak m and
      takes the place before. Decryption uses the two tweaks in the other order. */
  lemma XtsTail(c: Cipher, p: Bytes, t: Bytes, m: nat, r: nat)
    requires |t| == 16 && Sized(c.enc) && Sized(c.dec) && |p| == 16 * m + r && m > 0 && 0 < r < 16
    ensures var b, u, w := Block(p, m - 1), Tweak(t, m - 1), Tweak(t, m);
      && |c.enc(Xor(b, u))| == 16 && |c.dec(Xor(b, w))| == 16
      && (var cc, pp := Xor(c.enc(Xor(b, u)), u), Xor(c.dec(Xor(b, w)), w);
          && |c.enc(Xor(p[16 * m..] + cc[r..], w))| == 16 && |c.dec(Xor(p[16 * m..] + pp[r..], u))| == 16
          && XtsEncrypt(c, p, t)[16 * m..] == cc[..r]
          && Block(XtsEncrypt(c, p, t), m - 1) == Xor(c.enc(Xor(p[16 * m..] + cc[r..], w)), w)
          && XtsDecrypt(c, p, t)[16 * m..] == pp[..r]
          && Block(XtsDecrypt(c, p, t), m - 1) == Xor(c.dec(Xor(p[16 * m..] + pp[r..], u)), u))
  {
    hide *;
    var h := HeadLength(|p|);
    HeadAt(|p|, m, r);
    EncryptIs(c, p, t, h);
    DecryptIs(c, p, t, h);
    StolenTail(c.enc, p, t, m, r, Tweak(t, m - 1), Tweak(t, m));
    StolenTail(c.dec, p, t, m, r, Tweak(t, m), Tweak(t, m - 1));
  }

  lemma StolenTail(f: Bytes -> Bytes, p: Bytes, t: Bytes, m: nat, r: nat, t1: Bytes, t2: Bytes)
    requires |t| == 16 && |t1| == 16 && |t2| == 16 && Sized(f) && |p| == 16 * m + r && m > 0 && 0 < r < 16
    ensures var b, h := Block(p, m - 1), 16 * (m - 1);
      && |f(Xor(b, t1))| == 16
      && (var cc, q := Xor(f(Xor(b, t1)), t1), Blockwise(f, p[..h], t) + Steal(f, p[h..h + 16], p[h + 16..], t1, t2);
          && |f(Xor(p[16 * m..] + cc[r..], t2))| == 16
          && q[16 * m..] == cc[..r] && Block(q, m - 1) == Xor(f(Xor(p[16 * m..] + cc[r..], t2)), t2))
  {
    hide *;
    var b, h := Block(p, m - 1), 16 * (m - 1);
    BlockIs(p, m - 1);
    assert h + 16 == 16 * m;
    StealParts(f, b, p[16 * m..], t1, t2);
    var a, z := Blockwise(f, p[..h], t), Steal(f, b, p[16 * m..], t1, t2);
    BlockIs(a + z, m - 1);
    AfterHead(a, z);
  }

  lemma BlockIs(p: Bytes, j: nat)
    requires 16 * j + 16 <= |p|
    ensures Block(p, j) == p[16 * j..16 * j + 16]
  {}

  lemma AfterHead(a: Bytes, z: Bytes)
    requires |z| >= 16
    ensures (a + z)[|a| + 16..] == z[16..] && (a + z)[|a|..|a| + 16] == z[..16]
  {}

  lemma HeadAt(n: nat, m: nat, r: nat)
    requires n == 16 * m + r && m > 0 && 0 < r < 16
    ensures HeadLength(n) == 16 * (m - 1) && n % 16 == r && HeadLength(n) / 16 == m - 1
  {}

  lemma StealParts(f: Bytes -> Bytes, last: Bytes, partial: Bytes, t1: Bytes, t2: Bytes)
    requires |last| == 16 && |partial| < 16 && |t1| == 16 && |t2| == 16 && Sized(f)
    ensures |f(Xor(last, t1))| == 16
    ensures var r, cc := |partial|, Xor(f(Xor(last, t1)), t1);
      && |f(Xor(partial + cc[r..], t2))| == 16
      && Steal(f, last, partial, t1, t2)[16..] == cc[..r]
      && Steal(f, last, partial, t1, t2)[..16] == Xor(f(Xor(partial + cc[r..], t2)), t2)
  {
    hide Xor;
  }

  // ----- In place -------------------------------------------------------------------------

  /** What the last whole block becomes, from which the bytes for the partial one are stolen */
  ghost function Stolen(c: Cipher, decrypt: bool, p: Bytes, t: Bytes, h: nat): (r: Bytes)
    requires Sized(c.enc) && Sized(c.dec) && |t| == 16 && h + 16 <= |p|
    ensures |r| == 16
  {
    var f := if decrypt then c.dec else c.enc;
    var u := Tweak(t, if decrypt then h / 16 + 1 else h / 16);
    SizedAt(f, Xor(p[h..h + 16], u));
    Xex(f, p[h..h + 16], u)
  }

  /** The data unit as the code reads it: in place, the bytes of a partial block are overwritten by the stolen ones
      first. */
  ghost function AsRead(c: Cipher, decrypt: bool, inPlace: bool, p: Bytes, t: Bytes): (r: Bytes)
    requires Sized(c.enc) && Sized(c.dec) && |t| == 16 && |p| >= 16
    ensures |r| == |p|
  {
    if !inPlace || |p| % 16 == 0 then p else
      var h := HeadLength(|p|);
      p[..h + 16] + Stolen(c, decrypt, p, t, h)[..|p| - h - 16]
  }

  lemma AllRead(c: Cipher, decrypt: bool, inPlace: bool, p: Bytes, t: Bytes)
    requires Sized(c.enc) && Sized(c.dec) && |t| == 16 && |p| >= 16 && (!inPlace || |p| % 16 == 0)
    ensures AsRead(c, decrypt, inPlace, p, t) == p
  {
    hide Stolen, Sized;
  }

  lemma ReadIs(c: Cipher, decrypt: bool, inPlace: bool, p: Bytes, t: Bytes, h: nat, cc: Bytes)
    requires Sized(c.enc) && Sized(c.dec) && |t| == 16 && h % 16 == 0 && h + 16 < |p| < h + 32
    requires cc == Stolen(c, decrypt, p, t, h)
    ensures var q := AsRead(c, decrypt, inPlace, p, t);
      |q| == |p| && q[..h + 16] == p[..h + 16] && q[h + 16..] == if inPlace then cc[..|p| - h - 16] else p[h + 16..]
  {
    HeadIs(|p|, h);
    hide Stolen, Sized, HeadLength;
  }

  /** What encrypting in place leaves */
  ghost function InPlace(c: Cipher, p: Bytes, t: Bytes): (r: Bytes)
    requires Sized(c.enc) && Sized(c.dec) && |t| == 16 && |p| >= 16
    ensures |r| == |p|
  {
    XtsEncrypt(c, AsRead(c, false, true, p, t), t)
  }

  /** Every data unit of n bytes can be recovered from what encrypting it in place leaves. */
  ghost predicate Recoverable(c: Cipher, n: nat, t: Bytes)
    requires Sized(c.enc) && Sized(c.dec) && |t| == 16 && n >= 16
  {
    forall p: Bytes, q: Bytes :: |p| == n && |q| == n && InPlace(c, p, t) == InPlace(c, q, t) ==> p == q
  }

  /** That is so exactly for whole blocks: otherwise the partial block is lost. */
  lemma RecoverableIff(c: Cipher, n: nat, t: Bytes)
    requires ValidCipher(c, 16) && Sized(c.enc) && Sized(c.dec) && |t| == 16 && n >= 16
    ensures Recoverable(c, n, t) <==> n % 16 == 0
  {
    hide *;
    if n % 16 == 0 {
      forall p: Bytes, q: Bytes | |p| == n && |q| == n && InPlace(c, p, t) == InPlace(c, q, t) ensures p == q {
        WholeInPlace(c, p, t);
        WholeInPlace(c, q, t);
        XtsRoundTrip(c, p, t);
        XtsRoundTrip(c, q, t);
      }
      RecoverableFrom(c, n, t);
    } else {
      var p, q := PartialLost(c, n, t);
      RecoverableAt(c, n, t, p, q);
    }
  }

  lemma RecoverableFrom(c: Cipher, n: nat, t: Bytes)
    requires Sized(c.enc) && Sized(c.dec) && |t| == 16 && n >= 16
    requires forall p: Bytes, q: Bytes :: |p| == n && |q| == n && InPlace(c, p, t) == InPlace(c, q, t) ==> p == q
    ensures Recoverable(c, n, t)
  {
    hide InPlace, Sized;
  }

  lemma RecoverableAt(c: Cipher, n: nat, t: Bytes, p: Bytes, q: Bytes)
    requires Sized(c.enc) && Sized(c.dec) && |t| == 16 && n >= 16 && |p| == n && |q| == n
    requires InPlace(c, p, t) == InPlace(c, q, t) && p != q
    ensures !Recoverable(c, n, t)
  {
    hide InPlace, Sized;
  }

  lemma WholeInPlace(c: Cipher, p: Bytes, t: Bytes)
    requires Sized(c.enc) && Sized(c.dec) && |t| == 16 && |p| >= 16 && |p| % 16 == 0
    ensures InPlace(c, p, t) == XtsEncrypt(c, p, t)
  {
    AllRead(c, false, true, p, t);
    hide AsRead, XtsEncrypt, Sized;
  }

  /** Two data units of any length with a partial block that leave the same */
  lemma PartialLost(c: Cipher, n: nat, t: Bytes) returns (p: Bytes, q: Bytes)
    requires Sized(c.enc) && Sized(c.dec) && |t| == 16 && n >= 16 && n % 16 != 0
    ensures |p| == n && |q| == n && p != q && InPlace(c, p, t) == InPlace(c, q, t)
  {
    p, q := Nulls(n), Nulls(n - 1) + [1];
    assert p[n - 1] != q[n - 1];
    var h := HeadLength(n);
    HeadParts(n, h);
    assert p[..h + 16] == q[..h + 16];
    SameStolen(c, p, q, t, h);
    SameRead(c, p, q, t, h);
    hide AsRead, XtsEncrypt, Sized;
  }

  lemma HeadParts(n: nat, h: nat)
    requires n >= 16 && n % 16 != 0 && h == HeadLength(n)
    ensures h + 16 < n < h + 32
  {}

  lemma SameStolen(c: Cipher, p: Bytes, q: Bytes, t: Bytes, h: nat)
    requires Sized(c.enc) && Sized(c.dec) && |t| == 16 && h + 16 <= |p| && h + 16 <= |q| && p[..h + 16] == q[..h + 16]
    ensures Stolen(c, false, p, t, h) == Stolen(c, false, q, t, h)
  {
    assert p[h..h + 16] == p[..h + 16][h..] && q[h..h + 16] == q[..h + 16][h..];
    hide Xex, Xor, Tweak, Sized;
  }

  lemma SameRead(c: Cipher, p: Bytes, q: Bytes, t: Bytes, h: nat)
    requires Sized(c.enc) && Sized(c.dec) && |t| == 16 && |p| == |q| >= 16 && |p| % 16 != 0 && h == HeadLength(|p|)
    requires p[..h + 16] == q[..h + 16] && Stolen(c, false, p, t, h) == Stolen(c, false, q, t, h)
    ensures AsRead(c, false, true, p, t) == AsRead(c, false, true, q, t)
  {
    hide Stolen, Sized, HeadLength;
  }

  // ----- mbedtls_aes_crypt_xts ------------------------------------------------------------

  /** MBEDTLS_ERR_AES_INVALID_INPUT_LENGTH */
  const INVALID_INPUT_LENGTH: int := -0x0022

  /** One whole block, and the next tweak. */
  method BlockStep(f: Bytes -> Bytes, input: array<bv8>, output: array<bv8>, off: nat, tweak: array<bv8>,
                   tmp: array<bv8>)
    requires tweak.Length == 16 && tmp.Length == 16 && tweak != tmp && Sized(f)
    requires tweak != output && tmp != output && tmp != input && tweak != input
    requires off + 16 <= input.Length && off + 16 <= output.Length
    modifies output, tweak, tmp
    ensures |f(Xor(old(input[off..off + 16]), old(tweak[..])))| == 16
    ensures output[off..off + 16] == Xex(f, old(input[off..off + 16]), old(tweak[..]))
    ensures output[..off] == old(output[..off]) && output[off + 16..] == old(output[off + 16..])
    ensures tweak[..] == TimesAlpha(old(tweak[..]))
  {
    hide *;
    ghost var b, t := input[off..off + 16], tweak[..];
    assert tweak[0..0 + 16] == t;
    XorBlock(tmp, 0, input, off, tweak, 0, 16);
    assert tmp[..] == tmp[0..0 + 16] == Xor(b, t);
    SizedAt(f, Xor(b, t));
    Ecb(f, tmp, tmp);
    assert tmp[0..0 + 16] == tmp[..];
    XorBlock(output, off, tmp, 0, tweak, 0, 16);
    XexIs(f, b, t);
    MulX(tweak, tweak);
  }

  lemma XexIs(f: Bytes -> Bytes, b: Bytes, t: Bytes)
    requires |b| == 16 && |t| == 16 && Sized(f)
    ensures |f(Xor(b, t))| == 16 && Xex(f, b, t) == Xor(f(Xor(b, t)), t)
  {}

  /** The block loop has run over n bytes from the tweak t. */
  ghost predicate BlocksDone(f: Bytes -> Bytes, p: Bytes, q: Bytes, t: Bytes)
    requires |t| == 16 && |p| % 16 == 0 && Sized(f)
  {
    q == Blockwise(f, p, t)
  }

  lemma BlocksNone(f: Bytes -> Bytes, t: Bytes)
    requires |t| == 16 && Sized(f)
    ensures BlocksDone(f, [], [], t)
  {}

  lemma BlocksNext(f: Bytes -> Bytes, p: Bytes, q: Bytes, t: Bytes, b: Bytes, r: Bytes)
    requires |t| == 16 && |p| % 16 == 0 && Sized(f) && BlocksDone(f, p, q, t) && |b| == 16
    requires |f(Xor(b, Tweak(t, |p| / 16)))| == 16 && r == Xex(f, b, Tweak(t, |p| / 16))
    ensures BlocksDone(f, p + b, q + r, t)
  {
    hide Blockwise, Xex, Xor, Tweak, Sized;
    BlockwiseSnoc(f, p, b, t);
  }

  lemma TweakNext(t: Bytes, k: nat)
    requires |t| == 16
    ensures Tweak(t, k + 1) == TimesAlpha(Tweak(t, k)) && Tweak(t, 0) == t
  {
    hide TimesAlpha;
  }

  /** k blocks done: in (then p) is still to be read from there on, out (then q) is written up to there. */
  ghost predicate Running(f: Bytes -> Bytes, p: Bytes, q: Bytes, t: Bytes, k: nat, inp: Bytes, out: Bytes, tweak: Bytes)
  {
    && Sized(f) && |t| == 16 && |inp| == |p| && |out| == |q| && 16 * k <= |p| && 16 * k <= |q|
    && BlocksDone(f, p[..16 * k], out[..16 * k], t) && tweak == Tweak(t, k)
    && inp[16 * k..] == p[16 * k..] && out[16 * k..] == q[16 * k..]
  }

  lemma RunningIs(f: Bytes -> Bytes, p: Bytes, q: Bytes, t: Bytes, k: nat, inp: Bytes, out: Bytes, tweak: Bytes)
    requires Sized(f) && |t| == 16 && |inp| == |p| && |out| == |q| && 16 * k <= |p| && 16 * k <= |q|
    ensures Running(f, p, q, t, k, inp, out, tweak) <==>
      && BlocksDone(f, p[..16 * k], out[..16 * k], t) && tweak == Tweak(t, k)
      && inp[16 * k..] == p[16 * k..] && out[16 * k..] == q[16 * k..]
  {
    hide BlocksDone, Tweak, Sized;
  }

  lemma RunningStart(f: Bytes -> Bytes, p: Bytes, q: Bytes, t: Bytes)
    requires Sized(f) && |t| == 16
    ensures Running(f, p, q, t, 0, p, q, t)
  {
    BlocksNone(f, t);
    TweakNext(t, 0);
    hide BlocksDone, Tweak, Sized;
    assert p[..0] == [] && q[..0] == [];
  }

  /** The next block, under its own tweak or another */
  lemma BlockWritten(f: Bytes -> Bytes, p: Bytes, q: Bytes, t: Bytes, k: nat, inp: Bytes, out: Bytes, tweak: Bytes,
                     inp1: Bytes, out1: Bytes, u: Bytes)
    requires Sized(f) && |t| == 16 && |u| == 16 && Running(f, p, q, t, k, inp, out, tweak)
    requires 16 * k + 16 <= |p| && 16 * k + 16 <= |q| && |inp1| == |inp| == |p| && |out1| == |out| == |q|
    requires |f(Xor(inp[16 * k..16 * k + 16], u))| == 16
    requires out1[16 * k..16 * k + 16] == Xex(f, inp[16 * k..16 * k + 16], u)
    requires out1[..16 * k] == out[..16 * k] && out1[16 * k + 16..] == out[16 * k + 16..]
    requires inp1[16 * k + 16..] == inp[16 * k + 16..]
    ensures |f(Xor(p[16 * k..16 * k + 16], u))| == 16 && out1[16 * k..16 * k + 16] == Xex(f, p[16 * k..16 * k + 16], u)
    ensures BlocksDone(f, p[..16 * k], out1[..16 * k], t) && out1[16 * k + 16..] == q[16 * k + 16..]
    ensures u == Tweak(t, k) ==> Running(f, p, q, t, k + 1, inp1, out1, TimesAlpha(u))
  {
    hide *;
    var off := 16 * k;
    RunningIs(f, p, q, t, k, inp, out, tweak);
    BlockFrom(inp, p, off);
    DropMore(inp, p, off);
    DropMore(out, q, off);
    if u == Tweak(t, k) {
      TweakNext(t, k);
      BlocksNext(f, p[..off], out1[..off], t, p[off..off + 16], out1[off..off + 16]);
      assert p[..off + 16] == p[..off] + p[off..off + 16] && out1[..off + 16] == out1[..off] + out1[off..off + 16];
      RunningIs(f, p, q, t, k + 1, inp1, out1, TimesAlpha(u));
    }
  }

  /** The whole blocks before the last one, or all of them. */
  method BlockLoop(f: Bytes -> Bytes, input: array<bv8>, output: array<bv8>, n: nat, tweak: array<bv8>, tmp: array<bv8>,
                   decrypt: bool, leftover: nat, prevTweak: array<bv8>)
    requires tweak.Length == 16 && tmp.Length == 16 && prevTweak.Length == 16 && Sized(f) && n > 0
    requires tweak != tmp && prevTweak != tmp && prevTweak != tweak
    requires tweak != output && tmp != output && prevTweak != output
    requires tweak != input && tmp != input && prevTweak != input
    requires 16 * n <= input.Length && 16 * n <= output.Length
    modifies output, tweak, tmp, prevTweak
    ensures output[16 * n..] == old(output[16 * n..])
    ensures !(leftover > 0 && decrypt) ==>
      BlocksDone(f, old(input[..16 * n]), output[..16 * n], old(tweak[..])) && tweak[..] == Tweak(old(tweak[..]), n)
    ensures leftover > 0 && decrypt ==>
      && BlocksDone(f, old(input[..16 * n - 16]), output[..16 * n - 16], old(tweak[..]))
      && |f(Xor(old(input[16 * n - 16..16 * n]), Tweak(old(tweak[..]), n)))| == 16
      && output[16 * n - 16..16 * n] == Xex(f, old(input[16 * n - 16..16 * n]), Tweak(old(tweak[..]), n))
      && prevTweak[..] == Tweak(old(tweak[..]), n - 1)
  {
    hide *;
    ghost var t, p, q := tweak[..], input[..], output[..];
    var blocks, off := n, 0;
    RunningStart(f, p, q, t);
    ghost var special := leftover > 0 && decrypt;
    while blocks > 0
      invariant 0 <= blocks <= n && off == 16 * (n - blocks)
      invariant blocks > 0 || !special ==> Running(f, p, q, t, n - blocks, input[..], output[..], tweak[..])
      invariant blocks == 0 && special ==>
        && BlocksDone(f, p[..off - 16], output[..off - 16], t) && output[off..] == q[off..]
        && |f(Xor(p[off - 16..off], Tweak(t, n)))| == 16
        && output[off - 16..off] == Xex(f, p[off - 16..off], Tweak(t, n))
        && prevTweak[..] == Tweak(t, n - 1)
    {
      blocks := blocks - 1;
      ghost var k, inp, out, was := n - blocks - 1, input[..], output[..], tweak[..];
      RunningIs(f, p, q, t, k, inp, out, was);
      TweakNext(t, k);
      if leftover > 0 && decrypt && blocks == 0 {
        CopyBlock(prevTweak, 0, tweak, 0, 16);
        assert prevTweak[..] == prevTweak[0..0 + 16] == tweak[0..0 + 16] == tweak[..];
        MulX(tweak, tweak);
      }
      ghost var u := tweak[..];
      BlockStep(f, input, output, off, tweak, tmp);
      assert input != output ==> input[..] == inp;
      BlockWritten(f, p, q, t, k, inp, out, was, input[..], output[..], u);
      off := off + 16;
    }
    if !special { RunningIs(f, p, q, t, n, input[..], output[..], tweak[..]); }
  }

  lemma DropMore(s: Bytes, q: Bytes, off: nat)
    requires off + 16 <= |s| == |q| && s[off..] == q[off..]
    ensures s[off + 16..] == q[off + 16..]
  {
    assert s[off..][16..] == s[off + 16..] && q[off..][16..] == q[off + 16..];
  }

  lemma BlockFrom(s: Bytes, q: Bytes, off: nat)
    requires off + 16 <= |s| == |q| && s[off..] == q[off..]
    ensures s[off..off + 16] == q[off..off + 16]
  {
    assert s[off..][..16] == s[off..off + 16] && q[off..][..16] == q[off..off + 16];
  }

  /** Copy the bytes that are kept; the partial block, under its tweak, starts tmp. In place, each of its bytes has been
      overwritten when it is read. */
  method KeepBytes(input: array<bv8>, output: array<bv8>, off: nat, leftover: nat, t: array<bv8>, tmp: array<bv8>)
    requires 0 < leftover < 16 && 16 <= off && off + leftover <= input.Length && off + leftover <= output.Length
    requires t.Length == 16 && tmp.Length == 16 && t != tmp
    requires t != output && tmp != output && t != input && tmp != input
    modifies output, tmp
    ensures output[..off] == old(output[..off]) && output[off + leftover..] == old(output[off + leftover..])
    ensures output[off..off + leftover] == old(output[off - 16..off])[..leftover]
    ensures var read := if input == output then old(output[off - 16..off])[..leftover] else input[off..off + leftover];
      tmp[..leftover] == Xor(read, t[..leftover])
  {
    hide *;
    ghost var q := output[..];
    var i := 0;
    while i < leftover
      invariant 0 <= i <= leftover
      invariant forall k :: 0 <= k < off || off + i <= k < output.Length ==> output[k] == q[k]
      invariant forall k :: off <= k < off + i ==> output[k] == q[k - 16]
      invariant forall k :: 0 <= k < i ==>
        tmp[k] == XorByte(if input == output then q[off - 16 + k] else input[off + k], t[k])
    {
      output[off + i] := output[off - 16 + i];
      tmp[i] := XorByte(input[off + i], t[i]);
      i := i + 1;
    }
    assert output[off..off + leftover] == q[off - 16..off][..leftover];
    assert output[..off] == q[..off] && output[off + leftover..] == q[off + leftover..];
  }

  /** The stolen bytes complete tmp. */
  method TakeBytes(output: array<bv8>, off: nat, leftover: nat, t: array<bv8>, tmp: array<bv8>)
    requires leftover < 16 <= off <= output.Length
    requires t.Length == 16 && tmp.Length == 16 && t != tmp && tmp != output
    modifies tmp
    ensures tmp[..leftover] == old(tmp[..leftover])
    ensures tmp[leftover..] == Xor(output[off - 16..off][leftover..], t[leftover..])
  {
    hide *;
    ghost var was := tmp[..leftover];
    var i := leftover;
    while i < 16
      invariant leftover <= i <= 16 && tmp[..leftover] == was
      invariant forall k :: leftover <= k < i ==> tmp[k] == XorByte(output[off - 16 + k], t[k])
    {
      tmp[i] := XorByte(output[off - 16 + i], t[i]);
      i := i + 1;
    }
  }

  /** Both loops: the completed block, under its tweak, is in tmp. */
  method CompleteBlock(input: array<bv8>, output: array<bv8>, off: nat, leftover: nat, t: array<bv8>, tmp: array<bv8>)
    requires 0 < leftover < 16 && 16 <= off && off + leftover <= input.Length && off + leftover <= output.Length
    requires t.Length == 16 && tmp.Length == 16 && t != tmp
    requires t != output && tmp != output && t != input && tmp != input
    modifies output, tmp
    ensures output[..off] == old(output[..off]) && output[off + leftover..] == old(output[off + leftover..])
    ensures output[off..off + leftover] == old(output[off - 16..off])[..leftover]
    ensures var cc := old(output[off - 16..off]);
      tmp[..] == Xor((if input == output then cc[..leftover] else input[off..off + leftover]) + cc[leftover..], t[..])
  {
    hide *;
    ghost var head := output[..off];
    ghost var cc := output[off - 16..off];
    KeepBytes(input, output, off, leftover, t, tmp);
    assert output[off - 16..off] == output[..off][off - 16..] == head[off - 16..] == cc;
    TakeBytes(output, off, leftover, t, tmp);
    Completed(if input == output then cc[..leftover] else input[off..off + leftover], cc, leftover, t[..], tmp[..]);
  }

  lemma Completed(read: Bytes, cc: Bytes, leftover: nat, t: Bytes, tmp: Bytes)
    requires |t| == |tmp| == |cc| == 16 && |read| == leftover <= 16
    requires tmp[..leftover] == Xor(read, t[..leftover]) && tmp[leftover..] == Xor(cc[leftover..], t[leftover..])
    ensures tmp == Xor(read + cc[leftover..], t)
  {
    XorAppend(read, t[..leftover], cc[leftover..], t[leftover..]);
    hide Xor;
    assert tmp == tmp[..leftover] + tmp[leftover..] && t == t[..leftover] + t[leftover..];
  }

  lemma XorAppend(a: Bytes, s: Bytes, b: Bytes, t: Bytes)
    requires |a| == |s| && |b| == |t|
    ensures Xor(a + b, s + t) == Xor(a, s) + Xor(b, t)
  {
    hide XorByte;
  }

  /** The final part: complete the last partial block with the bytes stolen from the one before. */
  method StealStage(f: Bytes -> Bytes, input: array<bv8>, output: array<bv8>, off: nat, leftover: nat,
                    t: array<bv8>, tmp: array<bv8>)
    requires 0 < leftover < 16 && 16 <= off && off + leftover <= input.Length && off + leftover <= output.Length
    requires t.Length == 16 && tmp.Length == 16 && t != tmp && Sized(f)
    requires t != output && tmp != output && t != input && tmp != input
    modifies output, tmp
    ensures output[..off - 16] == old(output[..off - 16]) && output[off + leftover..] == old(output[off + leftover..])
    ensures var cc := old(output[off - 16..off]);
      var b := (if input == output then cc[..leftover] else input[off..off + leftover]) + cc[leftover..];
      && |f(Xor(b, t[..]))| == 16
      && output[off - 16..off] == Xex(f, b, t[..]) && output[off..off + leftover] == cc[..leftover]
  {
    hide *;
    ghost var q := output[..];
    ghost var cc := output[off - 16..off];
    ghost var b := (if input == output then cc[..leftover] else input[off..off + leftover]) + cc[leftover..];
    CompleteBlock(input, output, off, leftover, t, tmp);
    assert output[..off - 16] == output[..off][..off - 16] == q[..off - 16];
    SizedAt(f, Xor(b, t[..]));
    Ecb(f, tmp, tmp);
    XexIs(f, b, t[..]);
    assert tmp[0..0 + 16] == tmp[..] && t[0..0 + 16] == t[..];
    ghost var tail := output[off - 16 + 16..];
    XorBlock(output, off - 16, tmp, 0, t, 0, 16);
    assert output[off..off + leftover] == output[off - 16 + 16..][..leftover] == tail[..leftover];
    assert output[off + leftover..] == output[off - 16 + 16..][leftover..] == tail[leftover..];
  }

  /** mbedtls_aes_crypt_xts: a whole data unit, into a separate buffer or the same one */
  method CryptXts(c: Cipher, tweakEnc: Bytes -> Bytes, decrypt: bool, length: nat, dataUnit: array<bv8>,
                  input: array<bv8>, output: array<bv8>) returns (ret: int)
    requires Sized(c.enc) && Sized(c.dec) && Sized(tweakEnc) && dataUnit.Length == 16
    requires length <= input.Length && length <= output.Length
    modifies output
    ensures ret == if 16 <= length <= 0x100_0000 then 0 else INVALID_INPUT_LENGTH
    ensures ret != 0 ==> output[..] == old(output[..])
    ensures ret == 0 ==> |tweakEnc(old(dataUnit[..]))| == 16 && output[length..] == old(output[length..])
    ensures ret == 0 ==>
      var t := tweakEnc(old(dataUnit[..]));
      var p := AsRead(c, decrypt, input == output, old(input[..length]), t);
      output[..length] == if decrypt then XtsDecrypt(c, p, t) else XtsEncrypt(c, p, t)
  {
    hide *;
    ErrorCode();
    if length < 16 { return INVALID_INPUT_LENGTH; }
    if length > (1 * 0x10_0000) * 16 { return INVALID_INPUT_LENGTH; }
    var tweak := new bv8[16];
    Ecb(tweakEnc, dataUnit, tweak);
    CryptUnit(c, decrypt, length, tweak, input, output);
    return 0;
  }

  /** The data unit under the tweak computed for it. */
  method CryptUnit(c: Cipher, decrypt: bool, length: nat, tweak: array<bv8>, input: array<bv8>, output: array<bv8>)
    requires Sized(c.enc) && Sized(c.dec) && tweak.Length == 16 && length >= 16
    requires length <= input.Length && length <= output.Length && tweak != output && tweak != input
    modifies output, tweak
    ensures output[length..] == old(output[length..])
    ensures var t := old(tweak[..]);
      var p := AsRead(c, decrypt, input == output, old(input[..length]), t);
      output[..length] == if decrypt then XtsDecrypt(c, p, t) else XtsEncrypt(c, p, t)
  {
    hide *;
    var prevTweak, tmp := new bv8[16], new bv8[16];
    ghost var t, p := tweak[..], input[..length];
    var blocks, leftover := length / 16, length % 16;
    RunBlocks(c, decrypt, length, tweak, prevTweak, tmp, input, output);
    if leftover > 0 {
      var last := if decrypt then prevTweak else tweak;
      FinishUnit(c, decrypt, length, input, output, 16 * blocks, last, tmp, t, p);
    } else {
      AllRead(c, decrypt, input == output, p, t);
    }
  }

  /** The block loop on a data unit. */
  method RunBlocks(c: Cipher, decrypt: bool, length: nat, tweak: array<bv8>, prevTweak: array<bv8>, tmp: array<bv8>,
                   input: array<bv8>, output: array<bv8>)
    requires Sized(c.enc) && Sized(c.dec) && tweak.Length == 16 && prevTweak.Length == 16 && tmp.Length == 16
    requires length >= 16 && length <= input.Length && length <= output.Length
    requires tweak != tmp && prevTweak != tmp && prevTweak != tweak
    requires tweak != output && tmp != output && prevTweak != output
    requires tweak != input && tmp != input && prevTweak != input
    modifies output, tweak, prevTweak, tmp
    ensures output[length..] == old(output[length..])
    ensures length % 16 == 0 ==>
      output[..length] == if decrypt then XtsDecrypt(c, old(input[..length]), old(tweak[..]))
                          else XtsEncrypt(c, old(input[..length]), old(tweak[..]))
    ensures length % 16 > 0 ==> var h := length / 16 * 16 - 16;
      Looped(c, decrypt, old(input[..length]), output[..h + 16], h, old(tweak[..]),
             if decrypt then prevTweak[..] else tweak[..])
  {
    hide *;
    var blocks, leftover := length / 16, length % 16;
    ghost var t, q, p, inp := tweak[..], output[..], input[..length], input[..];
    var f := if decrypt then c.dec else c.enc;
    assert p[..16 * blocks] == inp[..16 * blocks];
    BlockLoop(f, input, output, blocks, tweak, tmp, decrypt, leftover, prevTweak);
    assert output[length..] == output[16 * blocks..][leftover..] == q[16 * blocks..][leftover..] == q[length..];
    if leftover > 0 {
      ghost var h, mid := 16 * blocks - 16, output[..16 * blocks];
      Slices(inp, length, h);
      Slices(output[..], 16 * blocks, h);
      LoopedIs(c, decrypt, p, mid, h, t, if decrypt then prevTweak[..] else tweak[..]);
    } else {
      WholeBlocks(c, decrypt, p, output[..length], t);
    }
  }

  lemma Slices(s: Bytes, length: nat, h: nat)
    requires h + 16 <= length <= |s|
    ensures var p := s[..length];
      p[..h] == s[..h] && p[h..h + 16] == s[h..h + 16] && p[h + 16..] == s[h + 16..length] && p[..h + 16] == s[..h + 16]
  {}

  /** Where the block loop leaves a data unit with a partial block. */
  ghost predicate Looped(c: Cipher, decrypt: bool, p: Bytes, mid: Bytes, h: nat, t: Bytes, last: Bytes)
    requires Sized(c.enc) && Sized(c.dec) && |t| == 16
    requires h % 16 == 0 && h + 16 < |p| < h + 32 && |mid| == h + 16
  {
    var f := if decrypt then c.dec else c.enc;
    if !decrypt then
      BlocksDone(f, p[..h + 16], mid, t) && last == Tweak(t, h / 16 + 1)
    else
      && BlocksDone(f, p[..h], mid[..h], t)
      && |f(Xor(p[h..h + 16], Tweak(t, h / 16 + 1)))| == 16
      && mid[h..] == Xex(f, p[h..h + 16], Tweak(t, h / 16 + 1)) && last == Tweak(t, h / 16)
  }

  lemma LoopedIs(c: Cipher, decrypt: bool, p: Bytes, mid: Bytes, h: nat, t: Bytes, last: Bytes)
    requires Sized(c.enc) && Sized(c.dec) && |t| == 16
    requires h % 16 == 0 && h + 16 < |p| < h + 32 && |mid| == h + 16
    ensures Looped(c, decrypt, p, mid, h, t, last) <==>
      if !decrypt then
        BlocksDone(c.enc, p[..h + 16], mid, t) && last == Tweak(t, h / 16 + 1)
      else
        && BlocksDone(c.dec, p[..h], mid[..h], t)
        && |c.dec(Xor(p[h..h + 16], Tweak(t, h / 16 + 1)))| == 16
        && mid[h..] == Xex(c.dec, p[h..h + 16], Tweak(t, h / 16 + 1)) && last == Tweak(t, h / 16)
  {
    hide BlocksDone, Xex, Xor, Tweak, Sized;
  }

  lemma SameHead(c: Cipher, decrypt: bool, p: Bytes, p': Bytes, mid: Bytes, h: nat, t: Bytes, last: Bytes)
    requires Sized(c.enc) && Sized(c.dec) && |t| == 16
    requires h % 16 == 0 && h + 16 < |p| == |p'| < h + 32 && |mid| == h + 16 && p[..h + 16] == p'[..h + 16]
    requires Looped(c, decrypt, p, mid, h, t, last)
    ensures Looped(c, decrypt, p', mid, h, t, last)
  {
    hide BlocksDone, Xex, Xor, Tweak, Sized;
    assert p[..h] == p[..h + 16][..h] && p'[..h] == p'[..h + 16][..h];
    assert p[h..h + 16] == p[..h + 16][h..] && p'[h..h + 16] == p'[..h + 16][h..];
  }

  /** The last whole block the loop leaves is the one stolen from. */
  lemma StolenIs(c: Cipher, decrypt: bool, p: Bytes, mid: Bytes, h: nat, t: Bytes, last: Bytes)
    requires Sized(c.enc) && Sized(c.dec) && |t| == 16
    requires h % 16 == 0 && h + 16 < |p| < h + 32 && |mid| == h + 16
    requires Looped(c, decrypt, p, mid, h, t, last)
    ensures mid[h..] == Stolen(c, decrypt, p, t, h)
  {
    hide *;
    LoopedIs(c, decrypt, p, mid, h, t, last);
    StolenBlock(c, decrypt, p, t, h, if decrypt then c.dec else c.enc,
                Tweak(t, if decrypt then h / 16 + 1 else h / 16));
    if !decrypt {
      var a, b := p[..h], p[h..h + 16];
      DoneIs(c.enc, p[..h + 16], mid, t);
      ThreeParts(p, h);
      BlockwiseSnoc(c.enc, a, b, t);
      assert mid == Blockwise(c.enc, a, t) + Xex(c.enc, b, Tweak(t, h / 16));
    }
  }

  lemma StolenBlock(c: Cipher, decrypt: bool, p: Bytes, t: Bytes, h: nat, f: Bytes -> Bytes, u: Bytes)
    requires Sized(c.enc) && Sized(c.dec) && |t| == 16 && h + 16 <= |p|
    requires f == (if decrypt then c.dec else c.enc) && u == Tweak(t, if decrypt then h / 16 + 1 else h / 16)
    ensures |f(Xor(p[h..h + 16], u))| == 16 && Stolen(c, decrypt, p, t, h) == Xex(f, p[h..h + 16], u)
  {
    SizedAt(f, Xor(p[h..h + 16], u));
    hide Xex, Xor, Tweak, Sized;
  }

  /** The final stage completes the data unit. */
  method FinishUnit(c: Cipher, decrypt: bool, length: nat, input: array<bv8>, output: array<bv8>, off: nat,
                    last: array<bv8>, tmp: array<bv8>, ghost t: Bytes, ghost p: Bytes)
    requires Sized(c.enc) && Sized(c.dec) && |t| == 16 && last.Length == 16 && tmp.Length == 16 && last != tmp
    requires last != output && tmp != output && last != input && tmp != input
    requires 16 <= off < length < off + 16 && off % 16 == 0 && length <= input.Length && length <= output.Length
    requires |p| == length && (input != output ==> input[..length] == p)
    requires Looped(c, decrypt, p, output[..off], off - 16, t, last[..])
    modifies output, tmp
    ensures output[length..] == old(output[length..])
    ensures var q := AsRead(c, decrypt, input == output, p, t);
      output[..length] == if decrypt then XtsDecrypt(c, q, t) else XtsEncrypt(c, q, t)
  {
    hide *;
    var f := if decrypt then c.dec else c.enc;
    ghost var h, mid, r := off - 16, output[..off], length - off;
    ghost var cc := output[off - 16..off];
    assert output[..h] == mid[..h] && cc == mid[h..];
    ghost var q := AsRead(c, decrypt, input == output, p, t);
    StolenIs(c, decrypt, p, mid, h, t, last[..]);
    ReadIs(c, decrypt, input == output, p, t, h, cc);
    SameHead(c, decrypt, p, q, mid, h, t, last[..]);
    assert input != output ==> input[off..off + r] == input[..length][off..];
    StealStage(f, input, output, off, length - off, last, tmp);
    ghost var b := q[h + 16..] + cc[r..];
    Parts(output[..], h, length, mid[..h], Xex(f, b, last[..]), cc[..r]);
    PiecesIs(f, mid[..h], cc, q[h + 16..], last[..], output[..length], b);
    Assembled(c, decrypt, q, t, mid, output[..length], h, last[..]);
  }

  lemma Parts(s: Bytes, h: nat, length: nat, a: Bytes, b: Bytes, d: Bytes)
    requires h + 16 <= length <= |s| && s[..h] == a && s[h..h + 16] == b && s[h + 16..length] == d
    ensures s[..length] == a + (b + d)
  {
    Slices(s, length, h);
    ThreeParts(s[..length], h);
  }

  lemma ErrorCode()
    ensures INVALID_INPUT_LENGTH == -0x0022
  {}

  lemma WholeBlocks(c: Cipher, decrypt: bool, p: Bytes, q: Bytes, t: Bytes)
    requires Sized(c.enc) && Sized(c.dec) && |t| == 16 && |p| >= 16 && |p| % 16 == 0
    requires BlocksDone(if decrypt then c.dec else c.enc, p, q, t)
    ensures q == if decrypt then XtsDecrypt(c, p, t) else XtsEncrypt(c, p, t)
  {
    hide Blockwise, Sized, HeadLength, Steal;
  }

  /** A head and two pieces in the order the final stage writes them. */
  ghost predicate Pieces(f: Bytes -> Bytes, head: Bytes, cc: Bytes, partial: Bytes, last: Bytes, out: Bytes)
    requires |cc| == 16 && |partial| < 16 && |last| == 16 && Sized(f)
  {
    SizedAt(f, Xor(partial + cc[|partial|..], last));
    out == head + (Xex(f, partial + cc[|partial|..], last) + cc[..|partial|])
  }

  lemma PiecesIs(f: Bytes -> Bytes, head: Bytes, cc: Bytes, partial: Bytes, last: Bytes, out: Bytes, b: Bytes)
    requires |cc| == 16 && |partial| < 16 && |last| == 16 && Sized(f) && b == partial + cc[|partial|..]
    ensures |f(Xor(b, last))| == 16
    ensures Pieces(f, head, cc, partial, last, out) <==> out == head + (Xex(f, b, last) + cc[..|partial|])
  {
    SizedAt(f, Xor(b, last));
    hide Xex, Xor, Sized;
  }

  lemma EncryptPieces(c: Cipher, p: Bytes, t: Bytes, mid: Bytes, out: Bytes, h: nat)
    requires Sized(c.enc) && |t| == 16 && h % 16 == 0 && h + 16 < |p| < h + 32 && |mid| == h + 16
    requires BlocksDone(c.enc, p[..h + 16], mid, t)
    requires Pieces(c.enc, mid[..h], mid[h..], p[h + 16..], Tweak(t, h / 16 + 1), out)
    ensures out == XtsEncrypt(c, p, t)
  {
    hide *;
    var k, a, b := h / 16, p[..h], p[h..h + 16];
    HeadIs(|p|, h);
    DoneIs(c.enc, p[..h + 16], mid, t);
    BlockwiseSnoc(c.enc, a, b, t);
    ThreeParts(p, h);
    SizedAt(c.enc, Xor(b, Tweak(t, k)));
    var cc := Xex(c.enc, b, Tweak(t, k));
    assert mid == Blockwise(c.enc, a, t) + cc;
    assert mid[..h] == Blockwise(c.enc, a, t) && mid[h..] == cc;
    StealIs(c.enc, b, p[h + 16..], Tweak(t, k), Tweak(t, k + 1));
    PiecesIs(c.enc, mid[..h], cc, p[h + 16..], Tweak(t, k + 1), out, p[h + 16..] + cc[|p| - h - 16..]);
    EncryptIs(c, p, t, h);
  }

  lemma DecryptPieces(c: Cipher, p: Bytes, t: Bytes, mid: Bytes, out: Bytes, h: nat)
    requires Sized(c.dec) && |t| == 16 && h % 16 == 0 && h + 16 < |p| < h + 32 && |mid| == h + 16
    requires BlocksDone(c.dec, p[..h], mid[..h], t)
    requires |c.dec(Xor(p[h..h + 16], Tweak(t, h / 16 + 1)))| == 16
    requires mid[h..] == Xex(c.dec, p[h..h + 16], Tweak(t, h / 16 + 1))
    requires Pieces(c.dec, mid[..h], mid[h..], p[h + 16..], Tweak(t, h / 16), out)
    ensures out == XtsDecrypt(c, p, t)
  {
    hide *;
    var k, cc := h / 16, mid[h..];
    HeadIs(|p|, h);
    DoneIs(c.dec, p[..h], mid[..h], t);
    StealIs(c.dec, p[h..h + 16], p[h + 16..], Tweak(t, k + 1), Tweak(t, k));
    PiecesIs(c.dec, mid[..h], cc, p[h + 16..], Tweak(t, k), out, p[h + 16..] + cc[|p| - h - 16..]);
    DecryptIs(c, p, t, h);
  }

  /** What the loop and the final stage leave is the data unit of the definition. */
  lemma Assembled(c: Cipher, decrypt: bool, p: Bytes, t: Bytes, mid: Bytes, out: Bytes, h: nat, last: Bytes)
    requires Sized(c.enc) && Sized(c.dec) && |t| == 16 && |last| == 16
    requires h % 16 == 0 && h + 16 < |p| < h + 32 && |mid| == h + 16
    requires Looped(c, decrypt, p, mid, h, t, last)
    requires Pieces(if decrypt then c.dec else c.enc, mid[..h], mid[h..], p[h + 16..], last, out)
    ensures out == if decrypt then XtsDecrypt(c, p, t) else XtsEncrypt(c, p, t)
  {
    hide *;
    LoopedIs(c, decrypt, p, mid, h, t, last);
    if decrypt { DecryptPieces(c, p, t, mid, out, h); } else { EncryptPieces(c, p, t, mid, out, h); }
  }

  lemma ThreeParts(s: Bytes, h: nat)
    requires h + 16 <= |s|
    ensures s == s[..h] + (s[h..h + 16] + s[h + 16..])
    ensures s[..h] + s[h..h + 16] == s[..h + 16]
  {}

  lemma HeadIs(n: nat, h: nat)
    requires h % 16 == 0 && h + 16 <= n < h + 32
    ensures HeadLength(n) == h
  {}

  lemma DoneIs(f: Bytes -> Bytes, p: Bytes, q: Bytes, t: Bytes)
    requires |t| == 16 && |p| % 16 == 0 && Sized(f)
    ensures BlocksDone(f, p, q, t) <==> q == Blockwise(f, p, t)
  {
    hide Blockwise, Sized;
  }

  lemma StealIs(f: Bytes -> Bytes, last: Bytes, partial: Bytes, t1: Bytes, t2: Bytes)
    requires |last| == 16 && |partial| < 16 && |t1| == 16 && |t2| == 16 && Sized(f)
    ensures |f(Xor(last, t1))| == 16
    ensures var cc := Xex(f, last, t1);
      && |f(Xor(partial + cc[|partial|..], t2))| == 16
      && Steal(f, last, partial, t1, t2) == Xex(f, partial + cc[|partial|..], t2) + cc[..|partial|]
  {}

  lemma EncryptIs(c: Cipher, p: Bytes, t: Bytes, h: nat)
    requires |p| > 16 && |p| % 16 != 0 && h == HeadLength(|p|) && |t| == 16 && Sized(c.enc)
    ensures XtsEncrypt(c, p, t)
         == Blockwise(c.enc, p[..h], t) + Steal(c.enc, p[h..h + 16], p[h + 16..], Tweak(t, h / 16),
                                                Tweak(t, h / 16 + 1))
  {
    hide Blockwise, Sized, HeadLength, Steal, Tweak;
  }

  lemma DecryptIs(c: Cipher, p: Bytes, t: Bytes, h: nat)
    requires |p| > 16 && |p| % 16 != 0 && h == HeadLength(|p|) && |t| == 16 && Sized(c.dec)
    ensures XtsDecrypt(c, p, t)
         == Blockwise(c.dec, p[..h], t) + Steal(c.dec, p[h..h + 16], p[h + 16..], Tweak(t, h / 16 + 1),
                                                Tweak(t, h / 16))
  {
    hide Blockwise, Sized, HeadLength, Steal, Tweak;
  }
}
