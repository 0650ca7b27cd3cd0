/** CCM: the incremental interface of ccm.c against the one-shot definition. */
module Ccm {
  import opened Blocks
  import Arith
  import Paddings

  // ----- CBC-MAC, byte by byte ------------------------------------------------------------

  /** y with the bytes of c added in at position off */
  function XorAt(y: Bytes, off: nat, c: Bytes): (r: Bytes)
    requires off + |c| <= |y|
    ensures |r| == |y|
  {
    y[..off] + Xor(y[off..off + |c|], c) + y[off + |c|..]
  }

  lemma XorAtJoin(y: Bytes, off: nat, c: Bytes, d: Bytes)
    requires off + |c| + |d| <= |y|
    ensures XorAt(XorAt(y, off, c), off + |c|, d) == XorAt(y, off, c + d)
  {
    hide XorByte;
  }

  /** The working block after the bytes s have been added in from a block boundary on; every full
      block goes through the block function. */
  ghost function Run(f: Bytes -> Bytes, y: Bytes, s: Bytes): (r: Bytes)
    requires |y| == 16 && Sized(f)
    ensures |r| == 16
  {
    if s == [] then y else
      var n := |s| - 1;
      var w := XorAt(Run(f, y, s[..n]), n % 16, [s[n]]);
      if (n + 1) % 16 == 0 then f(w) else w
  }

  lemma RunEmpty(f: Bytes -> Bytes, y: Bytes)
    requires |y| == 16 && Sized(f)
    ensures Run(f, y, []) == y
  {}

  lemma RunByte(f: Bytes -> Bytes, y: Bytes, s: Bytes, b: bv8)
    requires |y| == 16 && Sized(f)
    ensures var w := XorAt(Run(f, y, s), |s| % 16, [b]);
      Run(f, y, s + [b]) == if (|s| + 1) % 16 == 0 then f(w) else w
  {
    hide XorAt;
    assert (s + [b])[..|s|] == s;
  }

  /** A piece that stays within a block. */
  lemma {:induction false} RunChunk(f: Bytes -> Bytes, y: Bytes, s: Bytes, c: Bytes)
    requires |y| == 16 && Sized(f) && 0 < |c| && |s| % 16 + |c| <= 16
    ensures var w := XorAt(Run(f, y, s), |s| % 16, c);
      Run(f, y, s + c) == if |s| % 16 + |c| == 16 then f(w) else w
    decreases |c|
  {
    hide *;
    var d, b, k := c[..|c| - 1], c[|c| - 1], |s| % 16;
    assert c == d + [b];
    PositionAfter(|s|, |d|);
    RunByte(f, y, s + d, b);
    assert s + c == (s + d) + [b];
    if d == [] {
      assert s + d == s;
    } else {
      RunChunk(f, y, s, d);
      XorAtJoin(Run(f, y, s), k, d, [b]);
    }
  }

  lemma PositionAfter(n: nat, d: nat)
    requires n % 16 + d < 16
    ensures (n + d) % 16 == n % 16 + d
    ensures (n + d + 1) % 16 == 0 <==> n % 16 + d + 1 == 16
  {}

  /** The working block when the data ends: a partial block goes through as well. */
  ghost function Flush(f: Bytes -> Bytes, y: Bytes, s: Bytes): (r: Bytes)
    requires |y| == 16 && Sized(f)
    ensures |r| == 16
  {
    SizedAt(f, Run(f, y, s));
    if |s| % 16 == 0 then Run(f, y, s) else f(Run(f, y, s))
  }

  // ----- The definition (NIST SP 800-38C, section 6) --------------------------------------

  /** Zero bytes up to a whole number of blocks */
  function Pad(s: Bytes): (r: Bytes)
    ensures |r| % 16 == 0
  {
    s + Nulls((16 - |s| % 16) % 16)
  }

  /** CBC-MAC over whole blocks from the chaining value y */
  ghost function CbcMac(f: Bytes -> Bytes, y: Bytes, s: Bytes): (r: Bytes)
    requires |y| == 16 && Sized(f) && |s| % 16 == 0
    ensures |r| == 16
  {
    if s == [] then y else
      var n := |s| - 16;
      f(Xor(CbcMac(f, y, s[..n]), s[n..]))
  }

  lemma CbcMacBlock(f: Bytes -> Bytes, y: Bytes, s: Bytes, b: Bytes)
    requires |y| == 16 && Sized(f) && |s| % 16 == 0 && |b| == 16
    ensures CbcMac(f, y, s + b) == f(Xor(CbcMac(f, y, s), b))
  {
    hide Xor;
    assert (s + b)[..|s|] == s && (s + b)[|s|..] == b;
  }

  lemma {:induction false} CbcMacAppend(f: Bytes -> Bytes, y: Bytes, s: Bytes, t: Bytes)
    requires |y| == 16 && Sized(f) && |s| % 16 == 0 && |t| % 16 == 0
    ensures CbcMac(f, y, s + t) == CbcMac(f, CbcMac(f, y, s), t)
    decreases |t|
  {
    if t == [] {
      assert s + t == s;
    } else {
      var n := |t| - 16;
      var a, b := t[..n], t[n..];
      CbcMacAppend(f, y, s, a);
      hide *;
      assert s + t == (s + a) + b && t == a + b;
      CbcMacBlock(f, y, s + a, b);
      CbcMacBlock(f, CbcMac(f, y, s), a, b);
    }
  }

  lemma XorAtWhole(y: Bytes, b: Bytes)
    requires |y| == 16 && |b| == 16
    ensures XorAt(y, 0, b) == Xor(y, b)
  {
    hide XorByte;
  }

  lemma XorNull(x: bv8)
    ensures XorByte(x, 0) == x
  {}

  lemma XorAtPadded(y: Bytes, r: Bytes)
    requires |y| == 16 && |r| < 16
    ensures XorAt(y, 0, r) == Xor(y, r + Nulls(16 - |r|))
  {
    hide XorByte;
    forall k | |r| <= k < 16 ensures XorByte(y[k], 0) == y[k] { XorNull(y[k]); }
  }

  lemma {:induction false} RunWhole(f: Bytes -> Bytes, y: Bytes, s: Bytes)
    requires |y| == 16 && Sized(f) && |s| % 16 == 0
    ensures Run(f, y, s) == CbcMac(f, y, s)
  {
    if s == [] {
      RunEmpty(f, y);
    } else {
      var n := |s| - 16;
      var a, b := s[..n], s[n..];
      RunWhole(f, y, a);
      hide *;
      assert s == a + b;
      RunChunk(f, y, a, b);
      XorAtWhole(Run(f, y, a), b);
      CbcMacBlock(f, y, a, b);
    }
  }

  /** The byte-wise absorption is CBC-MAC of the padded data. */
  lemma FlushIsCbcMac(f: Bytes -> Bytes, y: Bytes, s: Bytes)
    requires |y| == 16 && Sized(f)
    ensures Flush(f, y, s) == CbcMac(f, y, Pad(s))
  {
    hide *;
    var r := |s| % 16;
    var a, b := s[..|s| - r], s[|s| - r..];
    FlushIs(f, y, s);
    PadIs(s, r, a, b);
    RunWhole(f, y, a);
    if r == 0 {
      assert s == a;
    } else {
      RunChunk(f, y, a, b);
      XorAtPadded(Run(f, y, a), b);
      CbcMacBlock(f, y, a, b + Nulls(16 - r));
    }
  }

  lemma FlushIs(f: Bytes -> Bytes, y: Bytes, s: Bytes)
    requires |y| == 16 && Sized(f)
    ensures Flush(f, y, s) == if |s| % 16 == 0 then Run(f, y, s) else f(Run(f, y, s))
  {
    hide Run, Sized;
  }

  lemma PadIs(s: Bytes, r: nat, a: Bytes, b: Bytes)
    requires r == |s| % 16 && a == s[..|s| - r] && b == s[|s| - r..]
    ensures |a| % 16 == 0 && |b| == r && s == a + b
    ensures Pad(s) == if r == 0 then a else a + (b + Nulls(16 - r))
  {
    hide Nulls;
    WholePart(|s|);
    if r == 0 {
      assert s + Nulls(0) == a;
    } else {
      assert (16 - r) % 16 == 16 - r;
      assert s + Nulls(16 - r) == a + (b + Nulls(16 - r));
    }
  }

  lemma WholePart(n: nat)
    ensures n - n % 16 >= 0 && (n - n % 16) % 16 == 0
  {}

  // ----- Counter blocks and the key stream ------------------------------------------------

  function Successor(x: bv8): bv8 { x + 1 }

  /** The standard incrementing function on a counter field (section B.1 of NIST SP 800-38A) */
  function Increment(c: Bytes): (r: Bytes)
    ensures |r| == |c|
  {
    if c == [] then [] else
      var n := |c| - 1;
      if Successor(c[n]) != 0 then c[..n] + [Successor(c[n])] else Increment(c[..n]) + [0]
  }

  /** Counter block number k: flags and nonce stay, the last q bytes count up. */
  ghost function Counter(nonce: Bytes, q: nat, k: nat): (r: Bytes)
    requires |nonce| + 1 + q == 16
    ensures |r| == 16
  {
    [FlagQ(q)] + nonce + Count(q, k)
  }

  ghost function Count(q: nat, k: nat): (r: Bytes)
    ensures |r| == q
  {
    if k == 0 then Nulls(q) else Increment(Count(q, k - 1))
  }

  /** q - 1 in the low bits of a flags byte */
  function FlagQ(q: nat): bv8
  {
    ToByte(q - 1)
  }

  /** MBEDTLS_BYTE_0 of a length */
  function ToByte(n: int): bv8
  {
    (n % 256) as bv8
  }

  /** Byte number pos of the key stream; counter block 0 is kept for the tag. */
  ghost function KeyByte(f: Bytes -> Bytes, nonce: Bytes, q: nat, pos: nat): bv8
    requires |nonce| + 1 + q == 16 && Sized(f)
  {
    SizedAt(f, Counter(nonce, q, 1 + pos / 16));
    f(Counter(nonce, q, 1 + pos / 16))[pos % 16]
  }

  /** s encrypted, or decrypted, from position pos of the message on */
  ghost function CryptFrom(f: Bytes -> Bytes, nonce: Bytes, q: nat, pos: nat, s: Bytes): (r: Bytes)
    requires |nonce| + 1 + q == 16 && Sized(f)
    ensures |r| == |s| && forall i :: 0 <= i < |s| ==> r[i] == XorByte(s[i], KeyByte(f, nonce, q, pos + i))
  {
    seq(|s|, i requires 0 <= i < |s| => XorByte(s[i], KeyByte(f, nonce, q, pos + i)))
  }

  lemma CryptAppend(f: Bytes -> Bytes, nonce: Bytes, q: nat, pos: nat, s: Bytes, t: Bytes)
    requires |nonce| + 1 + q == 16 && Sized(f)
    ensures CryptFrom(f, nonce, q, pos, s + t)
         == CryptFrom(f, nonce, q, pos, s) + CryptFrom(f, nonce, q, pos + |s|, t)
  {
    hide XorByte, KeyByte, Sized;
    var l := CryptFrom(f, nonce, q, pos, s + t);
    var r := CryptFrom(f, nonce, q, pos, s) + CryptFrom(f, nonce, q, pos + |s|, t);
    forall i | 0 <= i < |s + t| ensures l[i] == r[i] {
      if i >= |s| { assert pos + i == (pos + |s|) + (i - |s|); }
    }
  }

  /** Decryption returns the plaintext. */
  lemma CryptTwice(f: Bytes -> Bytes, nonce: Bytes, q: nat, pos: nat, s: Bytes)
    requires |nonce| + 1 + q == 16 && Sized(f)
    ensures CryptFrom(f, nonce, q, pos, CryptFrom(f, nonce, q, pos, s)) == s
  {
    hide XorByte, KeyByte, Sized;
    forall i | 0 <= i < |s| ensures CryptFrom(f, nonce, q, pos, CryptFrom(f, nonce, q, pos, s))[i] == s[i] {
      XorByteTwice(s[i], KeyByte(f, nonce, q, pos + i));
    }
  }

  // ----- Byte strings as numbers ----------------------------------------------------------

  /** The number a byte string stands for, most significant byte first */
  ghost function Number(c: Bytes): nat
  {
    if c == [] then 0 else 256 * Number(c[..|c| - 1]) + Code(c[|c| - 1])
  }

  ghost function Code(b: bv8): nat { b as int }

  lemma CodeBound(b: bv8)
    ensures Code(b) < 256
  {}

  lemma CodeInjective(a: bv8, b: bv8)
    requires Code(a) == Code(b)
    ensures a == b
  {
    assert (a as int) as bv8 == a;
  }

  lemma LastDigit(v: nat, x: nat, w: nat, y: nat)
    requires x < 256 && y < 256 && 256 * v + x == 256 * w + y
    ensures v == w && x == y
  {}

  lemma NumberSnoc(c: Bytes, b: bv8)
    ensures Number(c + [b]) == 256 * Number(c) + Code(b)
  {
    hide Code;
    assert (c + [b])[..|c|] == c;
  }

  lemma NumberEmpty()
    ensures Number([]) == 0
  {}

  lemma RangeNext(n: nat)
    ensures FieldRange(0) == 1 && FieldRange(n + 1) == 256 * FieldRange(n)
  {}

  lemma {:induction false} NumberBound(c: Bytes)
    ensures Number(c) < FieldRange(|c|)
  {
    hide Code;
    if c != [] {
      NumberBound(c[..|c| - 1]);
      RangeNext(|c| - 1);
      CodeBound(c[|c| - 1]);
    }
  }

  /** Strings of one length and one number are equal. */
  lemma {:induction false} NumberInjective(c: Bytes, d: Bytes)
    requires |c| == |d| && Number(c) == Number(d)
    ensures c == d
  {
    if c != [] {
      var n := |c| - 1;
      var a, b, x, y := c[..n], d[..n], c[n], d[n];
      hide *;
      assert c == a + [x] && d == b + [y];
      NumberSnoc(a, x);
      NumberSnoc(b, y);
      CodeBound(x);
      CodeBound(y);
      LastDigit(Number(a), Code(x), Number(b), Code(y));
      CodeInjective(x, y);
      NumberInjective(a, b);
    }
  }

  lemma SuccessorNumber(x: bv8)
    ensures Code(Successor(x)) == if Code(x) == 255 then 0 else Code(x) + 1
    ensures Successor(x) == 0 <==> Code(x) == 255
  {
    if x == 255 { assert Successor(x) == 0; } else { assert Successor(x) as int == x as int + 1; }
  }

  lemma ByteNumber(n: int)
    ensures Code(ToByte(n)) == n % 256
  {
    ByteCode(n % 256);
  }

  lemma ByteCode(m: nat)
    requires m < 256
    ensures (m as bv8) as int == m
  {
    Paddings.ByteValue(m);
  }

  /** Incrementing a counter field adds one to its number, and the number wraps around at the end of its range. */
  lemma {:induction false} IncrementNumber(c: Bytes)
    ensures Number(Increment(c)) == (Number(c) + 1) % FieldRange(|c|)
  {
    hide *;
    if c == [] {
      IncrementEmpty();
      NumberEmpty();
      RangeNext(0);
      Arith.DivModUnique(1, 1, 1, 0);
    } else {
      var n := |c| - 1;
      IncrementNumber(c[..n]);
      IncrementIs(c);
      assert c == c[..n] + [c[n]];
      IncrementLast(c[..n], c[n]);
    }
  }

  /** The last byte counts up, or becomes zero and carries. */
  lemma IncrementLast(d: Bytes, y: bv8)
    requires Number(Increment(d)) == (Number(d) + 1) % FieldRange(|d|)
    ensures Number(if Successor(y) != 0 then d + [Successor(y)] else Increment(d) + [0])
         == (Number(d + [y]) + 1) % FieldRange(|d| + 1)
  {
    hide *;
    var x, v, r := Successor(y), Number(d), FieldRange(|d|);
    SuccessorNumber(y);
    NumberBound(d);
    NumberSnoc(d, y);
    RangeNext(|d|);
    CodeBound(y);
    if x != 0 {
      NumberSnoc(d, x);
      NoCarry(v, Code(y), r);
    } else {
      NumberSnoc(Increment(d), 0);
      CodeZero();
      CarryOver(v, r);
    }
  }

  lemma CodeZero()
    ensures Code(0) == 0
  {}

  lemma NoCarry(v: nat, y: nat, r: nat)
    requires v < r && y < 255
    ensures 256 * v + (y + 1) == (256 * v + y + 1) % (256 * r)
  {
    Arith.DivModSmall(256 * v + y + 1, 256 * r);
  }

  lemma CarryOver(v: nat, r: nat)
    requires v < r
    ensures 256 * ((v + 1) % r) == (256 * v + 255 + 1) % (256 * r)
  {
    if v + 1 < r {
      Arith.DivModSmall(v + 1, r);
      Arith.DivModSmall(256 * (v + 1), 256 * r);
    } else {
      Arith.DivModUnique(r, r, 1, 0);
      Arith.DivModUnique(256 * r, 256 * r, 1, 0);
    }
  }

  /** Counter field number k holds k, up to the range of the field. */
  lemma {:induction false} CountNumber(q: nat, k: nat)
    requires k < FieldRange(q)
    ensures Number(Count(q, k)) == k
  {
    hide *;
    CountZero(q);
    if k == 0 {
      NullsNumber(q);
    } else {
      CountNumber(q, k - 1);
      CountNext(q, k - 1);
      IncrementNumber(Count(q, k - 1));
      Arith.DivModSmall(k, FieldRange(q));
    }
  }

  lemma CountNext(q: nat, k: nat)
    ensures Count(q, k + 1) == Increment(Count(q, k))
  {
    hide Increment;
  }

  lemma {:induction false} NullsNumber(n: nat)
    ensures Number(Nulls(n)) == 0
  {
    if n > 0 {
      NullsNumber(n - 1);
      CodeZero();
      hide Code;
      assert Nulls(n)[..n - 1] == Nulls(n - 1);
    }
  }

  /** Counter block k is the flags byte, the nonce and the number k in q bytes (section A.3 of NIST SP 800-38C); so
      no two counter blocks of a message are equal. */
  lemma CounterIs(nonce: Bytes, q: nat, k: nat)
    requires |nonce| + 1 + q == 16 && k < FieldRange(q) && q > 0
    ensures var c := Counter(nonce, q, k);
      c[0] as int == q - 1 && c[1..16 - q] == nonce && Number(c[16 - q..]) == k
  {
    CountNumber(q, k);
    FlagCode(q);
    hide *;
    CounterHead(nonce, q, k);
    var c := Counter(nonce, q, k);
    assert c[0] == c[..16 - q][0] && c[1..16 - q] == c[..16 - q][1..];
  }

  lemma FlagCode(q: nat)
    requires 0 < q <= 16
    ensures ToByte(q - 1) as int == q - 1
  {
    ByteCode(q - 1);
  }

  lemma CountersDiffer(nonce: Bytes, q: nat, j: nat, k: nat)
    requires |nonce| + 1 + q == 16 && j < FieldRange(q) && k < FieldRange(q) && q > 0
    ensures Counter(nonce, q, j) == Counter(nonce, q, k) <==> j == k
  {
    CounterIs(nonce, q, j);
    CounterIs(nonce, q, k);
    hide Number, FieldRange, Counter;
  }

  /** The length field holds the length, if it has the range. */
  lemma {:induction false} BigEndianNumber(n: nat, q: nat)
    ensures Number(BigEndian(n, q)) == n % FieldRange(q)
  {
    if q > 0 {
      var r := FieldRange(q - 1);
      BigEndianNumber(n / 256, q - 1);
      BigEndianStep(n, q);
      ByteNumber(n);
      hide *;
      NumberSnoc(BigEndian(n / 256, q - 1), ToByte(n));
      RangeNext(q - 1);
      SplitMod(n, r);
    } else {
      NumberEmpty();
    }
  }

  lemma SplitMod(n: nat, r: nat)
    requires r > 0
    ensures 256 * (n / 256 % r) + n % 256 == n % (256 * r)
  {
    var h, l, k := n / 256 % r, n % 256, n / 256 / r;
    assert n / 256 == r * k + h;
    assert n == (256 * r) * k + (256 * h + l);
    Arith.DivModLow(n, 256 * r, k, 256 * h + l);
  }

  /** The flags byte of the first block (section A.2.1): bit 6 for associated data, (t - 2) / 2 in bits 3 to 5, q - 1
      in bits 0 to 2; the empty tag of CCM* sets the bits 3 to 7 instead. */
  lemma FlagsNumber(adPresent: bool, t: nat, q: nat)
    requires t == 0 || (4 <= t <= 16 && t % 2 == 0)
    requires 2 <= q <= 8
    ensures FlagsByte(adPresent, t, q) as int
         == if t == 0 then 248 + (q - 1) else (if adPresent then 64 else 0) + 8 * ((t - 2) / 2) + (q - 1)
  {
    FlagCode(q);
    LowBits(q - 1);
    var a: bv8 := if adPresent then 0x40 else 0;
    var m := ToByte(q - 1);
    FlagsIs(adPresent, t, q);
    if t == 0 {
      hide *;
      OrAll(a);
      OrLow(0xF8, m);
    } else {
      var u := (t - 2) / 2;
      ShiftedBits(u);
      hide *;
      OrMid(a, ToByte(8 * u));
      OrLow(OrByte(OrByte(0, a), ToByte(8 * u)), m);
    }
  }

  lemma LowBits(u: nat)
    requires u < 8
    ensures ToByte(u) < 8
  {}

  lemma ShiftedBits(u: nat)
    requires u < 8
    ensures ToByte(8 * u) & 7 == 0 && ToByte(8 * u) < 64 && ToByte(8 * u) as int == 8 * u
  {
    ByteCode(8 * u);
    assert 8 * u % 256 == 8 * u;
    if u == 0 {} else if u == 1 {} else if u == 2 {} else if u == 3 {} else if u == 4 {} else if u == 5 {}
    else if u == 6 {} else {}
  }

  lemma OrLow(a: bv8, m: bv8)
    requires a & 7 == 0 && m < 8
    ensures OrByte(a, m) as int == a as int + m as int
  {}

  lemma OrMid(a: bv8, f: bv8)
    requires (a == 0 || a == 0x40) && f < 64 && f & 7 == 0
    ensures OrByte(OrByte(0, a), f) as int == a as int + f as int
    ensures OrByte(OrByte(0, a), f) & 7 == 0
  {}

  lemma OrAll(a: bv8)
    requires a == 0 || a == 0x40
    ensures OrByte(OrByte(0, a), 0xF8) == 0xF8
  {}

  lemma FlagsIs(adPresent: bool, t: nat, q: nat)
    ensures FlagsByte(adPresent, t, q) ==
      OrByte(OrByte(OrByte(0, if adPresent then 0x40 else 0), if t == 0 then 0xF8 else ToByte(8 * ((t - 2) / 2))),
             ToByte(q - 1))
  {}

  /** The associated data is preceded by its length as a two-byte number (section A.2.2). */
  lemma AdPrefix(adLen: nat, ad: Bytes)
    requires adLen < 0xFF00
    ensures Number(AdStream(adLen, ad)[..2]) == adLen && AdStream(adLen, ad)[2..] == ad
  {
    var hi, lo := ToByte(adLen / 256), ToByte(adLen);
    AdStreamIs(adLen, ad);
    hide *;
    ByteNumber(adLen / 256);
    ByteNumber(adLen);
    NumberEmpty();
    NumberSnoc([], hi);
    NumberSnoc([hi], lo);
    assert [] + [hi] == [hi] && [hi] + [lo] == [hi, lo];
    TwoBytes(adLen);
  }

  lemma AdStreamIs(adLen: nat, ad: Bytes)
    ensures AdStream(adLen, ad)[..2] == [ToByte(adLen / 256), ToByte(adLen)] && AdStream(adLen, ad)[2..] == ad
  {
    hide ToByte;
  }

  lemma TwoBytes(n: nat)
    requires n < 0x1_0000
    ensures 256 * (n / 256 % 256) + n % 256 == n
  {
    Arith.DivModSmall(n / 256, 256);
  }

  /** A byte of the payload is added to the byte at its place in the image of the counter block whose number is one
      more than the block's: that block is given by the length field, the nonce and the number alone. */
  lemma PayloadByte(f: Bytes -> Bytes, nonce: Bytes, q: nat, p: Bytes, i: nat, ctr: Bytes)
    requires |nonce| + 1 + q == 16 && q > 0 && Sized(f) && i < |p| && 1 + i / 16 < FieldRange(q)
    requires |ctr| == 16 && ctr[0] as int == q - 1 && ctr[1..16 - q] == nonce && Number(ctr[16 - q..]) == 1 + i / 16
    ensures |f(ctr)| == 16 && CryptFrom(f, nonce, q, 0, p)[i] == XorByte(p[i], f(ctr)[i % 16])
  {
    SizedAt(f, ctr);
    CounterIs(nonce, q, 1 + i / 16);
    hide Number, FieldRange, Counter, Sized, XorByte;
    SameCounter(ctr, Counter(nonce, q, 1 + i / 16), q);
  }

  lemma SameCounter(c: Bytes, d: Bytes, q: nat)
    requires |c| == |d| == 16 && q < 16 && c[0] as int == d[0] as int && c[1..16 - q] == d[1..16 - q]
    requires Number(c[16 - q..]) == Number(d[16 - q..])
    ensures c == d
  {
    NumberInjective(c[16 - q..], d[16 - q..]);
    FirstSame(c[0], d[0]);
    hide Number;
    assert c == [c[0]] + c[1..16 - q] + c[16 - q..];
    assert d == [d[0]] + d[1..16 - q] + d[16 - q..];
  }

  lemma FirstSame(a: bv8, b: bv8)
    requires a as int == b as int
    ensures a == b
  {
    CodeInjective(a, b);
  }

  // ----- Formatting (NIST SP 800-38C, section A.2) ----------------------------------------

  function OrByte(a: bv8, b: bv8): bv8 { a | b }

  /** (t - 2) / 2 in bits 3 to 5; for the empty tag of CCM* the subtraction wraps around */
  function FlagT(t: nat): bv8
  {
    if t == 0 then 0xF8 else ToByte(8 * ((t - 2) / 2))
  }

  function FlagsByte(adPresent: bool, t: nat, q: nat): bv8
  {
    OrByte(OrByte(OrByte(0, if adPresent then 0x40 else 0), FlagT(t)), FlagQ(q))
  }

  /** n as q bytes, most significant first */
  function BigEndian(n: nat, q: nat): (r: Bytes)
    ensures |r| == q
  {
    if q == 0 then [] else BigEndian(n / 256, q - 1) + [ToByte(n)]
  }

  /** The first block B_0: flags, nonce and message length */
  ghost function FirstBlock(nonce: Bytes, q: nat, adLen: nat, ptLen: nat, t: nat): (r: Bytes)
    requires |nonce| + 1 + q == 16
    ensures |r| == 16
  {
    [FlagsByte(adLen > 0, t, q)] + nonce + BigEndian(ptLen, q)
  }

  /** The length of the associated data in two bytes, and the data */
  function AdStream(adLen: nat, ad: Bytes): Bytes
  {
    [ToByte(adLen / 256), ToByte(adLen)] + ad
  }

  /** All blocks of the formatted input after B_0 */
  function Formatted(ad: Bytes, p: Bytes): (r: Bytes)
    ensures |r| % 16 == 0
  {
    WholeBlocks(|Pad(AdStream(|ad|, ad))|, |Pad(p)|);
    (if ad == [] then [] else Pad(AdStream(|ad|, ad))) + Pad(p)
  }

  lemma WholeBlocks(m: nat, n: nat)
    requires m % 16 == 0 && n % 16 == 0
    ensures (m + n) % 16 == 0
  {}

  /** The whole formatted input */
  ghost function MacInput(nonce: Bytes, q: nat, t: nat, ad: Bytes, p: Bytes): (r: Bytes)
    requires |nonce| + 1 + q == 16
    ensures |r| % 16 == 0
  {
    WholeBlocks(16, |Formatted(ad, p)|);
    FirstBlock(nonce, q, |ad|, |p|, t) + Formatted(ad, p)
  }

  /** The tag of section 6.1: CBC-MAC of the formatted input, masked with counter block 0 */
  ghost function Tag(f: Bytes -> Bytes, nonce: Bytes, q: nat, t: nat, ad: Bytes, p: Bytes): (r: Bytes)
    requires |nonce| + 1 + q == 16 && Sized(f)
    ensures |r| == 16
  {
    SizedAt(f, Counter(nonce, q, 0));
    Xor(CbcMac(f, Nulls(16), MacInput(nonce, q, t, ad, p)), f(Counter(nonce, q, 0)))
  }

  // ----- Working on the buffers -----------------------------------------------------------

  /** y[off ..] ^= src[soff ..], n bytes */
  method XorInto(y: array<bv8>, off: nat, src: array<bv8>, soff: nat, n: nat)
    requires y != src && off + n <= y.Length && soff + n <= src.Length
    modifies y
    ensures y[..] == XorAt(old(y[..]), off, src[soff..soff + n])
  {
    hide *;
    ghost var p := y[..];
    assert y[off..off + n] == p[off..off + n];
    XorBlock(y, off, y, off, src, soff, n);
    XorAtIs(p, off, src[soff..soff + n]);
    assert y[..] == y[..off] + y[off..off + n] + y[off + n..];
  }

  lemma XorAtIs(y: Bytes, off: nat, c: Bytes)
    requires off + |c| <= |y|
    ensures XorAt(y, off, c) == y[..off] + Xor(y[off..off + |c|], c) + y[off + |c|..]
  {}

  /** for( i = 0; i < q; i++ ) if( ++ctr[15 - i] != 0 ) break; */
  method IncrementCounter(ctr: array<bv8>, q: nat)
    requires ctr.Length == 16 && q <= 16
    modifies ctr
    ensures ctr[..] == old(ctr[..16 - q]) + Increment(old(ctr[16 - q..]))
    ensures ctr[..16 - q] == old(ctr[..16 - q])
    ensures Number(ctr[16 - q..]) == (Number(old(ctr[16 - q..])) + 1) % FieldRange(q)
  {
    hide *;
    ghost var head, field := ctr[..16 - q], ctr[16 - q..];
    IncrementNumber(field);
    assert field[..q] == field && Increment(field) + Nulls(0) == Increment(field);
    var i := 0;
    assert ctr[..] == head + (field[..q] + Nulls(0));
    CountingIs(ctr[..], head, field, 0);
    while i < q
      invariant 0 <= i <= q && Counting(ctr[..], head, field, i)
    {
      ghost var was := ctr[..];
      IncrementAt(was, head, field, i);
      ctr[15 - i] := Successor(ctr[15 - i]);
      assert ctr[..] == was[15 - i := Successor(was[15 - i])];
      if ctr[15 - i] != 0 {
        return;
      }
      i := i + 1;
    }
    IncrementEmpty();
    CountingEnds(ctr[..], head, field);
  }

  /** The counter block after i bytes have become zero. */
  ghost predicate Counting(ctr: Bytes, head: Bytes, field: Bytes, i: nat)
  {
    var q := |field|;
    && i <= q
    && ctr == head + (field[..q - i] + Nulls(i))
    && Increment(field) == Increment(field[..q - i]) + Nulls(i)
  }

  lemma IncrementAt(ctr: Bytes, head: Bytes, field: Bytes, i: nat)
    requires |head| + |field| == 16 && i < |field| && Counting(ctr, head, field, i)
    ensures |ctr| == 16
    ensures var x := Successor(ctr[15 - i]);
      && (x != 0 ==> ctr[15 - i := x] == head + Increment(field))
      && (x == 0 ==> Counting(ctr[15 - i := x], head, field, i + 1))
  {
    hide *;
    CountingIs(ctr, head, field, i);
    var c := field[..|field| - i];
    var x := Successor(ctr[15 - i]);
    IncrementStep(c, i);
    assert ctr[15 - i] == c[|c| - 1];
    assert ctr[15 - i := x] == head + (c + Nulls(i))[|c| - 1 := x];
    if x == 0 {
      assert c[..|c| - 1] == field[..|field| - (i + 1)];
      CountingIs(ctr[15 - i := x], head, field, i + 1);
    }
  }

  lemma CountingIs(ctr: Bytes, head: Bytes, field: Bytes, i: nat)
    requires i <= |field|
    ensures Counting(ctr, head, field, i) <==>
      && ctr == head + (field[..|field| - i] + Nulls(i))
      && Increment(field) == Increment(field[..|field| - i]) + Nulls(i)
  {}

  lemma CountingEnds(ctr: Bytes, head: Bytes, field: Bytes)
    requires Counting(ctr, head, field, |field|) && Increment([]) == []
    ensures ctr == head + Increment(field)
  {
    assert field[..0] == [];
  }

  lemma IncrementEmpty()
    ensures Increment([]) == []
  {}

  lemma IncrementStep(c: Bytes, i: nat)
    requires |c| > 0
    ensures var n := |c| - 1; var x := Successor(c[n]);
      && (x != 0 ==> Increment(c) + Nulls(i) == (c + Nulls(i))[n := x])
      && (x == 0 ==> Increment(c) + Nulls(i) == Increment(c[..n]) + Nulls(i + 1))
      && (x == 0 ==> (c + Nulls(i))[n := x] == c[..n] + Nulls(i + 1))
  {
    hide *;
    var n := |c| - 1;
    var x := Successor(c[n]);
    IncrementIs(c);
    SetLast(c, Nulls(i), x);
    NullsCons(i);
    if x == 0 {
      Regroup(Increment(c[..n]), 0, Nulls(i));
    } else {
      Regroup(c[..n], x, Nulls(i));
    }
  }

  lemma SetLast(c: Bytes, z: Bytes, x: bv8)
    requires |c| > 0
    ensures (c + z)[|c| - 1 := x] == c[..|c| - 1] + ([x] + z)
  {}

  lemma NullsCons(i: nat)
    ensures [0] + Nulls(i) == Nulls(i + 1)
  {}

  lemma Regroup(a: Bytes, x: bv8, z: Bytes)
    ensures (a + [x]) + z == a + ([x] + z)
  {}

  lemma IncrementIs(c: Bytes)
    requires |c| > 0
    ensures var n := |c| - 1; var x := Successor(c[n]);
      Increment(c) == if x != 0 then c[..n] + [x] else Increment(c[..n]) + [0]
  {
    hide Successor;
  }

  // ----- The context ----------------------------------------------------------------------

  datatype Mode = Encrypt | Decrypt | StarEncrypt | StarDecrypt

  /** MBEDTLS_ERR_CCM_BAD_INPUT and MBEDTLS_ERR_ERROR_CORRUPTION_DETECTED */
  const BAD_INPUT: int := -0x000D
  const CORRUPTION_DETECTED: int := -0x006E

  /** 256 to the q: the message length field has q bytes. */
  function FieldRange(q: nat): (r: nat)
    ensures r > 0
  {
    if q == 0 then 1 else 256 * FieldRange(q - 1)
  }

  /** The chaining value once the associated data seen so far has been absorbed */
  ghost function AfterAd(f: Bytes -> Bytes, nonce: Bytes, q: nat, adLen: nat, ptLen: nat, t: nat, ad: Bytes): (r: Bytes)
    requires |nonce| + 1 + q == 16 && Sized(f)
    ensures |r| == 16
  {
    SizedAt(f, FirstBlock(nonce, q, adLen, ptLen, t));
    var y0 := f(FirstBlock(nonce, q, adLen, ptLen, t));
    if ad == [] then y0
    else if |ad| < adLen then Run(f, y0, AdStream(adLen, ad))
    else Flush(f, y0, AdStream(adLen, ad))
  }

  /** The working block y of a message in progress */
  ghost function Working(f: Bytes -> Bytes, nonce: Bytes, q: nat, adLen: nat, ptLen: nat, t: nat, ad: Bytes,
                         p: Bytes): (r: Bytes)
    requires |nonce| + 1 + q == 16 && Sized(f)
    ensures |r| == 16
  {
    var y1 := AfterAd(f, nonce, q, adLen, ptLen, t, ad);
    if ptLen > 0 && |p| == ptLen then Flush(f, y1, p) else Run(f, y1, p)
  }

  /** At the end of the message the masked working block is the tag of the definition. */
  lemma WorkingIsTag(f: Bytes -> Bytes, nonce: Bytes, q: nat, t: nat, ad: Bytes, p: Bytes)
    requires |nonce| + 1 + q == 16 && Sized(f)
    ensures |f(Counter(nonce, q, 0))| == 16
    ensures Tag(f, nonce, q, t, ad, p)
         == Xor(Working(f, nonce, q, |ad|, |p|, t, ad, p), f(Counter(nonce, q, 0)))
  {
    hide *;
    var b0 := FirstBlock(nonce, q, |ad|, |p|, t);
    var y1 := AfterAd(f, nonce, q, |ad|, |p|, t, ad);
    TagIs(f, nonce, q, t, ad, p);
    FirstBlockMac(f, b0);
    AdMac(f, nonce, q, t, ad, |p|);
    WorkingIs(f, nonce, q, |ad|, |p|, t, ad, p);
    FlushIsCbcMac(f, y1, p);
    PayloadDone(f, y1, p);
    FormattedIs(ad, p);
    var a := if ad == [] then [] else Pad(AdStream(|ad|, ad));
    CbcMacAppend(f, y1, [], Pad(p));
    CbcMacAppend(f, Nulls(16), b0, Formatted(ad, p));
    CbcMacAppend(f, CbcMac(f, Nulls(16), b0), a, Pad(p));
  }

  lemma TagIs(f: Bytes -> Bytes, nonce: Bytes, q: nat, t: nat, ad: Bytes, p: Bytes)
    requires |nonce| + 1 + q == 16 && Sized(f)
    ensures |f(Counter(nonce, q, 0))| == 16
    ensures MacInput(nonce, q, t, ad, p) == FirstBlock(nonce, q, |ad|, |p|, t) + Formatted(ad, p)
    ensures Tag(f, nonce, q, t, ad, p) ==
      Xor(CbcMac(f, Nulls(16), MacInput(nonce, q, t, ad, p)), f(Counter(nonce, q, 0)))
  {
    SizedAt(f, Counter(nonce, q, 0));
    hide CbcMac, FirstBlock, Formatted, Counter, Sized;
  }

  lemma FirstBlockMac(f: Bytes -> Bytes, b0: Bytes)
    requires Sized(f) && |b0| == 16
    ensures |f(b0)| == 16 && CbcMac(f, Nulls(16), b0) == f(b0)
  {
    SizedAt(f, b0);
    hide Sized, XorByte, Nulls;
    CbcMacBlock(f, Nulls(16), [], b0);
    assert [] + b0 == b0;
    forall k | 0 <= k < 16 ensures Xor(Nulls(16), b0)[k] == b0[k] {
      XorNull(b0[k]);
      XorByteTwice(b0[k], 0);
    }
    assert Xor(Nulls(16), b0) == b0;
  }

  lemma AdMac(f: Bytes -> Bytes, nonce: Bytes, q: nat, t: nat, ad: Bytes, ptLen: nat)
    requires |nonce| + 1 + q == 16 && Sized(f)
    ensures var b0 := FirstBlock(nonce, q, |ad|, ptLen, t);
      |f(b0)| == 16 && AfterAd(f, nonce, q, |ad|, ptLen, t, ad)
        == CbcMac(f, f(b0), if ad == [] then [] else Pad(AdStream(|ad|, ad)))
  {
    var b0 := FirstBlock(nonce, q, |ad|, ptLen, t);
    SizedAt(f, b0);
    if ad != [] { FlushIsCbcMac(f, f(b0), AdStream(|ad|, ad)); }
    hide Sized, Flush, Run, FirstBlock, AdStream, Pad;
  }

  lemma WorkingIs(f: Bytes -> Bytes, nonce: Bytes, q: nat, adLen: nat, ptLen: nat, t: nat, ad: Bytes, p: Bytes)
    requires |nonce| + 1 + q == 16 && Sized(f)
    ensures var y1 := AfterAd(f, nonce, q, adLen, ptLen, t, ad);
      Working(f, nonce, q, adLen, ptLen, t, ad, p)
      == if ptLen > 0 && |p| == ptLen then Flush(f, y1, p) else Run(f, y1, p)
  {
    hide Sized, Flush, Run, AfterAd;
  }

  lemma PayloadDone(f: Bytes -> Bytes, y: Bytes, p: Bytes)
    requires |y| == 16 && Sized(f)
    ensures (if |p| > 0 then Flush(f, y, p) else Run(f, y, p)) == Flush(f, y, p)
  {
    hide Run, Sized;
  }

  lemma FormattedIs(ad: Bytes, p: Bytes)
    ensures Formatted(ad, p) == (if ad == [] then [] else Pad(AdStream(|ad|, ad))) + Pad(p)
  {
    hide Pad, AdStream;
  }

  /** for( i = 0; i < q; i++, len >>= 8 ) y[15 - i] = BYTE_0( len ); what is left of len */
  method WriteLength(y: array<bv8>, q: nat, len: nat) returns (left: nat)
    requires y.Length == 16 && q <= 16
    modifies y
    ensures y[..] == old(y[..16 - q]) + BigEndian(len, q)
    ensures left == 0 <==> len < FieldRange(q)
  {
    hide *;
    ghost var head := y[..16 - q];
    left := len;
    var i := 0;
    assert BigEndian(len, q) + y[16..] == BigEndian(len, q);
    while i < q
      invariant 0 <= i <= q && y[..16 - q] == head
      invariant BigEndian(len, q) == BigEndian(left, q - i) + y[16 - i..]
      invariant len < FieldRange(q) <==> left < FieldRange(q - i)
    {
      BigEndianStep(left, q - i);
      ghost var was := y[..];
      y[15 - i] := ToByte(left);
      StoredByte(was, y[..], 15 - i, 16 - q);
      Regroup(BigEndian(left / 256, q - i - 1), ToByte(left), was[16 - i..]);
      left := left / 256;
      i := i + 1;
    }
    FieldEmpty();
    BigEndianEmpty(left);
    assert y[..] == head + y[16 - q..];
  }

  lemma StoredByte(was: Bytes, now: Bytes, j: nat, h: nat)
    requires |was| == |now| && h <= j < |was| && now == was[j := now[j]]
    ensures now[j..] == [now[j]] + was[j + 1..] && now[..h] == was[..h]
  {}

  lemma BigEndianStep(n: nat, q: nat)
    requires q > 0
    ensures BigEndian(n, q) == BigEndian(n / 256, q - 1) + [ToByte(n)]
    ensures n < FieldRange(q) <==> n / 256 < FieldRange(q - 1)
  {
    hide ToByte;
    assert FieldRange(q) == 256 * FieldRange(q - 1);
  }

  lemma BigEndianEmpty(n: nat)
    ensures BigEndian(n, 0) == []
  {}

  lemma FieldEmpty()
    ensures FieldRange(0) == 1
  {}

  /** The first counter block. */
  method StartCounter(ctr: array<bv8>, q: nat, iv: array<bv8>, ivLen: nat)
    requires ctr.Length == 16 && iv != ctr
    requires 0 < q && 1 + ivLen + q == 16 && ivLen <= iv.Length
    modifies ctr
    ensures ctr[..] == Counter(iv[..ivLen], q, 1)
  {
    hide *;
    forall k | 0 <= k < 16 { ctr[k] := 0; }
    ctr[0] := ToByte(q - 1);
    CopyBlock(ctr, 1, iv, 0, ivLen);
    ghost var head := ctr[..1 + ivLen];
    assert head[1..] == ctr[1..1 + ivLen] == iv[0..0 + ivLen] == iv[..ivLen];
    forall k | 1 + ivLen <= k < 16 { ctr[k] := 0; }
    ctr[15] := 1;
    FirstCounter(iv[..ivLen], q);
    assert ctr[..1 + ivLen] == head && head == [ToByte(q - 1)] + iv[..ivLen];
    LastOne(ctr[1 + ivLen..]);
    assert ctr[..] == ctr[..1 + ivLen] + ctr[1 + ivLen..];
  }

  lemma LastOne(s: Bytes)
    requires |s| > 0 && (forall k :: 0 <= k < |s| - 1 ==> s[k] == 0) && s[|s| - 1] == 1
    ensures s == Nulls(|s| - 1) + [1]
  {
    hide *;
  }

  /** The nonce into the working block. */
  method LoadNonce(y: array<bv8>, q: nat, iv: array<bv8>, ivLen: nat)
    requires y.Length == 16 && iv != y
    requires 0 < q && 1 + ivLen + q == 16 && ivLen <= iv.Length && y[..] == Nulls(16)
    modifies y
    ensures y[..] == [0] + iv[..ivLen] + Nulls(q)
  {
    hide *;
    CopyBlock(y, 1, iv, 0, ivLen);
    assert y[1..1 + ivLen] == iv[0..0 + ivLen] == iv[..ivLen];
    assert y[..1] == [0] && y[1 + ivLen..] == Nulls(q);
    assert y[..] == y[..1] + y[1..1 + ivLen] + y[1 + ivLen..];
  }

  lemma FirstCounter(nonce: Bytes, q: nat)
    requires 0 < q && |nonce| + 1 + q == 16
    ensures Counter(nonce, q, 1) == [ToByte(q - 1)] + nonce + (Nulls(q - 1) + [1])
  {
    IncrementIs(Nulls(q));
    assert Successor(0) == 1;
    hide ToByte, Increment, Successor;
    assert Nulls(q)[..q - 1] == Nulls(q - 1);
    assert Count(q, 1) == Increment(Count(q, 0)) && Count(q, 0) == Nulls(q);
  }

  /** What mbedtls_ccm_set_lengths checks. */
  ghost predicate LengthsValid(adLen: nat, t: nat)
  {
    adLen < 0xFF00 && (t == 0 || (4 <= t <= 16 && t % 2 == 0))
  }

  /** The lengths fit the formatting: the message length its q bytes, and an empty tag is for CCM* only. */
  ghost predicate FirstBlockOk(mode: Mode, q: nat, ptLen: nat, t: nat)
  {
    if t == 0 then mode.StarEncrypt? || mode.StarDecrypt? else ptLen < FieldRange(q)
  }

  /** The buffers hold what the data seen so far demands. */
  ghost predicate InStep(f: Bytes -> Bytes, y: Bytes, ctr: Bytes, nonce: Bytes, q: nat, adLen: nat, ptLen: nat,
                         t: nat, ad: Bytes, p: Bytes)
  {
    && Sized(f) && |nonce| + 1 + q == 16 && |ctr| == 16
    && y == Working(f, nonce, q, adLen, ptLen, t, ad, p)
    && ctr[..16 - q] == [ToByte(q - 1)] + nonce
    && (!(ptLen > 0 && |p| == ptLen) ==> ctr == Counter(nonce, q, 1 + |p| / 16))
  }

  /** mbedtls_ccm_context; the bits of the field state are separate, and ghost fields keep the nonce,
      the associated data and the plaintext of the message in progress. */
  class Context {
    const y: array<bv8>
    const ctr: array<bv8>
    const enc: Bytes -> Bytes
    var plaintextLen: nat
    var addLen: nat
    var tagLen: nat
    var processed: nat
    var q: nat
    var mode: Mode
    var started: bool
    var lengthsSet: bool
    var adStarted: bool
    var adFinished: bool
    var error: bool
    ghost var nonce: Bytes
    ghost var ad: Bytes
    ghost var payload: Bytes

    constructor (enc: Bytes -> Bytes)
      requires Sized(enc)
      ensures this.enc == enc && fresh(y) && fresh(ctr) && Idle() && !lengthsSet
    {
      this.enc := enc;
      y := new bv8[16](_ => 0);
      ctr := new bv8[16](_ => 0);
      started, lengthsSet, adStarted, adFinished, error := false, false, false, false, false;
      new;
      assert y[..] == Nulls(16);
    }

    ghost predicate Shape()
    {
      y.Length == 16 && ctr.Length == 16 && y != ctr && Sized(enc)
    }

    /** No message has been started; its lengths may have been declared. */
    ghost predicate Idle()
      reads this, y
    {
      && Shape() && !started && !adStarted && !adFinished && !error && y[..] == Nulls(16)
      && (lengthsSet ==> LengthsValid(addLen, tagLen) && processed == 0)
    }

    ghost predicate NonceLoaded()
      requires Shape()
      reads this, y, ctr
    {
      2 <= q <= 8 && |nonce| + 1 + q == 16 && y[..] == [0] + nonce + Nulls(q) && ctr[..] == Counter(nonce, q, 1)
    }

    /** Started, lengths not declared yet */
    ghost predicate Started()
      reads this, y, ctr
    {
      Shape() && started && !lengthsSet && !adStarted && !adFinished && !error && NonceLoaded()
    }

    /** The invariant of a message in progress. */
    ghost predicate Ready()
      reads this, y, ctr
    {
      && Shape() && started && lengthsSet && !error
      && 2 <= q <= 8 && LengthsValid(addLen, tagLen) && FirstBlockOk(mode, q, plaintextLen, tagLen)
      && (tagLen == 0 ==> plaintextLen == 0) && (tagLen != 0 ==> |payload| <= plaintextLen)
      && |ad| <= addLen && (|ad| < addLen ==> payload == [])
      && (adStarted <==> ad != []) && (adFinished <==> ad != [] && |ad| == addLen)
      && processed == (if |ad| == addLen then |payload| else |ad|)
      && InStep(enc, y[..], ctr[..], nonce, q, addLen, plaintextLen, tagLen, ad, payload)
    }

    /** A length did not fit the first block: nothing works until the state is cleared. */
    ghost predicate Failed()
      reads this
    {
      Shape() && error
    }

    /** ccm_calculate_first_block_if_ready */
    method FirstBlockIfReady() returns (ret: int)
      requires Shape() && !adStarted && !adFinished && !error
      requires started && lengthsSet ==> NonceLoaded() && LengthsValid(addLen, tagLen) && processed == 0
      requires ad == [] && payload == []
      modifies this, y
      ensures nonce == old(nonce) && ad == [] && payload == [] && q == old(q) && mode == old(mode)
      ensures addLen == old(addLen) && tagLen == old(tagLen)
      ensures plaintextLen ==
        if started && lengthsSet && tagLen == 0 && FirstBlockOk(mode, q, old(plaintextLen), tagLen) then 0
        else old(plaintextLen)
      ensures started == old(started) && lengthsSet == old(lengthsSet)
      ensures !(started && lengthsSet) ==> ret == 0 && y[..] == old(y[..]) && unchanged(this)
      ensures started && lengthsSet ==> ret == if FirstBlockOk(mode, q, old(plaintextLen), tagLen) then 0 else BAD_INPUT
      ensures started && lengthsSet && ret == 0 ==> Ready()
      ensures ret != 0 && tagLen != 0 ==> Failed()
    {
      hide InStep, AfterAd, Working, Run, Flush, Counter, FirstBlock, FlagsByte, FlagT, FlagQ, ToByte, OrByte;
      hide BigEndian, FieldRange, Sized, Nulls, BAD_INPUT;
      if !started || !lengthsSet { return 0; }
      Codes();
      if tagLen == 0 {
        if mode == StarEncrypt || mode == StarDecrypt {
          plaintextLen := 0;
        } else {
          return BAD_INPUT;
        }
      }
      var lenLeft := FormatFirst(y, nonce, q, addLen, plaintextLen, tagLen);
      FieldZero(q);
      if lenLeft > 0 {
        error := true;
        return BAD_INPUT;
      }
      Ecb(enc, y, y);
      StartsInStep(enc, y[..], ctr[..], nonce, q, addLen, plaintextLen, tagLen);
      return 0;
    }

    /** mbedtls_ccm_starts */
    method Starts(m: Mode, iv: array<bv8>, ivLen: nat) returns (ret: int)
      requires Idle() && iv != y && iv != ctr && ivLen <= iv.Length
      modifies this, y, ctr
      ensures ret != 0 && started && lengthsSet && tagLen != 0 ==> Failed()
      ensures lengthsSet == old(lengthsSet) && addLen == old(addLen) && tagLen == old(tagLen)
      ensures ivLen < 7 || ivLen > 13 ==> ret == BAD_INPUT && unchanged(this) && Idle()
      ensures 7 <= ivLen <= 13 ==>
        && nonce == iv[..ivLen] && mode == m && q == 15 - ivLen && ad == [] && payload == []
        && (!lengthsSet ==> ret == 0 && Started() && plaintextLen == old(plaintextLen))
        && (lengthsSet ==> ret == if FirstBlockOk(mode, q, old(plaintextLen), tagLen) then 0 else BAD_INPUT)
        && (lengthsSet && ret == 0 ==> Ready() && plaintextLen == if tagLen == 0 then 0 else old(plaintextLen))
    {
      hide InStep, Counter, Sized, Nulls, FieldRange, BAD_INPUT, AfterAd, Working, FirstBlock, ToByte;
      Codes();
      if ivLen < 7 || ivLen > 13 { return BAD_INPUT; }
      mode := m;
      q := 16 - 1 - ivLen;
      StartCounter(ctr, q, iv, ivLen);
      LoadNonce(y, q, iv, ivLen);
      nonce, ad, payload := iv[..ivLen], [], [];
      started := true;
      ret := FirstBlockIfReady();
    }

    /** mbedtls_ccm_set_lengths */
    method SetLengths(totalAdLen: nat, ptLen: nat, tLen: nat) returns (ret: int)
      requires Idle() || Started()
      modifies this, y
      ensures ret != 0 && started && lengthsSet && tagLen != 0 ==> Failed()
      ensures var ok := tLen != 2 && tLen <= 16 && tLen % 2 == 0 && totalAdLen < 0xFF00;
        && (!ok ==> ret == BAD_INPUT && unchanged(this) && (old(Idle()) ==> Idle()) && (old(Started()) ==> Started()))
        && (ok ==> lengthsSet && addLen == totalAdLen && tagLen == tLen)
        && started == old(started) && mode == old(mode) && q == old(q)
        && (ok && !started ==> ret == 0 && Idle() && plaintextLen == ptLen)
        && (ok && started ==> ret == if FirstBlockOk(mode, q, ptLen, tLen) then 0 else BAD_INPUT)
        && (ok && started && ret == 0 ==> Ready() && nonce == old(nonce) && ad == [] && payload == [])
        && (ok && started && ret == 0 ==> plaintextLen == if tagLen == 0 then 0 else ptLen)
    {
      hide InStep, Counter, Sized, Nulls, FieldRange, BAD_INPUT, AfterAd, Working, FirstBlock, ToByte;
      Codes();
      if tLen == 2 || tLen > 16 || tLen % 2 != 0 { return BAD_INPUT; }
      if totalAdLen >= 0xFF00 { return BAD_INPUT; }
      plaintextLen := ptLen;
      addLen := totalAdLen;
      tagLen := tLen;
      processed := 0;
      ad, payload := [], [];
      lengthsSet := true;
      ret := FirstBlockIfReady();
    }

    /** mbedtls_ccm_update_ad: the next n bytes of the associated data */
    method UpdateAd(add: array<bv8>, n: nat) returns (ret: int)
      requires (Ready() || Failed()) && add != y && add != ctr && n <= add.Length
      modifies this, y
      ensures ret == if old(error) || (n > 0 && |old(ad)| + n > addLen) then BAD_INPUT else 0
      ensures ret != 0 ==> unchanged(this) && y[..] == old(y[..])
      ensures old(Ready()) ==> Ready()
      ensures nonce == old(nonce) && q == old(q) && mode == old(mode) && payload == old(payload)
      ensures plaintextLen == old(plaintextLen) && addLen == old(addLen) && tagLen == old(tagLen)
      ensures ad == if ret == 0 then old(ad) + add[..n] else old(ad)
    {
      hide *;
      Codes();
      ReadyAd();
      if error { return BAD_INPUT; }
      if n > 0 {
        if adFinished { return BAD_INPUT; }
        if !adStarted {
          if n > addLen { return BAD_INPUT; }
        } else if processed + n > addLen {
          return BAD_INPUT;
        }
        AbsorbAd(add, n);
      } else {
        assert ad + add[..0] == ad;
      }
      return 0;
    }

    lemma ReadyAd()
      ensures Ready() ==> !error && |ad| <= addLen
      ensures Ready() ==> (adStarted <==> ad != []) && (adFinished <==> ad != [] && |ad| == addLen)
      ensures Ready() && |ad| < addLen ==> processed == |ad|
      ensures Failed() ==> error
    {
      hide InStep, Sized, LengthsValid, FirstBlockOk;
    }

    /** The part after the checks */
    method AbsorbAd(add: array<bv8>, n: nat)
      requires Ready() && add != y && add != ctr && 0 < n <= add.Length && |ad| + n <= addLen
      modifies this, y
      ensures Ready() && nonce == old(nonce) && q == old(q) && mode == old(mode) && payload == old(payload)
      ensures plaintextLen == old(plaintextLen) && addLen == old(addLen) && tagLen == old(tagLen)
      ensures ad == old(ad) + add[..n]
    {
      hide InStep, Counter, Sized, Nulls, FieldRange, BAD_INPUT, AfterAd, Working, FirstBlock, ToByte, Run, Flush,
           AdStream, XorAt;
      hide LengthsValid, FirstBlockOk;
      ghost var y0 := AdStart(enc, y[..], ctr[..], nonce, q, addLen, plaintextLen, tagLen, ad);
      if !adStarted {
        XorLength(y, enc, addLen, y0);
        adStarted := true;
      }
      processed := AdLoop(y, enc, processed, addLen, add, n, y0, ad);
      AdDone(enc, y[..], ctr[..], nonce, q, addLen, plaintextLen, tagLen, ad, add[..n], y0);
      ad := ad + add[..n];
      if processed == addLen {
        adFinished := true;
        processed := 0;
      }
    }

    /** mbedtls_ccm_update: the next n bytes of the payload */
    method Update(input: array<bv8>, n: nat, output: array<bv8>, outputSize: nat) returns (ret: int, outputLen: nat)
      requires ((Ready() && |ad| == addLen) || Failed()) && n <= input.Length && outputSize <= output.Length
      requires input != y && input != ctr && output != y && output != ctr
      modifies this, y, ctr, output
      ensures ret ==
        if old(error) || (tagLen != 0 && |old(payload)| + n > plaintextLen) || outputSize < n then BAD_INPUT else 0
      ensures old(Ready()) ==> Ready()
      ensures nonce == old(nonce) && q == old(q) && mode == old(mode) && ad == old(ad)
      ensures plaintextLen == old(plaintextLen) && addLen == old(addLen) && tagLen == old(tagLen)
      ensures ret != 0 ==>
        unchanged(this) && y[..] == old(y[..]) && ctr[..] == old(ctr[..]) && output[..] == old(output[..])
      ensures ret == 0 ==> outputLen == n && output[n..] == old(output[n..])
      ensures ret == 0 ==>
        |nonce| + 1 + q == 16 && output[..n] == CryptFrom(enc, nonce, q, |old(payload)|, old(input[..n]))
      ensures ret == 0 ==>
        payload == old(payload) + if mode.Encrypt? || mode.StarEncrypt? then old(input[..n]) else output[..n]
    {
      hide InStep, PayloadState, Counter, Sized, AfterAd, Working, FirstBlock, FieldRange, BAD_INPUT, CryptFrom, ToByte;
      hide LengthsValid, FirstBlockOk;
      Codes();
      outputLen := 0;
      if error { return BAD_INPUT, outputLen; }
      if tagLen != 0 && processed + n > plaintextLen { return BAD_INPUT, 0; }
      if outputSize < n { return BAD_INPUT, 0; }
      outputLen := n;
      ghost var y1 := EnterPayload(enc, y[..], ctr[..], nonce, q, addLen, plaintextLen, tagLen, ad, payload);
      var encrypting := mode == Encrypt || mode == StarEncrypt;
      ghost var c;
      processed, c := PayloadLoop(y, ctr, enc, encrypting, q, plaintextLen, processed, input, n, output, nonce, y1,
                                  payload);
      payload := payload + c;
      PayloadIs(enc, y[..], ctr[..], nonce, q, addLen, plaintextLen, tagLen, ad, payload);
      return 0, outputLen;
    }

    /** mbedtls_ccm_finish: the tag, and a context ready for the next message */
    method Finish(tag: array<bv8>, tLen: nat) returns (ret: int)
      requires (Ready() || Failed()) && tag != y && tag != ctr && tLen <= 16 && tLen <= tag.Length
      modifies this, y, ctr, tag
      ensures ret == if old(error) then CORRUPTION_DETECTED
                     else if |old(ad)| < old(addLen) || (old(plaintextLen) > 0 && |old(payload)| != old(plaintextLen))
                     then BAD_INPUT else 0
      ensures ret != 0 ==> unchanged(this) && y[..] == old(y[..]) && ctr[..] == old(ctr[..]) && tag[..] == old(tag[..])
      ensures ret == 0 ==> Idle() && !lengthsSet && |old(nonce)| + 1 + old(q) == 16 && tag[tLen..] == old(tag[tLen..])
      ensures ret == 0 && old(tagLen) != 0 ==>
        tag[..tLen] == Tag(enc, old(nonce), old(q), old(tagLen), old(ad), old(payload))[..tLen]
    {
      hide *;
      Codes();
      ReadyFinish();
      if error { return CORRUPTION_DETECTED; }
      if addLen > 0 && !adFinished { return BAD_INPUT; }
      if plaintextLen > 0 && processed != plaintextLen { return BAD_INPUT; }
      CloseTag(tag, tLen);
      return 0;
    }

    lemma ReadyFinish()
      ensures Ready() ==> !error && |ad| <= addLen && (addLen > 0 && !adFinished <==> |ad| < addLen)
      ensures Ready() && |ad| == addLen ==> processed == |payload|
      ensures Failed() ==> error
    {
      hide InStep, Sized, LengthsValid, FirstBlockOk;
    }

    /** The part after the checks */
    method CloseTag(tag: array<bv8>, tLen: nat)
      requires Ready() && tag != y && tag != ctr && tLen <= 16 && tLen <= tag.Length
      requires |ad| == addLen && (plaintextLen > 0 ==> |payload| == plaintextLen)
      modifies this, y, ctr, tag
      ensures Idle() && !lengthsSet && |old(nonce)| + 1 + old(q) == 16 && tag[tLen..] == old(tag[tLen..])
      ensures old(tagLen) != 0 ==>
        tag[..tLen] == Tag(enc, old(nonce), old(q), old(tagLen), old(ad), old(payload))[..tLen]
    {
      hide InStep, Counter, Sized, AfterAd, Working, FirstBlock, FieldRange, ToByte, Tag, Nulls;
      hide LengthsValid, FirstBlockOk;
      TagReady(enc, y[..], ctr[..], nonce, q, addLen, plaintextLen, tagLen, ad, payload);
      MaskTag(y, ctr, enc, q, nonce);
      CopyBlock(tag, 0, y, 0, tLen);
      assert tag[..tLen] == tag[0..0 + tLen] == y[0..0 + tLen] == y[..][..tLen];
      started, lengthsSet, adStarted, adFinished, error := false, false, false, false, false;
      ClearBlock(y);
      ClearBlock(ctr);
    }

    /** ccm_auth_crypt: the one-shot call on an idle context */
    method AuthCrypt(m: Mode, length: nat, iv: array<bv8>, ivLen: nat, add: array<bv8>, adLen: nat,
                     input: array<bv8>, output: array<bv8>, tag: array<bv8>, tLen: nat) returns (ret: int)
      requires Idle() && !lengthsSet && ivLen <= iv.Length && adLen <= add.Length
      requires length <= input.Length && length <= output.Length && (tLen <= 16 ==> tLen <= tag.Length)
      requires output != tag && iv != output && iv != tag && add != output && add != tag && input != tag
      requires y !in {iv, add, input, output, tag} && ctr !in {iv, add, input, output, tag}
      modifies this, y, ctr, output, tag
      ensures ret == if 7 <= ivLen <= 13 && tLen != 2 && tLen <= 16 && tLen % 2 == 0 && adLen < 0xFF00
                        && FirstBlockOk(m, 15 - ivLen, length, tLen) then 0 else BAD_INPUT
      ensures ret == 0 ==> Idle() && !lengthsSet
      ensures ret == 0 ==>
        7 <= ivLen <= 13 && output[..length] == CryptFrom(enc, iv[..ivLen], 15 - ivLen, 0, old(input[..length]))
      ensures ret == 0 && tLen != 0 ==>
        var p := if m.Encrypt? || m.StarEncrypt? then old(input[..length]) else output[..length];
        tag[..tLen] == Tag(enc, iv[..ivLen], 15 - ivLen, tLen, add[..adLen], p)[..tLen]
    {
      hide InStep, Counter, Sized, AfterAd, Working, FirstBlock, FieldRange, BAD_INPUT, ToByte, Tag, Nulls, CryptFrom,
           NonceLoaded;
      Codes();
      ghost var inp := input[..length];
      ret := Starts(m, iv, ivLen);
      if ret != 0 { return; }
      ret := SetLengths(adLen, length, tLen);
      if ret != 0 { return; }
      ret := UpdateAd(add, adLen);
      if ret != 0 { return; }
      assert [] + add[..adLen] == add[..adLen];
      var olen;
      ret, olen := Update(input, length, output, length);
      if ret != 0 { return; }
      assert [] + inp == inp && [] + output[..length] == output[..length];
      ret := Finish(tag, tLen);
    }

    /** ccm_auth_decrypt: the plaintext is released exactly when the tag is the one of the definition. */
    method AuthDecrypt(m: Mode, length: nat, iv: array<bv8>, ivLen: nat, add: array<bv8>, adLen: nat,
                       input: array<bv8>, output: array<bv8>, tag: array<bv8>, tLen: nat) returns (ret: int)
      requires m.Decrypt? || m.StarDecrypt?
      requires Idle() && !lengthsSet && ivLen <= iv.Length && adLen <= add.Length
      requires length <= input.Length && length <= output.Length && (tLen <= 16 ==> tLen <= tag.Length)
      requires iv != output && add != output && tag != output
      requires y !in {iv, add, input, output} && ctr !in {iv, add, input, output} && tag != y && tag != ctr
      modifies this, y, ctr, output
      ensures var ok := 7 <= ivLen <= 13 && tLen != 2 && tLen <= 16 && tLen % 2 == 0 && adLen < 0xFF00
                        && FirstBlockOk(m, 15 - ivLen, length, tLen);
        && (!ok ==> ret == BAD_INPUT)
        && (ok ==>
             var p := CryptFrom(enc, iv[..ivLen], 15 - ivLen, 0, old(input[..length]));
             && (tLen != 0 ==>
                  (ret == 0 <==> tag[..tLen] == Tag(enc, iv[..ivLen], 15 - ivLen, tLen, add[..adLen], p)[..tLen]))
             && (tLen == 0 ==> ret == 0)
             && output[..length] == (if ret == 0 then p else Nulls(length))
             && (ret == 0 || ret == AUTH_FAILED))
    {
      hide InStep, Counter, Sized, AfterAd, Working, FirstBlock, FieldRange, BAD_INPUT, ToByte, Tag, Nulls, CryptFrom,
           NonceLoaded;
      Codes();
      var checkTag := new bv8[16];
      ret := AuthCrypt(m, length, iv, ivLen, add, adLen, input, output, checkTag, tLen);
      if ret != 0 { return; }
      ghost var nonce', ad' := iv[..ivLen], add[..adLen];
      ret := CompareTags(tag, checkTag, tLen);
      if ret != 0 {
        forall k | 0 <= k < length { output[k] := 0; }
        assert output[..length] == Nulls(length);
        assert iv[..ivLen] == nonce' && add[..adLen] == ad';
      }
    }

    /** mbedtls_ccm_encrypt_and_tag, then mbedtls_ccm_auth_decrypt on what it left (or the CCM* pair): accepted, and the
        plaintext comes back. */
    method EncryptThenDecrypt(star: bool, length: nat, iv: array<bv8>, ivLen: nat, add: array<bv8>, adLen: nat,
                              input: array<bv8>, sent: array<bv8>, back: array<bv8>, tag: array<bv8>, tLen: nat)
      returns (ret: int)
      requires Idle() && !lengthsSet && ivLen <= iv.Length && adLen <= add.Length && (tLen <= 16 ==> tLen <= tag.Length)
      requires length <= input.Length && length <= sent.Length && length <= back.Length
      requires sent !in {tag, iv, add} && tag !in {iv, add, input, back} && back !in {iv, add}
      requires y !in {iv, add, input, sent, back, tag} && ctr !in {iv, add, input, sent, back, tag}
      modifies this, y, ctr, sent, back, tag
      ensures ret == if 7 <= ivLen <= 13 && tLen != 2 && tLen <= 16 && tLen % 2 == 0 && adLen < 0xFF00
                        && FirstBlockOk(if star then StarEncrypt else Encrypt, 15 - ivLen, length, tLen)
                     then 0 else BAD_INPUT
      ensures ret == 0 ==> back[..length] == old(input[..length])
    {
      hide *;
      ghost var p, nonce', ad', q' := input[..length], iv[..ivLen], add[..adLen], 15 - ivLen;
      ret := AuthCrypt(if star then StarEncrypt else Encrypt, length, iv, ivLen, add, adLen, input, sent, tag, tLen);
      if 7 <= ivLen <= 13 { SameRange(star, 15 - ivLen, length, tLen); }
      if ret != 0 { return; }
      IdleShape();
      CryptTwice(enc, nonce', q', 0, p);
      ghost var t := tag[..tLen];
      ret := AuthDecrypt(if star then StarDecrypt else Decrypt, length, iv, ivLen, add, adLen, sent, back, tag, tLen);
    }

    lemma IdleShape()
      requires Idle()
      ensures Sized(enc)
    {
      hide Sized;
    }
  }

  /** The two directions have the same restrictions on the lengths. */
  lemma SameRange(star: bool, q: nat, ptLen: nat, t: nat)
    ensures FirstBlockOk(if star then StarEncrypt else Encrypt, q, ptLen, t)
       <==> FirstBlockOk(if star then StarDecrypt else Decrypt, q, ptLen, t)
    ensures BAD_INPUT != 0
  {
    hide FieldRange;
  }

  /** MBEDTLS_ERR_CCM_AUTH_FAILED */
  const AUTH_FAILED: int := -0x000F

  /** mbedtls_ccm_compare_tags */
  method CompareTags(tag1: array<bv8>, tag2: array<bv8>, n: nat) returns (ret: int)
    requires n <= tag1.Length && n <= tag2.Length
    ensures ret == if tag1[..n] == tag2[..n] then 0 else AUTH_FAILED
  {
    hide OrByte, XorByte;
    var diff: bv8 := 0;
    var i := 0;
    while i < n
      invariant 0 <= i <= n
      invariant diff == 0 <==> forall k :: 0 <= k < i ==> tag1[k] == tag2[k]
    {
      DiffZero(diff, tag1[i], tag2[i]);
      diff := OrByte(diff, XorByte(tag1[i], tag2[i]));
      i := i + 1;
    }
    if diff != 0 {
      var k :| 0 <= k < n && tag1[k] != tag2[k];
      assert tag1[..n][k] != tag2[..n][k];
      return AUTH_FAILED;
    }
    return 0;
  }

  lemma DiffZero(diff: bv8, a: bv8, b: bv8)
    ensures OrByte(diff, XorByte(a, b)) == 0 <==> diff == 0 && a == b
  {}

  lemma EnterPayload(f: Bytes -> Bytes, y: Bytes, ctr: Bytes, nonce: Bytes, q: nat, adLen: nat, ptLen: nat, t: nat,
                     ad: Bytes, p: Bytes)
    returns (y1: Bytes)
    requires InStep(f, y, ctr, nonce, q, adLen, ptLen, t, ad, p)
    ensures Sized(f) && |nonce| + 1 + q == 16 && y1 == AfterAd(f, nonce, q, adLen, ptLen, t, ad)
    ensures PayloadState(f, y, ctr, nonce, q, ptLen, y1, p)
  {
    hide Sized, Run, Flush, AfterAd, ToByte, Counter, Working, PayloadState;
    PayloadIs(f, y, ctr, nonce, q, adLen, ptLen, t, ad, p);
    y1 := AfterAd(f, nonce, q, adLen, ptLen, t, ad);
  }

  /** What the finished message leaves for the tag. */
  lemma TagReady(f: Bytes -> Bytes, y: Bytes, ctr: Bytes, nonce: Bytes, q: nat, adLen: nat, ptLen: nat, t: nat,
                 ad: Bytes, p: Bytes)
    requires InStep(f, y, ctr, nonce, q, adLen, ptLen, t, ad, p)
    ensures Sized(f) && |nonce| + 1 + q == 16 && |ctr| == 16 && ctr[..16 - q] == [ToByte(q - 1)] + nonce
    ensures |f(Counter(nonce, q, 0))| == 16
    ensures adLen == |ad| && ptLen == |p| ==> Tag(f, nonce, q, t, ad, p) == Xor(y, f(Counter(nonce, q, 0)))
  {
    SizedAt(f, Counter(nonce, q, 0));
    hide Sized, Run, Flush, AfterAd, ToByte, Counter, Working, Tag;
    WorkingIsTag(f, nonce, q, t, ad, p);
  }

  /** Counter block 0 masks the working block. */
  method MaskTag(y: array<bv8>, ctr: array<bv8>, f: Bytes -> Bytes, q: nat, ghost nonce: Bytes)
    requires y.Length == 16 && ctr.Length == 16 && y != ctr && Sized(f) && |nonce| + 1 + q == 16
    requires ctr[..16 - q] == [ToByte(q - 1)] + nonce
    modifies y, ctr
    ensures |f(Counter(nonce, q, 0))| == 16 && y[..] == Xor(old(y[..]), f(Counter(nonce, q, 0)))
  {
    hide *;
    ghost var p, head := y[..], ctr[..16 - q];
    var i := 0;
    while i < q
      invariant 0 <= i <= q && ctr[..16 - q] == head && y[..] == p
      invariant forall k :: 16 - i <= k < 16 ==> ctr[k] == 0
    {
      ctr[15 - i] := 0;
      assert ctr[..16 - q] == head;
      i := i + 1;
    }
    CounterHead(nonce, q, 0);
    CountZero(q);
    assert ctr[16 - q..] == Nulls(q);
    ghost var k := Counter(nonce, q, 0);
    assert k == k[..16 - q] + k[16 - q..];
    assert ctr[..] == ctr[..16 - q] + ctr[16 - q..];
    var tmp := new bv8[16];
    Ecb(f, ctr, tmp);
    assert y[0..0 + 16] == y[..] && tmp[0..0 + 16] == tmp[..];
    XorBlock(y, 0, y, 0, tmp, 0, 16);
    assert y[0..0 + 16] == y[..];
  }

  lemma CountZero(q: nat)
    ensures Count(q, 0) == Nulls(q)
  {}

  method ClearBlock(a: array<bv8>)
    requires a.Length == 16
    modifies a
    ensures a[..] == Nulls(16)
  {
    forall k | 0 <= k < 16 { a[k] := 0; }
  }

  lemma StartsInStep(f: Bytes -> Bytes, y: Bytes, ctr: Bytes, nonce: Bytes, q: nat, adLen: nat, ptLen: nat, t: nat)
    requires Sized(f) && |nonce| + 1 + q == 16 && ctr == Counter(nonce, q, 1)
    requires |f(FirstBlock(nonce, q, adLen, ptLen, t))| == 16 && y == f(FirstBlock(nonce, q, adLen, ptLen, t))
    ensures InStep(f, y, ctr, nonce, q, adLen, ptLen, t, [], [])
  {
    hide Counter, FirstBlock, Working, ToByte, Sized;
    WorkingStart(f, nonce, q, adLen, ptLen, t);
    CounterHead(nonce, q, 1);
  }

  /** Where the associated data stands, as absorbed from y0. */
  lemma AdStart(f: Bytes -> Bytes, y: Bytes, ctr: Bytes, nonce: Bytes, q: nat, adLen: nat, ptLen: nat, t: nat,
                ad: Bytes) returns (y0: Bytes)
    requires InStep(f, y, ctr, nonce, q, adLen, ptLen, t, ad, [])
    ensures Sized(f) && |nonce| + 1 + q == 16 && |y0| == 16
    ensures |f(FirstBlock(nonce, q, adLen, ptLen, t))| == 16 && y0 == f(FirstBlock(nonce, q, adLen, ptLen, t))
    ensures |ctr| == 16 && ctr[..16 - q] == [ToByte(q - 1)] + nonce && ctr == Counter(nonce, q, 1)
    ensures ad == [] ==> y == y0
    ensures ad != [] && |ad| < adLen ==> y == Run(f, y0, AdStream(adLen, ad))
  {
    hide Counter, FirstBlock, Working, ToByte, Sized, Run, AdStream, Flush;
    WorkingAd(f, nonce, q, adLen, ptLen, t, ad);
    y0 := f(FirstBlock(nonce, q, adLen, ptLen, t));
  }

  lemma AdDone(f: Bytes -> Bytes, y: Bytes, ctr: Bytes, nonce: Bytes, q: nat, adLen: nat, ptLen: nat, t: nat,
               ad: Bytes, c: Bytes, y0: Bytes)
    requires Sized(f) && |nonce| + 1 + q == 16 && |y0| == 16 && |ctr| == 16 && c != [] && |ad + c| <= adLen
    requires |f(FirstBlock(nonce, q, adLen, ptLen, t))| == 16 && y0 == f(FirstBlock(nonce, q, adLen, ptLen, t))
    requires ctr[..16 - q] == [ToByte(q - 1)] + nonce && ctr == Counter(nonce, q, 1)
    requires y ==
      if |ad + c| == adLen then Flush(f, y0, AdStream(adLen, ad + c)) else Run(f, y0, AdStream(adLen, ad + c))
    ensures InStep(f, y, ctr, nonce, q, adLen, ptLen, t, ad + c, [])
  {
    hide Counter, FirstBlock, Working, ToByte, Sized, Run, AdStream, Flush;
    WorkingAd(f, nonce, q, adLen, ptLen, t, ad + c);
  }

  /** While no payload has come, the working block is that of the associated data. */
  lemma WorkingAd(f: Bytes -> Bytes, nonce: Bytes, q: nat, adLen: nat, ptLen: nat, t: nat, ad: Bytes)
    requires |nonce| + 1 + q == 16 && Sized(f)
    ensures |f(FirstBlock(nonce, q, adLen, ptLen, t))| == 16
    ensures var y0 := f(FirstBlock(nonce, q, adLen, ptLen, t));
      Working(f, nonce, q, adLen, ptLen, t, ad, []) ==
        if ad == [] then y0
        else if |ad| < adLen then Run(f, y0, AdStream(adLen, ad))
        else Flush(f, y0, AdStream(adLen, ad))
  {
    SizedAt(f, FirstBlock(nonce, q, adLen, ptLen, t));
    RunEmpty(f, AfterAd(f, nonce, q, adLen, ptLen, t, ad));
    hide Sized, FirstBlock, Run, Flush, AdStream;
  }

  /** A piece that ends at a block boundary or with the data goes through the block function. */
  lemma AbsorbChunk(f: Bytes -> Bytes, y: Bytes, s: Bytes, c: Bytes, last: bool)
    requires |y| == 16 && Sized(f) && 0 < |c| && |s| % 16 + |c| <= 16
    ensures var w := XorAt(Run(f, y, s), |s| % 16, c);
      && |f(w)| == 16
      && (if |s| % 16 + |c| == 16 || last then f(w) else w) == if last then Flush(f, y, s + c) else Run(f, y, s + c)
  {
    hide *;
    var w := XorAt(Run(f, y, s), |s| % 16, c);
    SizedAt(f, w);
    RunChunk(f, y, s, c);
    FlushIs(f, y, s + c);
    FullBlock(|s|, |c|);
  }

  lemma FullBlock(n: nat, c: nat)
    requires 0 < c && n % 16 + c <= 16
    ensures (n + c) % 16 == 0 <==> n % 16 + c == 16
  {}

  /** y[0] and y[1] take the length of the associated data. */
  method XorLength(y: array<bv8>, f: Bytes -> Bytes, adLen: nat, ghost y0: Bytes)
    requires y.Length == 16 && Sized(f) && |y0| == 16 && y[..] == y0
    modifies y
    ensures y[..] == Run(f, y0, AdStream(adLen, []))
  {
    hide *;
    var hi, lo := ToByte(adLen / 256), ToByte(adLen);
    assert y[0] == y0[0] && y[1] == y0[1] && y[2..] == y0[2..];
    y[0] := XorByte(y[0], hi);
    y[1] := XorByte(y[1], lo);
    assert y[..] == [XorByte(y0[0], hi), XorByte(y0[1], lo)] + y0[2..];
    RunEmpty(f, y0);
    RunChunk(f, y0, [], [hi, lo]);
    StreamStart(adLen, hi, lo);
    XorAtTwo(y0, hi, lo);
  }

  lemma StreamStart(adLen: nat, hi: bv8, lo: bv8)
    requires hi == ToByte(adLen / 256) && lo == ToByte(adLen)
    ensures [] + [hi, lo] == AdStream(adLen, [])
  {
    hide ToByte;
  }

  lemma XorAtTwo(y: Bytes, hi: bv8, lo: bv8)
    requires |y| == 16
    ensures XorAt(y, 0, [hi, lo]) == [XorByte(y[0], hi), XorByte(y[1], lo)] + y[2..]
  {
    hide XorByte;
  }

  /** The loop over the associated data. */
  method AdLoop(y: array<bv8>, f: Bytes -> Bytes, processed0: nat, adLen: nat, add: array<bv8>, n: nat,
                ghost y0: Bytes, ghost ad: Bytes) returns (processed: nat)
    requires y.Length == 16 && y != add && n <= add.Length && Sized(f) && |y0| == 16
    requires n > 0 && processed0 == |ad| && |ad| + n <= adLen && y[..] == Run(f, y0, AdStream(adLen, ad))
    modifies y
    ensures processed == |ad| + n
    ensures y[..] == if processed == adLen then Flush(f, y0, AdStream(adLen, ad + add[..n]))
                     else Run(f, y0, AdStream(adLen, ad + add[..n]))
  {
    hide *;
    processed := processed0;
    var left, off := n, 0;
    assert ad + add[..0] == ad;
    while left > 0
      invariant 0 <= left <= n && off == n - left && processed == |ad| + off
      invariant y[..] == if left == 0 && processed == adLen then Flush(f, y0, AdStream(adLen, ad + add[..off]))
                         else Run(f, y0, AdStream(adLen, ad + add[..off]))
    {
      var offset := (processed + 2) % 16;
      var useLen := 16 - offset;
      if useLen > left { useLen := left; }
      ghost var s, c := AdStream(adLen, ad + add[..off]), add[off..off + useLen];
      StreamIs(adLen, ad + add[..off], c);
      AbsorbChunk(f, y0, s, c, processed + useLen == adLen);
      XorInto(y, offset, add, off, useLen);
      assert (ad + add[..off]) + c == ad + add[..off + useLen];
      processed := processed + useLen;
      left := left - useLen;
      off := off + useLen;
      if useLen + offset == 16 || processed == adLen {
        Ecb(f, y, y);
      }
    }
  }

  lemma StreamIs(adLen: nat, ad: Bytes, c: Bytes)
    ensures |AdStream(adLen, ad)| == |ad| + 2 && AdStream(adLen, ad) + c == AdStream(adLen, ad + c)
  {
    hide ToByte;
  }

  lemma Codes()
    ensures BAD_INPUT == -0x000D && CORRUPTION_DETECTED == -0x006E
  {}

  lemma FieldZero(q: nat)
    ensures 0 < FieldRange(q)
  {}

  /** The three fields of the flags byte. */
  method SetFlags(y: array<bv8>, adPresent: bool, t: nat, q: nat, ghost nonce: Bytes)
    requires y.Length == 16 && |nonce| + 1 + q == 16 && y[..] == [0] + nonce + Nulls(q)
    modifies y
    ensures y[..16 - q] == [FlagsByte(adPresent, t, q)] + nonce
  {
    hide ToByte, OrByte, FlagT, Nulls;
    assert y[0] == y[..][0] == 0;
    assert y[1..16 - q] == y[..][1..16 - q] == nonce;
    ghost var rest := y[1..16 - q];
    y[0] := OrByte(y[0], if adPresent then 0x40 else 0);
    y[0] := OrByte(y[0], FlagT(t));
    y[0] := OrByte(y[0], ToByte(q - 1));
    assert y[1..16 - q] == rest;
    assert y[..16 - q] == [y[0]] + y[1..16 - q];
  }

  /** The whole first block, from the nonce in place. */
  method FormatFirst(y: array<bv8>, ghost nonce: Bytes, q: nat, adLen: nat, ptLen: nat, t: nat) returns (left: nat)
    requires y.Length == 16 && |nonce| + 1 + q == 16 && y[..] == [0] + nonce + Nulls(q)
    modifies y
    ensures y[..] == FirstBlock(nonce, q, adLen, ptLen, t)
    ensures left == 0 <==> ptLen < FieldRange(q)
  {
    hide *;
    SetFlags(y, adLen > 0, t, q, nonce);
    left := WriteLength(y, q, ptLen);
    FirstBlockIs(nonce, q, adLen, ptLen, t);
  }

  lemma FirstBlockIs(nonce: Bytes, q: nat, adLen: nat, ptLen: nat, t: nat)
    requires |nonce| + 1 + q == 16
    ensures FirstBlock(nonce, q, adLen, ptLen, t) == [FlagsByte(adLen > 0, t, q)] + nonce + BigEndian(ptLen, q)
  {
    hide FlagsByte, BigEndian;
  }

  lemma WorkingStart(f: Bytes -> Bytes, nonce: Bytes, q: nat, adLen: nat, ptLen: nat, t: nat)
    requires |nonce| + 1 + q == 16 && Sized(f)
    ensures |f(FirstBlock(nonce, q, adLen, ptLen, t))| == 16
    ensures Working(f, nonce, q, adLen, ptLen, t, [], []) == f(FirstBlock(nonce, q, adLen, ptLen, t))
  {
    SizedAt(f, FirstBlock(nonce, q, adLen, ptLen, t));
    RunEmpty(f, f(FirstBlock(nonce, q, adLen, ptLen, t)));
    hide Sized, FirstBlock, Run, Flush;
  }

  /** Counting leaves the flags and the nonce alone. */
  lemma CounterHead(nonce: Bytes, q: nat, k: nat)
    requires |nonce| + 1 + q == 16
    ensures Counter(nonce, q, k)[..16 - q] == [ToByte(q - 1)] + nonce && Counter(nonce, q, k)[16 - q..] == Count(q, k)
  {
    hide ToByte, Count;
  }

  // ----- mbedtls_ccm_update ---------------------------------------------------------------

  /** mbedtls_ccm_crypt: a piece of the key stream block added to n bytes */
  method CryptPiece(f: Bytes -> Bytes, ctr: array<bv8>, offset: nat, n: nat, input: array<bv8>, ioff: nat,
                    output: array<bv8>, ooff: nat)
    requires ctr.Length == 16 && Sized(f) && offset + n <= 16 && output != ctr && (input == output ==> ioff == ooff)
    requires ioff + n <= input.Length && ooff + n <= output.Length
    modifies output
    ensures |f(ctr[..])| == 16
    ensures output[ooff..ooff + n] == Xor(old(input[ioff..ioff + n]), f(ctr[..])[offset..offset + n])
    ensures output[..ooff] == old(output[..ooff]) && output[ooff + n..] == old(output[ooff + n..])
  {
    hide *;
    var tmp := new bv8[16];
    Ecb(f, ctr, tmp);
    assert tmp[offset..offset + n] == tmp[..][offset..offset + n];
    XorBlock(output, ooff, input, ioff, tmp, offset, n);
  }

  /** Within one block the key stream is one block of the counter. */
  lemma PieceIsStream(f: Bytes -> Bytes, nonce: Bytes, q: nat, pos: nat, s: Bytes)
    requires |nonce| + 1 + q == 16 && Sized(f) && pos % 16 + |s| <= 16
    ensures |f(Counter(nonce, q, 1 + pos / 16))| == 16
    ensures CryptFrom(f, nonce, q, pos, s) == Xor(s, f(Counter(nonce, q, 1 + pos / 16))[pos % 16..pos % 16 + |s|])
  {
    SizedAt(f, Counter(nonce, q, 1 + pos / 16));
    hide XorByte, Counter, Sized;
    var b := f(Counter(nonce, q, 1 + pos / 16));
    var l, r := CryptFrom(f, nonce, q, pos, s), Xor(s, b[pos % 16..pos % 16 + |s|]);
    forall i | 0 <= i < |s| ensures l[i] == r[i] {
      SameBlock(pos, i);
      assert KeyByte(f, nonce, q, pos + i) == b[pos % 16 + i];
    }
  }

  lemma SameBlock(pos: nat, i: nat)
    requires pos % 16 + i < 16
    ensures (pos + i) / 16 == pos / 16 && (pos + i) % 16 == pos % 16 + i
  {
    DivMod16(pos);
    DivMod16(pos + i);
  }

  lemma DivMod16(n: nat)
    ensures n == 16 * (n / 16) + n % 16
  {}

  lemma CounterNext(nonce: Bytes, q: nat, k: nat)
    requires |nonce| + 1 + q == 16
    ensures Counter(nonce, q, k + 1) == Counter(nonce, q, k)[..16 - q] + Increment(Counter(nonce, q, k)[16 - q..])
  {
    hide ToByte, Increment;
    CounterHead(nonce, q, k);
    CounterHead(nonce, q, k + 1);
    var c := Counter(nonce, q, k + 1);
    assert c == c[..16 - q] + c[16 - q..];
  }

  /** Where the payload stands: y, absorbed from y1, and the counter. */
  ghost predicate PayloadState(f: Bytes -> Bytes, y: Bytes, ctr: Bytes, nonce: Bytes, q: nat, ptLen: nat, y1: Bytes,
                               p: Bytes)
  {
    && Sized(f) && |nonce| + 1 + q == 16 && |ctr| == 16 && |y1| == 16
    && y == (if ptLen > 0 && |p| == ptLen then Flush(f, y1, p) else Run(f, y1, p))
    && ctr[..16 - q] == [ToByte(q - 1)] + nonce
    && (!(ptLen > 0 && |p| == ptLen) ==> ctr == Counter(nonce, q, 1 + |p| / 16))
  }

  lemma PayloadIs(f: Bytes -> Bytes, y: Bytes, ctr: Bytes, nonce: Bytes, q: nat, adLen: nat, ptLen: nat, t: nat,
                  ad: Bytes, p: Bytes)
    requires Sized(f) && |nonce| + 1 + q == 16
    ensures InStep(f, y, ctr, nonce, q, adLen, ptLen, t, ad, p)
       <==> PayloadState(f, y, ctr, nonce, q, ptLen, AfterAd(f, nonce, q, adLen, ptLen, t, ad), p)
  {
    hide Sized, Run, Flush, AfterAd, ToByte, Counter;
  }

  /** A piece of plaintext c within a block, absorbed into y */
  method AbsorbPiece(y: array<bv8>, f: Bytes -> Bytes, offset: nat, src: array<bv8>, soff: nat, n: nat, boundary: bool,
                     ghost y1: Bytes, ghost p: Bytes, ghost last: bool)
    requires y.Length == 16 && y != src && soff + n <= src.Length && Sized(f) && |y1| == 16
    requires offset == |p| % 16 && 0 < n && offset + n <= 16 && y[..] == Run(f, y1, p)
    requires boundary == (offset + n == 16 || last)
    modifies y
    ensures y[..] == if last then Flush(f, y1, p + src[soff..soff + n]) else Run(f, y1, p + src[soff..soff + n])
  {
    hide *;
    AbsorbChunk(f, y1, p, src[soff..soff + n], last);
    XorInto(y, offset, src, soff, n);
    if boundary {
      Ecb(f, y, y);
    }
  }

  lemma StateIs(f: Bytes -> Bytes, y: Bytes, ctr: Bytes, nonce: Bytes, q: nat, ptLen: nat, y1: Bytes, p: Bytes)
    requires PayloadState(f, y, ctr, nonce, q, ptLen, y1, p) && !(ptLen > 0 && |p| == ptLen)
    ensures Sized(f) && |nonce| + 1 + q == 16 && |ctr| == 16 && |y1| == 16 && y == Run(f, y1, p)
    ensures ctr == Counter(nonce, q, 1 + |p| / 16)
  {
    hide Sized, Run, Flush, ToByte, Counter;
  }

  /** The counter moves on at a block boundary or at the end. */
  lemma StateNext(f: Bytes -> Bytes, y: Bytes, ctr: Bytes, nonce: Bytes, q: nat, ptLen: nat, y1: Bytes, p: Bytes,
                  c: Bytes)
    requires Sized(f) && |nonce| + 1 + q == 16 && |y1| == 16 && 0 < |c| && |p| % 16 + |c| <= 16
    requires var last := ptLen > 0 && |p| + |c| == ptLen; var k := Counter(nonce, q, 1 + |p| / 16);
      && y == (if last then Flush(f, y1, p + c) else Run(f, y1, p + c))
      && ctr == (if |p| % 16 + |c| == 16 || last then k[..16 - q] + Increment(k[16 - q..]) else k)
    ensures PayloadState(f, y, ctr, nonce, q, ptLen, y1, p + c)
  {
    hide Sized, Run, Flush, ToByte, Counter, Increment;
    CounterNext(nonce, q, 1 + |p| / 16);
    CounterHead(nonce, q, 1 + |p| / 16);
    CounterHead(nonce, q, 2 + |p| / 16);
    BlockNumber(|p|, |c|);
  }

  lemma BlockNumber(n: nat, c: nat)
    requires 0 < c && n % 16 + c <= 16
    ensures (n + c) / 16 == if n % 16 + c == 16 then n / 16 + 1 else n / 16
  {
    DivMod16(n);
    DivMod16(n + c);
  }

  /** One turn of the loop: useLen bytes at position |p| of the message */
  method PayloadStep(y: array<bv8>, ctr: array<bv8>, f: Bytes -> Bytes, encrypting: bool, q: nat, ptLen: nat,
                     processed: nat, input: array<bv8>, output: array<bv8>, off: nat, offset: nat, useLen: nat,
                     ghost nonce: Bytes, ghost y1: Bytes, ghost p: Bytes) returns (ghost c: Bytes)
    requires y.Length == 16 && ctr.Length == 16 && y != ctr && q <= 16
    requires y != input && y != output && ctr != input && ctr != output && offset == |p| % 16
    requires 0 < useLen && offset + useLen <= 16 && off + useLen <= input.Length && off + useLen <= output.Length
    requires PayloadState(f, y[..], ctr[..], nonce, q, ptLen, y1, p) && !(ptLen > 0 && |p| == ptLen)
    requires processed == |p| + useLen && (ptLen > 0 ==> processed <= ptLen)
    modifies y, ctr, output
    ensures |c| == useLen && PayloadState(f, y[..], ctr[..], nonce, q, ptLen, y1, p + c)
    ensures Sized(f) && |nonce| + 1 + q == 16
    ensures output[off..off + useLen] == CryptFrom(f, nonce, q, |p|, old(input[off..off + useLen]))
    ensures output[..off] == old(output[..off]) && output[off + useLen..] == old(output[off + useLen..])
    ensures c == if encrypting then old(input[off..off + useLen]) else output[off..off + useLen]
  {
    hide *;
    StateIs(f, y[..], ctr[..], nonce, q, ptLen, y1, p);
    PieceIsStream(f, nonce, q, |p|, input[off..off + useLen]);
    ghost var last := ptLen > 0 && |p| + useLen == ptLen;
    var boundary := useLen + offset == 16 || processed == ptLen;
    if encrypting {
      c := input[off..off + useLen];
      AbsorbPiece(y, f, offset, input, off, useLen, boundary, y1, p, last);
      CryptPiece(f, ctr, offset, useLen, input, off, output, off);
    } else {
      var localOutput := new bv8[16];
      CryptPiece(f, ctr, offset, useLen, input, off, localOutput, 0);
      AbsorbPiece(y, f, offset, localOutput, 0, useLen, boundary, y1, p, last);
      CopyBlock(output, off, localOutput, 0, useLen);
      c := output[off..off + useLen];
      assert localOutput[0..useLen] == localOutput[0..0 + useLen];
    }
    if boundary {
      IncrementCounter(ctr, q);
    }
    StateNext(f, y[..], ctr[..], nonce, q, ptLen, y1, p, c);
  }

  /** The loop of mbedtls_ccm_update: n bytes at position |p0| of the message */
  method PayloadLoop(y: array<bv8>, ctr: array<bv8>, f: Bytes -> Bytes, encrypting: bool, q: nat, ptLen: nat,
                     processed0: nat, input: array<bv8>, n: nat, output: array<bv8>, ghost nonce: Bytes,
                     ghost y1: Bytes, ghost p0: Bytes)
    returns (processed: nat, ghost c: Bytes)
    requires y.Length == 16 && ctr.Length == 16 && y != ctr && q <= 16
    requires y != input && y != output && ctr != input && ctr != output
    requires n <= input.Length && n <= output.Length && processed0 == |p0| && (ptLen > 0 ==> |p0| + n <= ptLen)
    requires PayloadState(f, y[..], ctr[..], nonce, q, ptLen, y1, p0)
    requires Sized(f) && |nonce| + 1 + q == 16
    modifies y, ctr, output
    ensures processed == |p0| + n && |c| == n && PayloadState(f, y[..], ctr[..], nonce, q, ptLen, y1, p0 + c)
    ensures output[..n] == CryptFrom(f, nonce, q, |p0|, old(input[..n])) && output[n..] == old(output[n..])
    ensures c == if encrypting then old(input[..n]) else output[..n]
  {
    hide *;
    var left, off := n, 0;
    processed, c := processed0, [];
    ghost var out, inp := output[..], input[..];
    assert p0 + [] == p0 && inp[..0] == [] && output[..0] == [];
    CryptNothing(f, nonce, q, |p0|);
    while left > 0
      invariant 0 <= left <= n && off == n - left && processed == |p0| + off && |c| == off
      invariant PayloadState(f, y[..], ctr[..], nonce, q, ptLen, y1, p0 + c)
      invariant output[..off] == CryptFrom(f, nonce, q, |p0|, inp[..off]) && output[off..] == out[off..]
      invariant input[off..] == inp[off..]
      invariant encrypting ==> c == inp[..off]
      invariant !encrypting ==> c == output[..off]
    {
      var offset := processed % 16;
      var useLen := 16 - offset;
      if useLen > left { useLen := left; }
      processed := processed + useLen;
      ghost var was, rest := output[..], input[..];
      SameBlockAt(rest, inp, off, useLen);
      assert input[off..off + useLen] == inp[off..off + useLen];
      ghost var d := PayloadStep(y, ctr, f, encrypting, q, ptLen, processed, input, output, off, offset, useLen,
                                 nonce, y1, p0 + c);
      CryptAppend(f, nonce, q, |p0|, inp[..off], inp[off..off + useLen]);
      NextSlices(inp, off, useLen);
      NextSlices(output[..], off, useLen);
      SameTail(was, output[..], out, off, useLen);
      assert input != output ==> input[..] == rest;
      SameTail(rest, input[..], inp, off, useLen);
      Associate(p0, c, d);
      c := c + d;
      left := left - useLen;
      off := off + useLen;
    }
    assert inp[..n] == old(input[..n]);
  }

  lemma SameBlockAt(rest: Bytes, inp: Bytes, off: nat, u: nat)
    requires |rest| == |inp| && off + u <= |inp| && rest[off..] == inp[off..]
    ensures rest[off..off + u] == inp[off..off + u]
  {
    assert rest[off..off + u] == rest[off..][..u] && inp[off..off + u] == inp[off..][..u];
  }

  lemma NextSlices(s: Bytes, off: nat, u: nat)
    requires off + u <= |s|
    ensures s[..off + u] == s[..off] + s[off..off + u]
  {}

  lemma SameTail(was: Bytes, now: Bytes, out: Bytes, off: nat, u: nat)
    requires |was| == |now| == |out| && off + u <= |out| && was[off..] == out[off..] && now[off + u..] == was[off + u..]
    ensures now[off + u..] == out[off + u..]
  {
    assert was[off..][u..] == was[off + u..] && out[off..][u..] == out[off + u..];
  }

  lemma Associate(a: Bytes, b: Bytes, c: Bytes)
    ensures (a + b) + c == a + (b + c)
  {}

  lemma CryptNothing(f: Bytes -> Bytes, nonce: Bytes, q: nat, pos: nat)
    requires |nonce| + 1 + q == 16 && Sized(f)
    ensures CryptFrom(f, nonce, q, pos, []) == []
  {}
}
