/** Reading and printing MPIs in radix 2 to 16: mbedtls_mpi_read_string and mbedtls_mpi_write_string. */
module RadixIO {
  import opened Arith
  import opened Limbs
  import opened Mpis
  import opened Shifts
  import opened AddSubs
  import opened Muls
  import opened DivMpis

  // ----- Digits ---------------------------------------------------------------------------

  /** The value of a digit character, 255 for any other character */
  function CharDigit(c: char): nat
  {
    if '0' <= c <= '9' then c as int - 0x30
    else if 'A' <= c <= 'F' then c as int - 0x37
    else if 'a' <= c <= 'f' then c as int - 0x57
    else 255
  }

  const UPPER: string := "0123456789ABCDEF"
  const LOWER: string := "0123456789abcdef"

  /** The digits are the characters of the two rows, each with its place as its value, and no others. */
  lemma DigitMeaning(c: char, r: nat)
    requires r < 16
    ensures CharDigit(c) == r <==> c == UPPER[r] || c == LOWER[r]
  {
    RowAt(r);
  }

  lemma NoOtherDigit(c: char)
    ensures CharDigit(c) < 16 <==> c in UPPER || c in LOWER
  {
    if CharDigit(c) < 16 { DigitMeaning(c, CharDigit(c)); }
    if c in UPPER {
      var r :| 0 <= r < 16 && UPPER[r] == c;
      DigitMeaning(c, r);
    }
    if c in LOWER {
      var r :| 0 <= r < 16 && LOWER[r] == c;
      DigitMeaning(c, r);
    }
  }

  lemma RowAt(r: nat)
    requires r < 16
    ensures UPPER[r] as int == if r < 10 then 0x30 + r else 0x37 + r
    ensures LOWER[r] as int == if r < 10 then 0x30 + r else 0x57 + r
  {}

  /** The letters in lower case, other characters as they are */
  function LowerChar(c: char): char
  {
    if 'A' <= c <= 'Z' then (c as int - 'A' as int + 'a' as int) as char else c
  }

  function LowerCase(s: string): (r: string)
    ensures |r| == |s| && forall k :: 0 <= k < |s| ==> r[k] == LowerChar(s[k])
  {
    seq(|s|, k requires 0 <= k < |s| => LowerChar(s[k]))
  }

  lemma SameDigit(c: char)
    ensures CharDigit(LowerChar(c)) == CharDigit(c) && (LowerChar(c) == '-' <==> c == '-')
  {}

  lemma RowsAt()
    ensures forall r :: 0 <= r < 16 ==> UPPER[r] as int == if r < 10 then 0x30 + r else 0x37 + r
    ensures forall r :: 0 <= r < 16 ==> LOWER[r] as int == if r < 10 then 0x30 + r else 0x57 + r
  {
    forall r | 0 <= r < 16
      ensures UPPER[r] as int == if r < 10 then 0x30 + r else 0x37 + r
      ensures LOWER[r] as int == if r < 10 then 0x30 + r else 0x57 + r
    {
      RowAt(r);
    }
  }

  lemma {:induction false} SameParse(t: string, radix: nat)
    ensures Parse(LowerCase(t), radix) == Parse(t, radix)
  {
    if t != [] {
      var u, c := t[..|t| - 1], t[|t| - 1];
      SameParse(u, radix);
      SameDigit(c);
      assert LowerCase(t) == LowerCase(u) + [LowerChar(c)] && t == u + [c];
      hide *;
      ParseSnoc(u, c, radix);
      ParseSnoc(LowerCase(u), LowerChar(c), radix);
    }
  }

  /** The case of the letters does not matter. */
  lemma CaseInsensitive(s: string, radix: nat)
    ensures TextValue(LowerCase(s), radix) == TextValue(s, radix)
    ensures AllDigits(Digits(LowerCase(s)), radix) <==> AllDigits(Digits(s), radix)
  {
    var t := Digits(s);
    SameParse(t, radix);
    if |s| > 0 { SameDigit(s[0]); }
    assert Digits(LowerCase(s)) == LowerCase(t);
    forall k | 0 <= k < |t| ensures CharDigit(LowerCase(t)[k]) == CharDigit(t[k]) { SameDigit(t[k]); }
    hide CharDigit, LowerChar, Parse;
  }

  /** mpi_get_digit */
  method GetDigit(radix: nat, c: char) returns (ret: Status, d: nat)
    requires 2 <= radix <= 16
    ensures d == CharDigit(c) && ret == if d < radix then Ok else InvalidCharacter
    ensures ret == Ok ==> c == UPPER[d] || c == LOWER[d]
    ensures ret != Ok ==> forall r :: 0 <= r < radix ==> c != UPPER[r] && c != LOWER[r]
  {
    RowsAt();
    d := 255;
    if 0x30 <= c as int <= 0x39 { d := c as int - 0x30; }
    if 0x41 <= c as int <= 0x46 { d := c as int - 0x37; }
    if 0x61 <= c as int <= 0x66 { d := c as int - 0x57; }
    ret := if d >= radix then InvalidCharacter else Ok;
  }

  /** The character the code writes for a digit. */
  function DigitChar(r: nat): char
    requires r < 16
  {
    if r < 0xA then (0x30 + r) as char else (0x41 + (r - 0xA)) as char
  }

  /** Writing and reading a digit. */
  lemma DigitRoundTrip(r: nat)
    requires r < 16
    ensures CharDigit(DigitChar(r)) == r && DigitChar(r) != '-' && DigitChar(r) as int != 0
  {}

  ghost predicate AllDigits(t: string, radix: nat)
  {
    forall k :: 0 <= k < |t| ==> CharDigit(t[k]) < radix
  }

  /** The number a digit string stands for, the first digit being the most significant. */
  ghost function Parse(t: string, radix: nat): nat
  {
    if t == [] then 0 else Parse(t[..|t| - 1], radix) * radix + CharDigit(t[|t| - 1])
  }

  lemma ParseSnoc(t: string, c: char, radix: nat)
    ensures Parse(t + [c], radix) == Parse(t, radix) * radix + CharDigit(c)
  {
    assert (t + [c])[..|t|] == t;
  }

  lemma ParseEmpty(radix: nat)
    ensures Parse([], radix) == 0
  {}

  lemma PowNext(b: nat, e: nat)
    ensures Pow(b, e + 1) == b * Pow(b, e)
  {}

  /** The leading digit counts for its position. */
  lemma {:induction false} ParseCons(c: char, t: string, radix: nat)
    ensures Parse([c] + t, radix) == CharDigit(c) * Pow(radix, |t|) + Parse(t, radix)
  {
    if t == [] {
      assert [c] + t == [] + [c];
      ParseSnoc([], c, radix);
      ParseEmpty(radix);
    } else {
      var u, z := t[..|t| - 1], t[|t| - 1];
      assert [c] + t == ([c] + u) + [z] && t == u + [z];
      ParseCons(c, u, radix);
      hide *;
      ParseSnoc([c] + u, z, radix);
      ParseSnoc(u, z, radix);
      PowNext(radix, |u|);
      ConsAlgebra(CharDigit(c), Pow(radix, |u|), Parse(u, radix), radix);
    }
  }

  lemma ConsAlgebra(d: int, q: int, v: int, radix: int)
    ensures (d * q + v) * radix == d * (radix * q) + v * radix
  {}

  // ----- mbedtls_mpi_read_string ----------------------------------------------------------

  /** The digits after an optional minus sign. */
  ghost function Digits(s: string): string
  {
    if |s| > 0 && s[0] == '-' then s[1..] else s
  }

  /** The value of a whole string. */
  ghost function TextValue(s: string, radix: nat): int
  {
    if |s| > 0 && s[0] == '-' then 0 - Parse(Digits(s), radix) else Parse(Digits(s), radix)
  }

  /** mbedtls_mpi_read_string; s is the C string without its terminator */
  method ReadString(X: Mpi, radix: int, s: string) returns (ret: Status)
    modifies X
    ensures ret == if radix < 2 || radix > 16 then BadInputData
                   else if AllDigits(Digits(s), radix) then Ok else InvalidCharacter
    ensures ret == Ok ==> X.Value() == TextValue(s, radix)
  {
    hide *;
    if radix < 2 || radix > 16 { return BadInputData; }
    TextIs(s, radix);
    if |s| == 0 {
      X.Free();
      return Ok;
    }
    var t, sign := s, 1;
    if s[0] == '-' {
      t := s[1..];
      sign := -1;
    }
    if radix == 16 {
      ret := ReadHex(X, t);
    } else {
      ret := ReadDigits(X, radix, t);
    }
    if ret != Ok { return; }
    X.ValueIs();
    var bits := X.Bitlen();
    ZeroBits(Val(X.p), bits);
    PositiveMagnitude(X.s, Val(X.p));
    if sign < 0 && bits != 0 {
      X.s := -1;
    }
    SignedValue(X.s, Val(X.p));
    X.ValueIs();
  }

  lemma TextIs(s: string, radix: nat)
    ensures Digits(s) == if |s| > 0 && s[0] == '-' then s[1..] else s
    ensures TextValue(s, radix) ==
      if |s| > 0 && s[0] == '-' then 0 - Parse(Digits(s), radix) else Parse(Digits(s), radix)
    ensures |s| == 0 ==> AllDigits(Digits(s), radix) && TextValue(s, radix) == 0
  {}

  lemma ZeroBits(v: nat, bits: nat)
    requires bits == BitLen(v)
    ensures bits == 0 <==> v == 0
  {
    BitLenProperty(v);
  }

  lemma PositiveMagnitude(s: Sign, v: nat)
    requires Signed(s, v) >= 0
    ensures Signed(s, v) == v
  {}

  lemma SignedValue(s: Sign, v: nat)
    ensures Signed(s, v) == if s == 1 then v else 0 - v
  {}

  lemma NoDigits(radix: nat)
    ensures AllDigits([], radix)
  {}

  lemma OneMoreDigit(t: string, c: char, radix: nat)
    ensures AllDigits(t + [c], radix) <==> AllDigits(t, radix) && CharDigit(c) < radix
  {
    if AllDigits(t + [c], radix) {
      assert (t + [c])[|t|] == c;
      forall k | 0 <= k < |t| ensures CharDigit(t[k]) < radix { assert (t + [c])[k] == t[k]; }
    }
  }

  lemma BadDigit(t: string, k: nat, radix: nat)
    requires k < |t| && CharDigit(t[k]) >= radix
    ensures !AllDigits(t, radix)
  {}

  /** The digit loop for a radix other than 16. */
  method ReadDigits(X: Mpi, radix: nat, t: string) returns (ret: Status)
    requires 2 <= radix < 16
    modifies X
    ensures ret == if AllDigits(t, radix) then Ok else InvalidCharacter
    ensures ret == Ok ==> X.Value() == Parse(t, radix)
  {
    hide *;
    var T := new Mpi();
    SmallFits();
    X.LSet(0);
    NoDigits(radix);
    ParseEmpty(radix);
    assert t[..0] == [];
    var i := 0;
    while i < |t|
      invariant 0 <= i <= |t| && AllDigits(t[..i], radix) && X.Value() == Parse(t[..i], radix)
    {
      var d;
      ret, d := GetDigit(radix, t[i]);
      if ret != Ok {
        BadDigit(t, i, radix);
        return;
      }
      assert t[..i + 1] == t[..i] + [t[i]];
      OneMoreDigit(t[..i], t[i], radix);
      ParseSnoc(t[..i], t[i], radix);
      NonNegAbs(d);
      MulInt(T, X, radix);
      AddInt(X, T, d);
      i := i + 1;
    }
    assert t[..|t|] == t;
    ret := Ok;
  }

  lemma SmallFits()
    ensures Abs(0) == 0 && 1000 < RADIX < BASE
  {
    RadixBelow();
  }

  lemma NonNegAbs(d: nat)
    ensures Abs(d) == d
  {}

  /** Where nibble j lies: its limb and its bit position there */
  function NibbleLimb(j: nat): nat
  {
    LimbBytes();
    DivNonNeg(j, 2 * ciL);
    j / (2 * ciL)
  }

  function NibbleShift(j: nat): nat
  {
    LimbBytes();
    4 * (j % (2 * ciL))
  }

  lemma HexDigitFits(count: nat, n: nat, j: nat, len: nat)
    requires j < count && 4 * count <= biL * n && n <= len
    ensures 4 * (j + 1) <= biL * len
  {
    MulLe(biL, n, len);
  }

  /** The nibble loop for radix 16, from the last character. */
  method ReadHex(X: Mpi, t: string) returns (ret: Status)
    modifies X
    ensures ret == if AllDigits(t, 16) then Ok else InvalidCharacter
    ensures ret == Ok ==> X.Value() == Parse(t, 16)
  {
    hide *;
    var n := LimbsForBits(4 * |t|);
    LimbsForBitsSuffice(4 * |t|);
    SmallFits();
    LimbBytes();
    P2Zero();
    X.Grow(n);
    X.LSet(0);
    X.ValueIs();
    NoDigits(16);
    ParseEmpty(16);
    assert t[|t|..] == [];
    var i, j := |t|, 0;
    while i > 0
      invariant 0 <= i <= |t| && j == |t| - i && |X.p| >= n && X.s == 1
      invariant AllDigits(t[i..], 16) && Val(X.p) == Parse(t[i..], 16) && Val(X.p) < P2(4 * j)
    {
      var d;
      ret, d := GetDigit(16, t[i - 1]);
      if ret != Ok {
        BadDigit(t, i - 1, 16);
        return;
      }
      HexDigitFits(|t|, n, j, |X.p|);
      var k, shift := NibbleLimb(j), NibbleShift(j);
      NibbleAt(X.p, j, k, shift, d);
      X.p := X.p[k := Or(X.p[k], Shl(d, shift))];
      NibbleParsed(t, i, j);
      i := i - 1;
      j := j + 1;
    }
    assert t[0..] == t;
    X.ValueIs();
    ret := Ok;
  }

  lemma NibbleParsed(t: string, i: nat, j: nat)
    requires 0 < i <= |t| && j == |t| - i && CharDigit(t[i - 1]) < 16 && AllDigits(t[i..], 16)
    ensures AllDigits(t[i - 1..], 16)
    ensures Parse(t[i - 1..], 16) == Parse(t[i..], 16) + CharDigit(t[i - 1]) * P2(4 * j)
  {
    hide *;
    assert t[i - 1..] == [t[i - 1]] + t[i..];
    OneMoreLeading(t[i..], t[i - 1], 16);
    ParseCons(t[i - 1], t[i..], 16);
    SixteenPower(j);
  }

  lemma OneMoreLeading(t: string, c: char, radix: nat)
    ensures AllDigits([c] + t, radix) <==> AllDigits(t, radix) && CharDigit(c) < radix
  {
    if AllDigits([c] + t, radix) {
      assert ([c] + t)[0] == c;
      forall k | 0 <= k < |t| ensures CharDigit(t[k]) < radix { assert ([c] + t)[k + 1] == t[k]; }
    }
  }

  lemma {:induction false} SixteenPower(j: nat)
    ensures Pow(16, j) == P2(4 * j)
  {
    if j > 0 {
      SixteenPower(j - 1);
      PowNext(16, j - 1);
      hide *;
      P2Add(4, 4 * (j - 1));
      P2Four();
    } else {
      P2Zero();
    }
  }

  lemma P2Four()
    ensures P2(4) == 16 && P2(8) == 256 && P2(2) == 4 && P2(1) == 2
  {}

  /** Or-ing a nibble in above the limbs read so far adds it at its position. */
  lemma NibbleAt(p: seq<Limb>, j: nat, k: nat, shift: nat, d: nat)
    requires k == NibbleLimb(j) && shift == NibbleShift(j) && d < 16 && ciL * 8 == biL && ciL > 0
    requires 4 * (j + 1) <= biL * |p| && Val(p) < P2(4 * j)
    ensures k < |p| && Or(p[k], Shl(d, shift)) < BASE
    ensures Val(p[k := Or(p[k], Shl(d, shift))]) == Val(p) + d * P2(4 * j) < P2(4 * (j + 1))
  {
    hide *;
    NibblePlace(j);
    NibblePosition(j, k, shift, |p|);
    WeightIsP2(k);
    P2Add(biL * k, shift);
    LimbBelow(p, k, P2(shift));
    P2Add(4, shift);
    P2Four();
    P2Mono(4 + shift, biL);
    BaseIsP2();
    NibbleRoom(d, P2(shift), p[k]);
    ShiftDefinitions(d, shift);
    MulNonNeg(d, P2(shift));
    DivModSmall(d * P2(shift), BASE);
    Multiple(d, P2(shift));
    OrDisjoint(d * P2(shift), p[k], shift);
    OrSymmetric(p[k], d * P2(shift));
    ValUpdate(p, k, p[k] + d * P2(shift));
    MulAddDist(Weight(k), p[k], d * P2(shift));
    NibbleWeight(Weight(k), d, P2(shift));
    P2Add(4, 4 * j);
    NibbleRoom(d, P2(4 * j), Val(p));
  }

  lemma NibblePlace(j: nat)
    ensures ciL > 0 && NibbleLimb(j) == j / (2 * ciL) && NibbleShift(j) == 4 * (j % (2 * ciL))
  {
    LimbBytes();
  }

  lemma NibblePosition(j: nat, k: nat, shift: nat, len: nat)
    requires ciL * 8 == biL && ciL > 0 && k == j / (2 * ciL) && shift == 4 * (j % (2 * ciL))
    requires 4 * (j + 1) <= biL * len
    ensures biL * k + shift == 4 * j && k < len && shift + 4 <= biL
  {
    hide ciL;
    assert j == 2 * ciL * k + j % (2 * ciL);
    MulAssoc(8, ciL, k);
    assert biL * k == 8 * (ciL * k);
    assert 4 * j == 8 * (ciL * k) + shift;
    if k >= len { MulLe(biL, len, k); }
  }

  lemma NibbleRoom(d: nat, e: nat, x: nat)
    requires d < 16 && x < e
    ensures 0 <= d * e && x + d * e < 16 * e
  {
    MulLe(e, d, 15);
  }

  lemma NibbleWeight(w: int, d: int, e: int)
    ensures w * (d * e) == d * (w * e)
  {}

  lemma Multiple(d: nat, e: nat)
    requires e > 0
    ensures d * e % e == 0
  {
    DivModUnique(d * e, e, d, 0);
  }

  /** The limb a value ends in is below the rest of the bound. */
  lemma LimbBelow(p: seq<Limb>, k: nat, e: nat)
    requires k < |p| && Val(p) < Weight(k) * e
    ensures p[k] < e
  {
    hide *;
    ValSplit(p, k);
    ValHead(p, k);
    MulNonNeg(BASE, Val(p[k + 1..]));
    MulLe(Weight(k), p[k], Val(p[k..]));
    MulCancelLt(Weight(k), p[k], e);
  }

  // ----- mpi_write_hlp --------------------------------------------------------------------

  /** d is v written in the radix. */
  ghost predicate IsNumeral(d: string, v: nat, radix: nat)
  {
    AllDigits(d, radix) && Parse(d, radix) == v
  }

  /** d has no leading zeros, unless it is a single digit. */
  ghost predicate Short(d: nat, v: nat, radix: nat)
  {
    d > 1 ==> Pow(radix, d - 1) <= v
  }

  /** The loop of mpi_write_hlp: w holds the digits so far and cur what is left of v. */
  ghost predicate Writing(w: string, cur: nat, v: nat, radix: nat)
  {
    AllDigits(w, radix) && v == cur * Pow(radix, |w|) + Parse(w, radix) && Short(|w|, v, radix)
  }

  lemma WritingStart(v: nat, radix: nat)
    ensures Writing([], v, v, radix)
  {}

  lemma WritingStep(w: string, cur: nat, v: nat, radix: nat)
    requires Writing(w, cur, v, radix) && 2 <= radix <= 16 && (|w| > 0 ==> cur > 0)
    ensures 0 <= cur % radix < 16 && 0 <= cur / radix < 1 + cur && (cur > 0 ==> cur / radix < cur)
    ensures Writing([DigitChar(cur % radix)] + w, cur / radix, v, radix)
  {
    hide Pow, Parse, AllDigits, DigitChar, CharDigit;
    var c := DigitChar(cur % radix);
    DigitRoundTrip(cur % radix);
    OneMoreLeading(w, c, radix);
    ParseCons(c, w, radix);
    PowNext(radix, |w|);
    PowPos(radix, |w|);
    MulNonNeg(radix, Pow(radix, |w|));
    assert cur == radix * (cur / radix) + cur % radix;
    StepAlgebra(cur, radix, cur / radix, cur % radix, Pow(radix, |w|));
    Quotient(cur, radix);
    if |w| > 0 { MulLe(Pow(radix, |w|), 1, cur); }
  }

  lemma Quotient(cur: nat, radix: nat)
    requires 2 <= radix
    ensures 0 <= cur / radix <= cur && (cur > 0 ==> cur / radix < cur)
  {
    var q := cur / radix;
    assert cur == radix * q + cur % radix;
    if q > 0 { MulLe(q, 2, radix); }
  }

  lemma StepAlgebra(cur: int, radix: int, q: int, r: int, w: int)
    requires cur == radix * q + r
    ensures cur * w == q * (radix * w) + r * w
  {}

  /** What is left is not zero, so the digits written cannot be all. */
  lemma StillLarge(w: string, cur: nat, v: nat, radix: nat)
    requires Writing(w, cur, v, radix) && cur > 0 && radix > 0
    ensures Pow(radix, |w|) <= v
  {
    hide Pow;
    PowPos(radix, |w|);
    MulLe(Pow(radix, |w|), 1, cur);
  }

  lemma WritingDone(w: string, v: nat, radix: nat)
    requires Writing(w, 0, v, radix)
    ensures IsNumeral(w, v, radix) && Short(|w|, v, radix)
  {}

  /** mpi_write_hlp: the digits of X at buf[off..], X being used up. They are built at the end of
      the buflen characters and then moved down. */
  method WriteHlp(X: Mpi, radix: nat, buf: array<char>, off: nat, buflen: nat) returns (ret: Status, off': nat)
    requires X.Value() >= 0 && 2 <= radix <= 16 && off + buflen <= buf.Length
    modifies X, buf
    ensures ret == if buflen > 0 && old(X.Value()) < Pow(radix, buflen) then Ok else BufferTooSmall
    ensures buf[..off] == old(buf[..off])
    ensures ret == Ok ==> off < off' <= off + buflen && IsNumeral(buf[off..off'], old(X.Value()), radix)
    ensures ret == Ok ==> Short(off' - off, old(X.Value()), radix)
  {
    hide *;
    SmallFits();
    ghost var v := X.Value();
    var length, pEnd, end := 0, off + buflen, off + buflen;
    var more := true;
    WritingStart(v, radix);
    assert buf[pEnd..end] == [];
    PowOneIs(radix);
    while more
      invariant 0 <= length <= buflen && pEnd == end - length && X.Value() >= 0
      invariant buf[..off] == old(buf[..off])
      invariant Writing(buf[pEnd..end], X.Value(), v, radix)
      invariant if length > 0 then more <==> X.Value() != 0 else more
      decreases more, X.Value(), buflen - length
    {
      ghost var w, cur := buf[pEnd..end], X.Value();
      if length >= buflen {
        if length > 0 { StillLarge(w, cur, v, radix); }
        return BufferTooSmall, off;
      }
      WritingStep(w, cur, v, radix);
      NonNegAbs(radix);
      SmallFoldable(radix);
      var ret1, r := ModInt(X, radix);
      var ret2 := DivInt(X, null, X, radix);
      TruncNonNeg(cur, radix);
      pEnd := pEnd - 1;
      DigitCharIs(r);
      buf[pEnd] := if r < 0xA then (0x30 + r) as char else (0x41 + (r - 0xA)) as char;
      assert buf[pEnd..end] == [DigitChar(r)] + w;
      length := length + 1;
      var cmp := CmpInt(X, 0);
      SignOf(X.Value() - 0);
      more := cmp != 0;
    }
    ghost var w := buf[pEnd..end];
    WritingDone(w, v, radix);
    ShortFits(w, v, radix, buflen);
    MoveDown(buf, off, pEnd, length);
    return Ok, off + length;
  }

  /** memmove towards the front of the buffer */
  method MoveDown(buf: array<char>, to: nat, from: nat, length: nat)
    requires to <= from && from + length <= buf.Length
    modifies buf
    ensures buf[to..to + length] == old(buf[from..from + length]) && buf[..to] == old(buf[..to])
  {
    forall k | 0 <= k < length {
      buf[to + k] := buf[from + k];
    }
  }

  lemma DigitCharIs(r: nat)
    requires r < 16
    ensures DigitChar(r) == if r < 0xA then (0x30 + r) as char else (0x41 + (r - 0xA)) as char
  {}

  lemma PowOneIs(radix: nat)
    ensures Pow(radix, 0) == 1
  {}

  lemma TruncNonNeg(cur: nat, radix: nat)
    requires 2 <= radix
    ensures QuotientLeft(true, false, cur, radix) == cur / radix
  {}

  lemma {:induction false} ParseBelow(t: string, radix: nat)
    requires AllDigits(t, radix) && radix > 0
    ensures Parse(t, radix) < Pow(radix, |t|)
  {
    if t == [] {
    } else {
      var u, c := t[..|t| - 1], t[|t| - 1];
      ParseBelow(u, radix);
      hide AllDigits;
      PowNext(radix, |u|);
      MulLe(radix, Parse(u, radix) + 1, Pow(radix, |u|));
      MulAddDist(radix, Parse(u, radix), 1);
    }
  }

  lemma ShortFits(w: string, v: nat, radix: nat, buflen: nat)
    requires IsNumeral(w, v, radix) && |w| <= buflen && 2 <= radix
    ensures v < Pow(radix, buflen)
  {
    hide Pow, Parse, AllDigits;
    ParseBelow(w, radix);
    PowMono(radix, |w|, buflen);
  }

  // ----- Hexadecimal output ---------------------------------------------------------------

  /** The bytes of v above position pos, as far as they are written: nothing before the first
      non-zero one, and the last one in any case. */
  ghost predicate HexState(w: string, k: nat, v: nat, pos: nat)
  {
    && IsNumeral(w, Top(v, pos), 16)
    && (if k == 0 then |w| == 0 else |w| >= 2 && |w| % 2 == 0)
    && (|w| >= 2 ==> P2(4 * (|w| - 2)) <= Top(v, pos) || (pos == 0 && |w| == 2))
  }

  /** v without its low pos bytes */
  ghost function Top(v: nat, pos: nat): nat
  {
    DivNonNeg(v, P2(8 * pos));
    v / P2(8 * pos)
  }

  lemma TopStep(v: nat, pos: nat)
    requires pos > 0
    ensures Top(v, pos - 1) == Top(v, pos) * 256 + Top(v, pos - 1) % 256
    ensures 0 <= Top(v, pos - 1) % 256 < 256
  {
    hide P2;
    P2Four();
    P2Add(8 * (pos - 1), 8);
    DivDiv(v, P2(8 * (pos - 1)), 256);
  }

  lemma TopBounds(v: nat, pos: nat)
    ensures Top(v, pos) * P2(8 * pos) <= v && Top(v, 0) == v
    ensures v < P2(8 * pos) ==> Top(v, pos) == 0
  {
    hide P2;
    P2Zero();
    DivBounds(v, P2(8 * pos));
    if v < P2(8 * pos) { DivModSmall(v, P2(8 * pos)); }
  }

  lemma HexStart(v: nat, pos: nat)
    requires v < P2(8 * pos)
    ensures HexState([], 0, v, pos)
  {
    TopBounds(v, pos);
    NoDigits(16);
  }

  lemma HexSkip(w: string, v: nat, pos: nat)
    requires HexState(w, 0, v, pos) && pos > 0 && Top(v, pos - 1) % 256 == 0
    ensures HexState(w, 0, v, pos - 1)
  {
    hide P2, Top, AllDigits;
    assert w == [];
    ParseEmpty(16);
    TopStep(v, pos);
  }

  lemma HexByte(w: string, k: nat, v: nat, pos: nat, c: nat)
    requires HexState(w, k, v, pos) && pos > 0 && c == Top(v, pos - 1) % 256
    requires c != 0 || k != 0 || pos == 1
    ensures c < 256 && HexState(w + [DigitChar(c / 16), DigitChar(c % 16)], 1, v, pos - 1)
  {
    hide P2, Top, AllDigits, DigitChar, CharDigit, Parse;
    TopStep(v, pos);
    var hi, lo := c / 16, c % 16;
    var w1 := w + [DigitChar(hi)];
    var w2 := w1 + [DigitChar(lo)];
    assert w2 == w + [DigitChar(hi), DigitChar(lo)];
    DigitRoundTrip(hi);
    DigitRoundTrip(lo);
    OneMoreDigit(w, DigitChar(hi), 16);
    OneMoreDigit(w1, DigitChar(lo), 16);
    ParseSnoc(w, DigitChar(hi), 16);
    ParseSnoc(w1, DigitChar(lo), 16);
    if k != 0 {
      P2Four();
      P2Add(8, 4 * (|w| - 2));
      MulLe(256, P2(4 * (|w| - 2)), Top(v, pos));
    } else {
      P2Zero();
      ParseEmpty(16);
      assert w == [];
    }
  }

  /** The room a further byte needs. */
  lemma HexRoom(w: string, k: nat, v: nat, pos: nat, B: nat)
    requires HexState(w, k, v, pos) && pos > 0 && v < P2(8 * B) && B > 0
    ensures |w| + 2 <= 2 * B
  {
    if |w| >= 2 {
      hide P2, Top, IsNumeral;
      TopBounds(v, pos);
      MulLe(P2(8 * pos), P2(4 * (|w| - 2)), Top(v, pos));
      P2Add(4 * (|w| - 2), 8 * pos);
      if |w| + 2 > 2 * B { P2Mono(8 * B, 4 * (|w| - 2) + 8 * pos); }
    }
  }

  /** The byte the code extracts. */
  lemma ByteOf(p: seq<Limb>, i: nat, j: nat, pos: nat)
    requires i < |p| && j < ciL && pos == ciL * i + j
    ensures And(Shr(p[i], 8 * j), 255) == Top(Val(p), pos) % 256
  {
    hide *;
    ByteSplit(i, j, pos);
    ByteWord(p[i], 8 * j);
    TopIs(Val(p), pos);
    ValSplit(p, i);
    ValHead(p, i);
    ValBound(p[..i]);
    assert |p[..i]| == i;
    ByteAlgebra(Val(p[..i]), Weight(i), p[i], Val(p[i + 1..]), P2(8 * j), P2(biL - 8 * j - 8));
  }

  lemma ByteWord(x: nat, t: nat)
    ensures And(Shr(x, t), 255) == x / P2(t) % 256
  {
    hide *;
    P2Four();
    AndMask(Shr(x, t), 8);
    ShiftDefinitions(x, t);
  }

  /** The powers of two around byte j of limb i */
  lemma ByteSplit(i: nat, j: nat, pos: nat)
    requires j < ciL && pos == ciL * i + j
    ensures 8 * j + 8 <= biL && P2(8 * pos) == Weight(i) * P2(8 * j)
    ensures BASE == 256 * P2(biL - 8 * j - 8) * P2(8 * j)
  {
    hide *;
    LimbBytes();
    P2Four();
    WeightIsP2(i);
    MulAssoc(8, ciL, i);
    P2Add(biL * i, 8 * j);
    BaseSplit(8 * j);
    P2Add(8, biL - 8 * j - 8);
    assert biL * i + 8 * j == 8 * pos;
  }

  lemma TopIs(v: nat, pos: nat)
    ensures Top(v, pos) == v / P2(8 * pos)
  {}

  lemma ByteAlgebra(lo: nat, w: nat, x: nat, rest: nat, d: nat, f: nat)
    requires w > 0 && d > 0 && lo < w
    ensures (lo + w * (x + (256 * f * d) * rest)) / (w * d) % 256 == x / d % 256
  {
    hide *;
    var h, l := x / d, x % d;
    DivBounds(x, d);
    TwoDigits(w, lo, d, l, h + 256 * (f * rest));
    ByteAlgebra2(lo, w, x, rest, d, f, h, l);
    DivModLow(lo + w * (x + (256 * f * d) * rest), w * d, h + 256 * (f * rest), lo + w * l);
    var q := h / 256;
    DivModUnique(h + 256 * (f * rest), 256, q + f * rest, h % 256);
  }

  lemma ByteAlgebra2(lo: int, w: int, x: int, rest: int, d: int, f: int, h: int, l: int)
    requires x == d * h + l
    ensures lo + w * (x + (256 * f * d) * rest) == lo + w * (l + d * (h + 256 * (f * rest)))
  {
    assert (256 * f * d) * rest == d * (256 * (f * rest));
  }

  /** The two hexadecimal digits of a byte. */
  method EmitByte(buf: array<char>, ghost off: nat, p: nat, c: nat,
                  ghost k: nat, ghost v: nat, ghost pos: nat, ghost B: nat) returns (p': nat)
    requires off <= p <= buf.Length && off + 2 * B <= buf.Length && 0 < B && v < P2(8 * B)
    requires HexState(buf[off..p], k, v, pos) && pos > 0 && c == Top(v, pos - 1) % 256
    requires c != 0 || k != 0 || pos == 1
    modifies buf
    ensures p' == p + 2 <= off + 2 * B && buf[..off] == old(buf[..off])
    ensures HexState(buf[off..p'], 1, v, pos - 1)
  {
    hide *;
    ghost var w := buf[off..p];
    HexByte(w, k, v, pos, c);
    HexRoom(w, k, v, pos, B);
    HexTable(c / 16);
    HexTable(c % 16);
    buf[p] := "0123456789ABCDEF"[c / 16];
    buf[p + 1] := "0123456789ABCDEF"[c % 16];
    p' := p + 2;
    assert buf[off..p] == w;
    assert buf[off..p'] == w + [DigitChar(c / 16), DigitChar(c % 16)];
  }

  lemma HexTable(r: nat)
    requires r < 16
    ensures "0123456789ABCDEF"[r] == DigitChar(r)
  {}

  /** The branch for radix 16. */
  method WriteHex(X: Mpi, buf: array<char>, off: nat, ghost B: nat) returns (p: nat)
    requires Val(X.p) < P2(8 * B) && B > 0 && off + 2 * B <= buf.Length
    modifies buf
    ensures off <= p <= off + 2 * B && buf[..off] == old(buf[..off])
    ensures IsNumeral(buf[off..p], Val(X.p), 16)
  {
    hide *;
    LimbBytes();
    ghost var v := Val(X.p);
    p := off;
    var i, k := |X.p|, 0;
    ValBound(X.p);
    WeightIsP2(|X.p|);
    MulAssoc(8, ciL, |X.p|);
    assert biL * |X.p| == 8 * (ciL * |X.p|);
    HexStart(v, ciL * |X.p|);
    assert buf[off..p] == [];
    while i > 0
      invariant 0 <= i <= |X.p| && off <= p <= off + 2 * B && buf[..off] == old(buf[..off])
      invariant HexState(buf[off..p], k, v, ciL * i)
    {
      var j := ciL;
      MulAddDist(ciL, i, 1);
      while j > 0
        invariant 0 <= j <= ciL && 0 < i <= |X.p| && off <= p <= off + 2 * B && buf[..off] == old(buf[..off])
        invariant HexState(buf[off..p], k, v, ciL * (i - 1) + j)
      {
        var c := And(Shr(X.p[i - 1], 8 * (j - 1)), 0xFF);
        ghost var w, pos := buf[off..p], ciL * (i - 1) + j;
        MulNonNeg(ciL, i - 1);
        ByteOf(X.p, i - 1, j - 1, pos - 1);
        LastByte(i, j);
        if c == 0 && k == 0 && i + j != 2 {
          HexSkip(w, v, pos);
        } else {
          p := EmitByte(buf, off, p, c, k, v, pos, B);
          k := 1;
        }
        j := j - 1;
      }
      i := i - 1;
    }
    HexEnd(buf[off..p], k, v);
  }

  lemma LastByte(i: nat, j: nat)
    requires i > 0 && j > 0
    ensures ciL * (i - 1) + j == 1 <==> i + j == 2
  {
    LimbBytes();
    if i > 1 { MulLe(ciL, 1, i - 1); }
  }

  lemma HexEnd(w: string, k: nat, v: nat)
    requires HexState(w, k, v, ciL * 0)
    ensures IsNumeral(w, v, 16)
  {
    P2Zero();
  }

  // ----- mbedtls_mpi_write_string ---------------------------------------------------------

  /** The buffer size mbedtls_mpi_write_string asks for. */
  function BufferSize(bits: nat, radix: nat): nat
  {
    var n1 := if radix >= 4 then bits / 2 else bits;
    var n2 := if radix >= 16 then n1 / 2 else n1;
    n2 + 3 + (n2 + 3) % 2
  }

  /** It is the least even number with room for as many digits as base 2, 4 or 16 needs, one more, a sign and a
      terminator. */
  lemma BufferSizeMeaning(bits: nat, radix: nat)
    requires 2 <= radix <= 16
    ensures var digits := bits / (if radix == 16 then 4 else if radix >= 4 then 2 else 1);
      BufferSize(bits, radix) % 2 == 0 && digits + 3 <= BufferSize(bits, radix) <= digits + 4
  {
    DivDiv(bits, 2, 2);
    var digits := bits / (if radix == 16 then 4 else if radix >= 4 then 2 else 1);
    assert BufferSize(bits, radix) == digits + 3 + (digits + 3) % 2;
    EvenUp(digits + 3);
    hide BufferSize;
  }

  lemma EvenUp(x: nat)
    ensures (x + x % 2) % 2 == 0 && x <= x + x % 2 <= x + 1
  {
    DivModUnique(x + x % 2, 2, x / 2 + x % 2, 0);
  }

  /** The digits that fit beside sign and terminator are enough for every number of that length. */
  lemma DigitsFit(v: nat, bits: nat, radix: nat)
    requires bits == BitLen(v) && 2 <= radix < 16
    ensures BufferSize(bits, radix) >= 3 && v < Pow(radix, BufferSize(bits, radix) - 2)
  {
    BitLenProperty(v);
    var n := BufferSize(bits, radix);
    hide P2, Pow, BitLen, BufferSize;
    BufferSizeIs(bits, radix);
    VBelow(v, bits);
    if radix >= 4 {
      FourPower(bits / 2 + 1);
      P2Mono(bits, 2 * (bits / 2 + 1));
      PowBase(4, radix, bits / 2 + 1);
      PowMono(radix, bits / 2 + 1, n - 2);
    } else {
      P2IsPow(bits);
      PowBase(2, radix, bits);
      PowMono(radix, bits, n - 2);
    }
  }

  lemma BufferSizeIs(bits: nat, radix: nat)
    requires radix >= 2
    ensures radix < 4 ==> BufferSize(bits, radix) >= bits + 3
    ensures 4 <= radix < 16 ==> BufferSize(bits, radix) >= bits / 2 + 3
    ensures radix == 16 ==> BufferSize(bits, radix) % 2 == 0 && 4 * (BufferSize(bits, radix) - 2) >= bits
    ensures BufferSize(bits, radix) >= 4
  {
    DivDiv(bits, 2, 2);
    var m := bits / 2 / 2;
    assert bits < 4 * m + 4;
  }

  lemma VBelow(v: nat, bits: nat)
    requires bits == BitLen(v)
    ensures v < P2(bits)
  {
    BitLenProperty(v);
    P2Zero();
  }

  lemma {:induction false} FourPower(k: nat)
    ensures Pow(4, k) == P2(2 * k)
  {
    if k == 0 {
      P2Zero();
    } else {
      FourPower(k - 1);
      PowNext(4, k - 1);
      hide *;
      P2Four();
      P2Add(2, 2 * (k - 1));
    }
  }

  lemma {:induction false} PowBase(a: nat, b: nat, e: nat)
    requires 0 < a <= b
    ensures 0 < Pow(a, e) <= Pow(b, e)
  {
    if e > 0 {
      PowBase(a, b, e - 1);
      PowNext(a, e - 1);
      PowNext(b, e - 1);
      hide Pow;
      MulLe(a, Pow(a, e - 1), Pow(b, e - 1));
      MulLe(Pow(b, e - 1), a, b);
      MulLt(a, 0, Pow(a, e - 1));
    }
  }

  /** The bytes that fit beside sign and terminator are enough in radix 16. */
  lemma BytesFit(v: nat, bits: nat) returns (B: nat)
    requires bits == BitLen(v)
    ensures B > 0 && 2 * B + 2 == BufferSize(bits, 16) && v < P2(8 * B)
  {
    VBelow(v, bits);
    BufferSizeIs(bits, 16);
    B := (BufferSize(bits, 16) - 2) / 2;
    P2Mono(bits, 8 * B);
  }

  /** t is a minus sign if s is negative, then v written in the radix. */
  ghost predicate Prints(t: string, s: Sign, v: nat, radix: nat)
  {
    exists d :: t == (if s == -1 then ['-'] else []) + d && IsNumeral(d, v, radix)
  }

  lemma PrintsIs(t: string, d: string, s: Sign, v: nat, radix: nat)
    requires t == (if s == -1 then ['-'] else []) + d && IsNumeral(d, v, radix)
    ensures Prints(t, s, v, radix)
  {}

  /** Reading what was printed gives the value back. */
  lemma RoundTrip(t: string, s: Sign, v: nat, radix: nat)
    requires Prints(t, s, v, radix) && 2 <= radix <= 16
    ensures AllDigits(Digits(t), radix) && TextValue(t, radix) == Signed(s, v)
  {
    var d :| t == (if s == -1 then ['-'] else []) + d && IsNumeral(d, v, radix);
    hide Parse;
    if s == -1 {
      assert t[1..] == d;
    } else {
      assert t == d;
      if |d| > 0 { assert CharDigit(d[0]) < radix; }
    }
  }

  lemma SizeComputed(bits: nat, radix: nat, n: nat)
    requires var n1 := if radix >= 4 then bits / 2 else bits;
             var n2 := if radix >= 16 then n1 / 2 else n1;
             n == n2 + 1 + 1 + 1 + (n2 + 1 + 1 + 1) % 2
    ensures n == BufferSize(bits, radix)
  {}

  /** A numeral without leading zeros leaves room for sign and terminator. */
  lemma DigitsRoom(len: nat, v: nat, bits: nat, radix: nat)
    requires bits == BitLen(v) && 2 <= radix < 16 && Short(len, v, radix)
    ensures len + 2 <= BufferSize(bits, radix)
  {
    DigitsFit(v, bits, radix);
    BufferSizeIs(bits, radix);
    hide BufferSize, Pow, BitLen;
    var n := BufferSize(bits, radix);
    if len > n - 2 { PowMono(radix, n - 2, len - 1); }
  }

  /** The branch for the other radices, on the magnitude of X. */
  method WriteNumeral(X: Mpi, radix: nat, buf: array<char>, off: nat, room: nat) returns (p: nat)
    requires 2 <= radix < 16 && off + room <= buf.Length
    requires room + 1 >= BufferSize(BitLen(Val(X.p)), radix)
    modifies buf
    ensures buf[..off] == old(buf[..off])
    ensures off < p && p - off + 2 <= BufferSize(BitLen(Val(X.p)), radix) && p <= buf.Length
    ensures IsNumeral(buf[off..p], Val(X.p), radix)
  {
    hide *;
    ghost var v, bits := Val(X.p), BitLen(Val(X.p));
    var T := new Mpi();
    T.Copy(X);
    if T.s == -1 { T.s := 1; }
    T.ValueIs();
    DigitsFit(v, bits, radix);
    PowMono(radix, BufferSize(bits, radix) - 2, room);
    var ret;
    ret, p := WriteHlp(T, radix, buf, off, room);
    DigitsRoom(p - off, v, bits, radix);
  }

  /** mbedtls_mpi_write_string: the text and its terminator at the start of buf, olen characters in
      all; or the size to ask for */
  method WriteString(X: Mpi, radix: int, buf: array<char>, buflen: nat) returns (ret: Status, olen: nat)
    requires buflen <= buf.Length
    modifies buf
    ensures ret == if radix < 2 || radix > 16 then BadInputData
                   else if buflen < BufferSize(BitLen(Val(X.p)), radix) then BufferTooSmall else Ok
    ensures ret == BufferTooSmall ==> olen == BufferSize(BitLen(Val(X.p)), radix)
    ensures ret == Ok ==> 0 < olen <= buflen && buf[olen - 1] == '\0'
    ensures ret == Ok ==> Prints(buf[..olen - 1], X.s, Val(X.p), radix)
  {
    hide *;
    if radix < 2 || radix > 16 { return BadInputData, 0; }
    var n := X.Bitlen();
    ghost var bits, v := n, Val(X.p);
    if radix >= 4 { n := n / 2; }
    if radix >= 16 { n := n / 2; }
    n := n + 1;
    n := n + 1;
    n := n + 1;
    n := n + n % 2;
    SizeComputed(bits, radix, n);
    if buflen < n { return BufferTooSmall, n; }
    BufferSizeIs(bits, radix);
    var p, room := 0, buflen;
    if X.s == -1 {
      buf[p] := '-';
      p := p + 1;
      room := room - 1;
    }
    ghost var sign: string := if X.s == -1 then ['-'] else [];
    assert buf[..p] == sign;
    ghost var start := p;
    if radix == 16 {
      ghost var B := BytesFit(v, bits);
      p := WriteHex(X, buf, p, B);
    } else {
      p := WriteNumeral(X, radix, buf, p, room);
    }
    ghost var d := buf[start..p];
    assert buf[..p] == sign + d by { assert buf[..p] == buf[..start] + buf[start..p]; }
    PrintsIs(buf[..p], d, X.s, v, radix);
    ghost var t := buf[..p];
    buf[p] := '\0';
    assert buf[..p] == t;
    p := p + 1;
    return Ok, p;
  }

  /** No character of a printed number ends a C string early. */
  lemma NoTerminator(t: string, s: Sign, v: nat, radix: nat)
    requires Prints(t, s, v, radix) && radix <= 16
    ensures forall k :: 0 <= k < |t| ==> t[k] != '\0'
  {
    var d :| t == (if s == -1 then ['-'] else []) + d && IsNumeral(d, v, radix);
    assert CharDigit('\0') == 255;
  }

  /** strlen: the scan for the terminator, of which there is one at n */
  method StringLength(buf: array<char>, ghost n: nat) returns (len: nat)
    requires n < buf.Length && buf[n] == '\0'
    ensures len <= n && buf[len] == '\0' && forall k :: 0 <= k < len ==> buf[k] != '\0'
  {
    len := 0;
    while buf[len] != '\0'
      invariant 0 <= len <= n && forall k :: 0 <= k < len ==> buf[k] != '\0'
      decreases n - len
    {
      len := len + 1;
    }
  }

  /** Printing into a large enough buffer, then reading the buffer as a C string. */
  method PrintThenRead(X: Mpi, Y: Mpi, radix: nat, buf: array<char>)
    requires 2 <= radix <= 16 && BufferSize(BitLen(Val(X.p)), radix) <= buf.Length
    modifies Y, buf
    ensures Y.Value() == old(X.Value())
  {
    hide *;
    var ret, olen := WriteString(X, radix, buf, buf.Length);
    ghost var t := buf[..olen - 1];
    NoTerminator(t, X.s, Val(X.p), radix);
    RoundTrip(t, X.s, Val(X.p), radix);
    X.ValueIs();
    assert forall k :: 0 <= k < olen - 1 ==> buf[k] == t[k];
    var len := StringLength(buf, olen - 1);
    ret := ReadString(Y, radix, buf[..len]);
  }
}
