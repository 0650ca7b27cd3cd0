/** The DER INTEGER writer and parser: asn1write.c writes backwards from the end of a buffer, asn1parse.c reads
    forwards. */
module Der {
  import opened Arith
  import opened Limbs
  import opened Mpis
  import opened RadixIO
  import opened BinaryIO

  const OUT_OF_DATA: int := -0x0060
  const UNEXPECTED_TAG: int := -0x0062
  const INVALID_LENGTH: int := -0x0064
  const BUF_TOO_SMALL: int := -0x006C
  const INTEGER: Byte := 0x02

  /** The longest content whose length can be written */
  const MAX_LENGTH: nat := 0xFFFFFFFF

  // ----- The encoding (sections 8.1.3, 8.3 and 10.1 of X.690) -------------------------------

  lemma LengthSize(len: nat)
    requires len <= MAX_LENGTH
    ensures SizeBytes(len) <= 4 && (len >= 0x80 ==> SizeBytes(len) >= 1)
  {
    SizeIsLeast(len, 4);
    SizeIsLeast(len, 0);
    ThreePowers();
    hide *;
    assert len < 0x1_0000_0000 by { assert MAX_LENGTH == 0xFFFFFFFF; }
  }

  lemma ThreePowers()
    ensures P2(8 * 0) == 1 && P2(8 * 1) == 0x100 && P2(8 * 2) == 0x1_0000 && P2(8 * 3) == 0x100_0000
    ensures P2(8 * 4) == 0x1_0000_0000
  {
    hide *;
    P2Zero();
    ByteBits(0);
    ByteBits(1);
    ByteBits(2);
    ByteBits(3);
  }

  /** The length octets: one byte below 128, else the number of bytes and the fewest bytes the length fits in */
  ghost function LengthOctets(len: nat): (s: seq<Byte>)
    requires len <= MAX_LENGTH
    ensures 1 <= |s| <= 5
  {
    LengthSize(len);
    if len < 0x80 then [len] else [0x80 + SizeBytes(len)] + ToBig(len, SizeBytes(len))
  }

  /** The fewest bytes the number fits in, at least one */
  ghost function Magnitude(v: nat): (b: seq<Byte>)
    ensures |b| >= 1 && |b| == if SizeBytes(v) == 0 then 1 else SizeBytes(v)
  {
    ToBig(v, if SizeBytes(v) == 0 then 1 else SizeBytes(v))
  }

  /** The contents octets of a number with magnitude v; a zero byte in front keeps the sign bit clear. */
  ghost function Contents(s: Sign, v: nat): (c: seq<Byte>)
    ensures |c| >= 1
  {
    if s == 1 && Magnitude(v)[0] >= 0x80 then [0] + Magnitude(v) else Magnitude(v)
  }

  ghost function Integer(s: Sign, v: nat): (e: seq<Byte>)
    requires |Contents(s, v)| <= MAX_LENGTH
  {
    [INTEGER] + (LengthOctets(|Contents(s, v)|) + Contents(s, v))
  }

  // ----- Writing backwards ------------------------------------------------------------------

  /** `after` is `before` with s written so that it ends at p; the write position is then q. */
  ghost predicate Wrote(before: seq<Byte>, after: seq<Byte>, p: nat, q: nat, s: seq<Byte>)
  {
    && |after| == |before| && q + |s| == p <= |before|
    && after[..q] == before[..q] && after[q..p] == s && after[p..] == before[p..]
  }

  lemma WroteNone(b: seq<Byte>, p: nat)
    requires p <= |b|
    ensures Wrote(b, b, p, p, [])
  {}

  lemma WroteThen(b0: seq<Byte>, b1: seq<Byte>, b2: seq<Byte>, p: nat, q: nat, r: nat, s: seq<Byte>, t: seq<Byte>)
    requires Wrote(b0, b1, p, q, s) && Wrote(b1, b2, q, r, t)
    ensures Wrote(b0, b2, p, r, t + s)
  {
    assert b2[..r] == b1[..r] == b1[..q][..r] == b0[..q][..r] == b0[..r];
    assert b2[q..p] == b2[q..][..p - q] == b1[q..][..p - q] == s;
    assert b2[p..] == b2[q..][p - q..] == b1[q..][p - q..] == b1[p..];
    assert b2[r..p] == b2[r..q] + b2[q..p];
  }

  lemma WroteFrame(b: seq<Byte>, a: seq<Byte>, p: nat, q: nat, s: seq<Byte>)
    requires Wrote(b, a, p, q, s)
    ensures |a| == |b| && q <= p <= |b| && q + |s| == p
    ensures a[..q] == b[..q] && a[q..p] == s && a[p..] == b[p..]
  {}

  /** *--(*p) = b */
  method Push(buf: array<Byte>, p: nat, b: Byte) returns (p': nat)
    requires 0 < p <= buf.Length
    modifies buf
    ensures p' == p - 1 && Wrote(old(buf[..]), buf[..], p, p', [b])
  {
    p' := p - 1;
    buf[p'] := b;
  }

  /** MBEDTLS_BYTE_0 to MBEDTLS_BYTE_3 */
  method Octet(len: nat, i: nat) returns (b: Byte)
    ensures b == ByteAt(len, i)
  {
    hide *;
    P2Four();
    AndMask(Shr(len, 8 * i), 8);
    ShrTop(len, i);
    ByteAtIs(len, i);
    b := And(Shr(len, 8 * i), 0xff);
  }

  /** The octets the code writes for each range */
  lemma LengthForm(len: nat, k: nat)
    requires 1 <= k <= 4 && len >= 0x80 && (k > 1 ==> len >= P2(8 * (k - 1))) && len < P2(8 * k)
    ensures len <= MAX_LENGTH && LengthOctets(len) == [0x80 + k] + ToBig(len, k)
  {
    ThreePowers();
    P2Mono(8 * k, 8 * 4);
    SizeIsLeast(len, k);
    SizeIsLeast(len, k - 1);
    hide P2, SizeBytes, ToBig;
  }

  lemma ShortForm(len: nat)
    requires len < 0x80
    ensures len <= MAX_LENGTH && LengthOctets(len) == [len]
  {
    hide SizeBytes, ToBig;
  }

  lemma OneMoreOctet(len: nat, i: nat)
    ensures ToBig(len, i + 1) == [ByteAt(len, i)] + ToBig(len, i)
    ensures ToBig(len, 0) == []
  {
    hide *;
    var t := [ByteAt(len, i)] + ToBig(len, i);
    forall j | 0 <= j < |t| ensures t[j] == ByteAt(len, |t| - 1 - j) {
      if j > 0 { ToBigAt(len, i, j - 1); }
    }
    BytesAre(t, len);
  }

  /** *--(*p) = MBEDTLS_BYTE_i( len ) */
  method PushOctet(buf: array<Byte>, p: nat, len: nat, i: nat, ghost was: seq<Byte>, ghost end: nat) returns (p': nat)
    requires 0 < p <= buf.Length && Wrote(was, buf[..], end, p, ToBig(len, i))
    modifies buf
    ensures p' == p - 1 && Wrote(was, buf[..], end, p', ToBig(len, i + 1))
  {
    hide *;
    ghost var before := buf[..];
    OneMoreOctet(len, i);
    var b := Octet(len, i);
    p' := Push(buf, p, b);
    WroteThen(was, before, buf[..], end, p, p', ToBig(len, i), [b]);
  }

  /** The octet with the number k of length octets, in front of them */
  method PushCount(buf: array<Byte>, p: nat, len: nat, k: nat, ghost was: seq<Byte>, ghost end: nat) returns (p': nat)
    requires 0 < p <= buf.Length && k <= 4 && Wrote(was, buf[..], end, p, ToBig(len, k))
    modifies buf
    ensures p' == p - 1 && Wrote(was, buf[..], end, p', [0x80 + k] + ToBig(len, k))
  {
    hide *;
    ghost var before := buf[..];
    p' := Push(buf, p, 0x80 + k);
    WroteThen(was, before, buf[..], end, p, p', ToBig(len, k), [0x80 + k]);
  }

  /** mbedtls_asn1_write_len */
  method WriteLen(buf: array<Byte>, p: nat, start: nat, len: nat) returns (ret: int, p': nat)
    requires p <= buf.Length
    modifies buf
    ensures len > MAX_LENGTH ==> ret == INVALID_LENGTH
    ensures len <= MAX_LENGTH ==> ret == if p - start < |LengthOctets(len)| then BUF_TOO_SMALL else |LengthOctets(len)|
    ensures ret < 0 ==> p' == p && buf[..] == old(buf[..])
    ensures ret >= 0 ==> len <= MAX_LENGTH && Wrote(old(buf[..]), buf[..], p, p', LengthOctets(len))
  {
    hide *;
    Codes();
    p' := p;
    if len < 0x80 {
      ShortForm(len);
      if p - start < 1 { return BUF_TOO_SMALL, p'; }
      p' := Push(buf, p', len);
      return 1, p';
    }
    ghost var was := buf[..];
    ThreePowers();
    OneMoreOctet(len, 0);
    WroteNone(was, p);
    if len <= 0xFF {
      LengthForm(len, 1);
      if p - start < 2 { return BUF_TOO_SMALL, p'; }
      p' := PushOctet(buf, p', len, 0, was, p);
      p' := PushCount(buf, p', len, 1, was, p);
      return 2, p';
    }
    if len <= 0xFFFF {
      LengthForm(len, 2);
      if p - start < 3 { return BUF_TOO_SMALL, p'; }
      p' := PushOctet(buf, p', len, 0, was, p);
      p' := PushOctet(buf, p', len, 1, was, p);
      p' := PushCount(buf, p', len, 2, was, p);
      return 3, p';
    }
    if len <= 0xFFFFFF {
      LengthForm(len, 3);
      if p - start < 4 { return BUF_TOO_SMALL, p'; }
      p' := PushOctet(buf, p', len, 0, was, p);
      p' := PushOctet(buf, p', len, 1, was, p);
      p' := PushOctet(buf, p', len, 2, was, p);
      p' := PushCount(buf, p', len, 3, was, p);
      return 4, p';
    }
    if len <= 0xFFFFFFFF {
      LengthForm(len, 4);
      if p - start < 5 { return BUF_TOO_SMALL, p'; }
      p' := PushOctet(buf, p', len, 0, was, p);
      p' := PushOctet(buf, p', len, 1, was, p);
      p' := PushOctet(buf, p', len, 2, was, p);
      p' := PushOctet(buf, p', len, 3, was, p);
      p' := PushCount(buf, p', len, 4, was, p);
      return 5, p';
    }
    return INVALID_LENGTH, p';
  }

  lemma Codes()
    ensures OUT_OF_DATA == -0x60 && UNEXPECTED_TAG == -0x62 && INVALID_LENGTH == -0x64 && BUF_TOO_SMALL == -0x6C
    ensures INTEGER == 2 && MAX_LENGTH == 0xFFFFFFFF
  {}

  /** mbedtls_asn1_write_tag */
  method WriteTag(buf: array<Byte>, p: nat, start: nat, tag: Byte) returns (ret: int, p': nat)
    requires p <= buf.Length
    modifies buf
    ensures ret == if p - start < 1 then BUF_TOO_SMALL else 1
    ensures ret < 0 ==> p' == p && buf[..] == old(buf[..])
    ensures ret >= 0 ==> Wrote(old(buf[..]), buf[..], p, p', [tag])
  {
    hide *;
    Codes();
    p' := p;
    if p - start < 1 { return BUF_TOO_SMALL, p'; }
    p' := Push(buf, p', tag);
    return 1, p';
  }

  /** *p & 0x80 and *p & 0x7F */
  lemma HighBit(b: Byte)
    ensures (And(b, 0x80) != 0 <==> b >= 0x80) && And(b, 0x7F) == b % 0x80
  {
    hide *;
    P2Seven();
    AndPow2(b, 7);
    AndMask(b, 7);
    ShrSeven(b);
  }

  lemma P2Seven()
    ensures P2(7) == 0x80
  {
    P2Four();
    P2Add(4, 3);
    assert P2(3) == 8;
  }

  lemma ShrSeven(b: Byte)
    requires P2(7) == 0x80
    ensures Shr(b, 7) == b / 0x80
  {
    hide P2;
  }

  lemma ContentsIs(s: Sign, v: nat)
    ensures Contents(s, v) == if s == 1 && Magnitude(v)[0] >= 0x80 then [0] + Magnitude(v) else Magnitude(v)
  {
    hide ToBig, SizeBytes;
  }

  /** What the writer returns with room bytes left in the buffer */
  ghost function WriteCode(s: Sign, v: nat, room: int): int
  {
    var n := |Contents(s, v)|;
    if room < n then BUF_TOO_SMALL
    else if n > MAX_LENGTH then INVALID_LENGTH
    else if room < |Integer(s, v)| then BUF_TOO_SMALL
    else |Integer(s, v)|
  }

  lemma WriteCodeIs(s: Sign, v: nat, room: int)
    ensures room < |Contents(s, v)| ==> WriteCode(s, v, room) == BUF_TOO_SMALL
    ensures room >= |Contents(s, v)| > MAX_LENGTH ==> WriteCode(s, v, room) == INVALID_LENGTH
    ensures |Contents(s, v)| <= MAX_LENGTH ==>
      |Integer(s, v)| == 1 + |LengthOctets(|Contents(s, v)|)| + |Contents(s, v)|
    ensures |Contents(s, v)| <= MAX_LENGTH && room >= |Contents(s, v)| ==>
      WriteCode(s, v, room) == if room < |Integer(s, v)| then BUF_TOO_SMALL else |Integer(s, v)|
  {
    hide Contents, LengthOctets;
  }

  /** The magnitude and its sign byte */
  method WriteContents(buf: array<Byte>, p: nat, start: nat, X: Mpi) returns (ret: int, p': nat)
    requires p <= buf.Length
    modifies buf
    ensures ret == if p - start < |Contents(X.s, Val(X.p))| then BUF_TOO_SMALL else |Contents(X.s, Val(X.p))|
    ensures ret >= 0 ==> Wrote(old(buf[..]), buf[..], p, p', Contents(X.s, Val(X.p)))
    ensures ret < 0 ==> p' <= p && buf[..p'] == old(buf[..p']) && buf[p..] == old(buf[p..])
  {
    hide *;
    Codes();
    p' := p;
    ghost var v, was := Val(X.p), buf[..];
    ContentsIs(X.s, v);
    MagnitudeIs(v);
    var len := Size(X);
    if len == 0 { len := 1; }
    if p' < start || p' - start < len { return BUF_TOO_SMALL, p'; }
    p' := p' - len;
    var status := WriteBinary(X, buf, p', len);
    WroteIs(was, buf[..], p, p', Magnitude(v));
    HighBit(buf[p']);
    assert buf[p'] == Magnitude(v)[0];
    if X.s == 1 && And(buf[p'], 0x80) != 0 {
      if p' - start < 1 { return BUF_TOO_SMALL, p'; }
      ghost var mid := buf[..];
      ghost var q := p';
      p' := Push(buf, p', 0x00);
      WroteThen(was, mid, buf[..], p, q, p', Magnitude(v), [0]);
      len := len + 1;
    }
    return len, p';
  }

  lemma MagnitudeIs(v: nat)
    ensures var n := if SizeBytes(v) == 0 then 1 else SizeBytes(v);
      Magnitude(v) == ToBig(v, n) && v < P2(8 * n)
  {
    SizeIsLeast(v, if SizeBytes(v) == 0 then 1 else SizeBytes(v));
    hide SizeBytes, ToBig, P2;
  }

  lemma WroteIs(b: seq<Byte>, a: seq<Byte>, p: nat, q: nat, s: seq<Byte>)
    requires |a| == |b| && q + |s| == p <= |b|
    requires a[..q] == b[..q] && a[q..p] == s && a[p..] == b[p..]
    ensures Wrote(b, a, p, q, s)
  {}

  /** mbedtls_asn1_write_mpi */
  method WriteMpi(buf: array<Byte>, p: nat, start: nat, X: Mpi) returns (ret: int, p': nat)
    requires p <= buf.Length
    modifies buf
    ensures ret == WriteCode(X.s, Val(X.p), p - start)
    ensures p' <= p && buf[..p'] == old(buf[..p']) && buf[p..] == old(buf[p..])
    ensures ret >= 0 ==> |Contents(X.s, Val(X.p))| <= MAX_LENGTH && p' + ret == p
    ensures ret >= 0 ==> buf[p'..p] == Integer(X.s, Val(X.p))
  {
    hide *;
    Codes();
    ghost var s, v, b0 := X.s, Val(X.p), buf[..];
    WriteCodeIs(s, v, p - start);
    var len;
    len, p' := WriteContents(buf, p, start, X);
    if len < 0 { return len, p'; }
    ghost var p1, b1 := p', buf[..];
    WroteFrame(b0, b1, p, p1, Contents(s, v));
    var n;
    n, p' := WriteLen(buf, p', start, len);
    if n < 0 { return n, p'; }
    ghost var p2, b2 := p', buf[..];
    WroteThen(b0, b1, b2, p, p1, p2, Contents(s, v), LengthOctets(len));
    WroteFrame(b0, b2, p, p2, LengthOctets(len) + Contents(s, v));
    len := len + n;
    n, p' := WriteTag(buf, p', start, INTEGER);
    if n < 0 { return n, p'; }
    WroteThen(b0, b2, buf[..], p, p2, p', LengthOctets(|Contents(s, v)|) + Contents(s, v), [INTEGER]);
    IntegerIs(s, v);
    WroteFrame(b0, buf[..], p, p', Integer(s, v));
    len := len + n;
    return len, p';
  }

  lemma IntegerIs(s: Sign, v: nat)
    requires |Contents(s, v)| <= MAX_LENGTH
    ensures Integer(s, v) == [INTEGER] + (LengthOctets(|Contents(s, v)|) + Contents(s, v))
  {}

  // ----- Parsing forwards -------------------------------------------------------------------

  datatype Header = Header(len: nat, used: nat) | NoHeader | BadHeader

  /** The length octets at the front of s: the short form, or the number of bytes and the bytes of the length */
  ghost function ParseLength(s: seq<Byte>): (h: Header)
    ensures h.Header? ==> h.used <= |s|
  {
    if s == [] then NoHeader
    else if s[0] < 0x80 then Header(s[0], 1)
    else if s[0] == 0x80 || s[0] > 0x84 then BadHeader
    else if |s| < s[0] - 0x80 + 1 then NoHeader
    else Header(Big(s[1..s[0] - 0x80 + 1]), s[0] - 0x80 + 1)
  }

  /** The bytes between p and end */
  ghost function Window(b: seq<Byte>, p: nat, end: nat): (w: seq<Byte>)
    requires end <= |b|
  {
    if p <= end then b[p..end] else []
  }

  lemma OrTwo(a: Byte, b: Byte)
    ensures Or(a * 0x100, b) == Big([a, b])
  {
    hide *;
    BigOfBytes(a, b, 0, 0);
    P2Four();
    DivModUnique(a * 256, 256, a, 0);
    OrDisjoint(a * 256, b, 8);
  }

  lemma OrThree(a: Byte, b: Byte, c: Byte)
    ensures Or(Or(a * 0x1_0000, b * 0x100), c) == Big([a, b, c])
  {
    hide *;
    BigOfBytes(a, b, c, 0);
    P2Four();
    ThreePowers();
    DivModUnique(a * 0x1_0000, 0x1_0000, a, 0);
    OrDisjoint(a * 0x1_0000, b * 0x100, 16);
    DivModUnique(a * 0x1_0000 + b * 0x100, 256, a * 0x100 + b, 0);
    OrDisjoint(a * 0x1_0000 + b * 0x100, c, 8);
  }

  lemma OrFour(a: Byte, b: Byte, c: Byte, d: Byte)
    ensures Or(Or(Or(a * 0x100_0000, b * 0x1_0000), c * 0x100), d) == Big([a, b, c, d])
  {
    hide *;
    BigOfBytes(a, b, c, d);
    P2Four();
    ThreePowers();
    DivModUnique(a * 0x100_0000, 0x100_0000, a, 0);
    OrDisjoint(a * 0x100_0000, b * 0x1_0000, 24);
    DivModUnique(a * 0x100_0000 + b * 0x1_0000, 0x1_0000, a * 0x100 + b, 0);
    OrDisjoint(a * 0x100_0000 + b * 0x1_0000, c * 0x100, 16);
    DivModUnique(a * 0x100_0000 + b * 0x1_0000 + c * 0x100, 256, a * 0x1_0000 + b * 0x100 + c, 0);
    OrDisjoint(a * 0x100_0000 + b * 0x1_0000 + c * 0x100, d, 8);
  }

  lemma BigOfBytes(a: Byte, b: Byte, c: Byte, d: Byte)
    ensures Big([a]) == a
    ensures Big([a, b]) == a * 0x100 + b
    ensures Big([a, b, c]) == a * 0x1_0000 + b * 0x100 + c
    ensures Big([a, b, c, d]) == a * 0x100_0000 + b * 0x1_0000 + c * 0x100 + d
  {
    hide *;
    BigNone();
    BigSnoc([], a);
    BigSnoc([a], b);
    BigSnoc([a, b], c);
    BigSnoc([a, b, c], d);
    assert [] + [a] == [a] && [a] + [b] == [a, b] && [a, b] + [c] == [a, b, c] && [a, b, c] + [d] == [a, b, c, d];
  }

  /** mbedtls_asn1_get_len. When the length exceeds what is left, p has already moved; len is 0 where C leaves it
      unset. */
  method GetLen(buf: array<Byte>, p: nat, end: nat) returns (ret: int, len: nat, p': nat)
    requires end <= buf.Length
    ensures var w, h := Window(buf[..], p, end), ParseLength(Window(buf[..], p, end));
      && (h.NoHeader? ==> ret == OUT_OF_DATA && p' == p)
      && (h.BadHeader? ==> ret == INVALID_LENGTH && p' == p)
      && (h.Header? ==> ret == (if h.len > |w| - h.used then OUT_OF_DATA else 0) && len == h.len && p' == p + h.used)
  {
    hide *;
    Codes();
    WindowIs(buf[..], p, end);
    ghost var w := Window(buf[..], p, end);
    ParseLengthIs(w);
    len, p' := 0, p;
    if end - p < 1 { return OUT_OF_DATA, len, p'; }
    HighBit(buf[p]);
    if And(buf[p], 0x80) == 0 {
      len := buf[p];
      p' := p + 1;
    } else {
      var k := And(buf[p], 0x7F);
      if k == 1 {
        if end - p < 2 { return OUT_OF_DATA, len, p'; }
        len := buf[p + 1];
        BigOfBytes(len, 0, 0, 0);
        assert w[1..2] == [len];
        p' := p + 2;
      } else if k == 2 {
        if end - p < 3 { return OUT_OF_DATA, len, p'; }
        len := Or((buf[p + 1] as int) * 0x100, buf[p + 2]);
        OrTwo(buf[p + 1], buf[p + 2]);
        assert w[1..3] == [buf[p + 1], buf[p + 2]];
        p' := p + 3;
      } else if k == 3 {
        if end - p < 4 { return OUT_OF_DATA, len, p'; }
        len := Or(Or((buf[p + 1] as int) * 0x1_0000, (buf[p + 2] as int) * 0x100), buf[p + 3]);
        OrThree(buf[p + 1], buf[p + 2], buf[p + 3]);
        assert w[1..4] == [buf[p + 1], buf[p + 2], buf[p + 3]];
        p' := p + 4;
      } else if k == 4 {
        if end - p < 5 { return OUT_OF_DATA, len, p'; }
        len := Or(Or(Or((buf[p + 1] as int) * 0x100_0000, (buf[p + 2] as int) * 0x1_0000),
                     (buf[p + 3] as int) * 0x100), buf[p + 4]);
        OrFour(buf[p + 1], buf[p + 2], buf[p + 3], buf[p + 4]);
        assert w[1..5] == [buf[p + 1], buf[p + 2], buf[p + 3], buf[p + 4]];
        p' := p + 5;
      } else {
        return INVALID_LENGTH, len, p';
      }
    }
    if len > end - p' { return OUT_OF_DATA, len, p'; }
    return 0, len, p';
  }

  lemma WindowIs(b: seq<Byte>, p: nat, end: nat)
    requires end <= |b|
    ensures |Window(b, p, end)| == if p <= end then end - p else 0
    ensures forall k :: 0 <= k < |Window(b, p, end)| ==> Window(b, p, end)[k] == b[p + k]
  {}

  lemma WindowNext(b: seq<Byte>, p: nat, end: nat, k: nat)
    requires end <= |b| && p + k <= end
    ensures Window(b, p + k, end) == Window(b, p, end)[k..]
  {}

  lemma ParseLengthIs(s: seq<Byte>)
    ensures s == [] ==> ParseLength(s) == NoHeader
    ensures s != [] && s[0] < 0x80 ==> ParseLength(s) == Header(s[0], 1)
    ensures s != [] && (s[0] == 0x80 || s[0] > 0x84) ==> ParseLength(s) == BadHeader
    ensures s != [] && 0x80 < s[0] <= 0x84 && |s| < s[0] - 0x80 + 1 ==> ParseLength(s) == NoHeader
    ensures s != [] && 0x80 < s[0] <= 0x84 && |s| >= s[0] - 0x80 + 1 ==>
      ParseLength(s) == Header(Big(s[1..s[0] - 0x80 + 1]), s[0] - 0x80 + 1)
  {
    hide Big;
  }

  /** mbedtls_asn1_get_tag */
  method GetTag(buf: array<Byte>, p: nat, end: nat, tag: int) returns (ret: int, len: nat, p': nat)
    requires end <= buf.Length
    ensures p >= end ==> ret == OUT_OF_DATA && p' == p
    ensures p < end && buf[p] != tag ==> ret == UNEXPECTED_TAG && p' == p
    ensures p < end && buf[p] == tag ==>
      var w, h := Window(buf[..], p + 1, end), ParseLength(Window(buf[..], p + 1, end));
      && (h.NoHeader? ==> ret == OUT_OF_DATA && p' == p + 1)
      && (h.BadHeader? ==> ret == INVALID_LENGTH && p' == p + 1)
      && (h.Header? ==> ret == if h.len > |w| - h.used then OUT_OF_DATA else 0)
      && (h.Header? ==> len == h.len && p' == p + 1 + h.used)
  {
    hide *;
    len, p' := 0, p;
    if end - p < 1 { return OUT_OF_DATA, len, p'; }
    if buf[p] != tag { return UNEXPECTED_TAG, len, p'; }
    ret, len, p' := GetLen(buf, p + 1, end);
  }

  datatype Parsed = Parsed(value: nat, used: nat) | Rejected(code: int)

  /** The INTEGER at the front of s; the contents are taken as an unsigned number. */
  ghost function ParseInteger(s: seq<Byte>): Parsed
  {
    if s == [] then Rejected(OUT_OF_DATA)
    else if s[0] != INTEGER then Rejected(UNEXPECTED_TAG)
    else match ParseLength(s[1..])
      case NoHeader => Rejected(OUT_OF_DATA)
      case BadHeader => Rejected(INVALID_LENGTH)
      case Header(len, used) =>
        if len > |s| - 1 - used then Rejected(OUT_OF_DATA)
        else Parsed(Big(s[1 + used..1 + used + len]), 1 + used + len)
  }

  lemma ParseIntegerIs(s: seq<Byte>, h: Header)
    requires s != [] && s[0] == INTEGER && h == ParseLength(s[1..])
    ensures h.NoHeader? ==> ParseInteger(s) == Rejected(OUT_OF_DATA)
    ensures h.BadHeader? ==> ParseInteger(s) == Rejected(INVALID_LENGTH)
    ensures h.Header? && h.len > |s| - 1 - h.used ==> ParseInteger(s) == Rejected(OUT_OF_DATA)
    ensures h.Header? ==> h.used <= |s| - 1
    ensures h.Header? && h.len <= |s| - 1 - h.used ==>
      ParseInteger(s) == Parsed(Big(s[1 + h.used..1 + h.used + h.len]), 1 + h.used + h.len)
  {
    hide Big, ParseLength;
  }

  lemma ParseRejects(s: seq<Byte>)
    ensures s == [] ==> ParseInteger(s) == Rejected(OUT_OF_DATA)
    ensures s != [] && s[0] != INTEGER ==> ParseInteger(s) == Rejected(UNEXPECTED_TAG)
  {
    hide Big, ParseLength;
  }

  /** mbedtls_asn1_get_mpi */
  method GetMpi(buf: array<Byte>, p: nat, end: nat, X: Mpi) returns (ret: int, p': nat)
    requires end <= buf.Length
    modifies X
    ensures match ParseInteger(Window(buf[..], p, end))
      case Rejected(code) => ret == code < 0 && X.s == old(X.s) && X.p == old(X.p)
      case Parsed(v, used) => ret == 0 && X.s == 1 && Val(X.p) == v && p' == p + used
  {
    hide *;
    Codes();
    ghost var w := Window(buf[..], p, end);
    WindowIs(buf[..], p, end);
    ParseRejects(w);
    if p < end {
      WindowNext(buf[..], p, end, 1);
      if buf[p] == INTEGER { ParseIntegerIs(w, ParseLength(w[1..])); }
    }
    var len;
    ret, len, p' := GetTag(buf, p, end, INTEGER);
    if ret != 0 { return ret, p'; }
    ReadBinary(X, buf, p', len);
    assert buf[p'..p' + len] == w[p' - p..p' - p + len];
    p' := p' + len;
    return 0, p';
  }

  // ----- Round trips ------------------------------------------------------------------------

  /** A written length is read back, whatever follows; */
  lemma LengthRoundTrip(len: nat, rest: seq<Byte>)
    requires len <= MAX_LENGTH
    ensures ParseLength(LengthOctets(len) + rest) == Header(len, |LengthOctets(len)|)
  {
    hide *;
    Codes();
    var s := LengthOctets(len) + rest;
    ParseLengthIs(s);
    if len < 0x80 {
      ShortForm(len);
    } else {
      LengthSize(len);
      var k := SizeBytes(len);
      LongForm(len);
      assert s[1..k + 1] == ToBig(len, k);
      WriteThenRead(len, k);
    }
  }

  /** What the octets written mean: the length itself below 128, else 128 and the number of octets that follow, which
      are the length as a number (section 8.1.3 of X.690). */
  lemma LengthMeaning(len: nat)
    requires len <= MAX_LENGTH
    ensures var s := LengthOctets(len);
      if len < 128 then s == [len] else 2 <= |s| <= 5 && s[0] == 128 + (|s| - 1) && Big(s[1..]) == len
  {
    hide *;
    if len < 128 {
      ShortForm(len);
    } else {
      LongForm(len);
      var k := SizeBytes(len);
      LengthSize(len);
      WriteThenRead(len, k);
      assert LengthOctets(len)[1..] == ToBig(len, k);
    }
  }

  /** The octets the parser accepts, shortest or not: every short form, and the long forms of up to four octets; too
      few octets and the other first octets are the two errors. */
  lemma ParseLengthForms(b: Byte, c: seq<Byte>, rest: seq<Byte>)
    ensures b < 128 ==> ParseLength([b] + rest) == Header(b, 1)
    ensures b == 128 + |c| && 1 <= |c| <= 4 ==> ParseLength([b] + c + rest) == Header(Big(c), 1 + |c|)
    ensures 128 + |c| < b <= 132 ==> ParseLength([b] + c) == NoHeader
    ensures b == 128 || b > 132 ==> ParseLength([b] + rest) == BadHeader
    ensures ParseLength([]) == NoHeader
  {
    hide *;
    ParseLengthIs([b] + rest);
    ParseLengthIs([b] + c + rest);
    ParseLengthIs([b] + c);
    ParseLengthIs([]);
    assert ([b] + c + rest)[1..1 + |c|] == c;
  }

  /** An INTEGER starts with tag number 2, universal and primitive; its length and contents follow. */
  lemma IntegerMeaning(s: Sign, v: nat)
    requires |Contents(s, v)| <= MAX_LENGTH
    ensures var e, l := Integer(s, v), LengthOctets(|Contents(s, v)|);
      e[0] == 2 && e[1..1 + |l|] == l && Big(e[1 + |l|..]) == v
  {
    hide *;
    Codes();
    IntegerIs(s, v);
    ContentsValue(s, v);
    var e, l := Integer(s, v), LengthOctets(|Contents(s, v)|);
    assert e[1 + |l|..] == Contents(s, v);
  }

  lemma LongForm(len: nat)
    requires 0x80 <= len <= MAX_LENGTH
    ensures 1 <= SizeBytes(len) <= 4 && LengthOctets(len) == [0x80 + SizeBytes(len)] + ToBig(len, SizeBytes(len))
  {
    LengthSize(len);
    hide SizeBytes, ToBig;
  }

  /** and no shorter encoding of it is accepted. */
  lemma LengthShortest(s: seq<Byte>)
    requires ParseLength(s).Header?
    ensures ParseLength(s).len <= MAX_LENGTH && |LengthOctets(ParseLength(s).len)| <= ParseLength(s).used
  {
    hide *;
    Codes();
    ParseLengthIs(s);
    if s[0] < 0x80 {
      ShortForm(s[0]);
    } else {
      var k := s[0] - 0x80;
      var len := Big(s[1..k + 1]);
      BigBound(s[1..k + 1]);
      ThreePowers();
      P2Mono(8 * k, 8 * 4);
      if len < 0x80 {
        ShortForm(len);
      } else {
        LongForm(len);
        SizeIsLeast(len, k);
      }
    }
  }

  /** What the writer produced is parsed back: the magnitude, and exactly the bytes written. */
  lemma IntegerRoundTrip(s: Sign, v: nat, rest: seq<Byte>)
    requires |Contents(s, v)| <= MAX_LENGTH
    ensures ParseInteger(Integer(s, v) + rest) == Parsed(v, |Integer(s, v)|)
  {
    hide *;
    var c, l := Contents(s, v), LengthOctets(|Contents(s, v)|);
    var e := Integer(s, v) + rest;
    IntegerIs(s, v);
    assert e[1..] == l + (c + rest);
    LengthRoundTrip(|c|, c + rest);
    ParseIntegerIs(e, ParseLength(e[1..]));
    assert e[1 + |l|..1 + |l| + |c|] == c;
    ContentsValue(s, v);
  }

  lemma ContentsValue(s: Sign, v: nat)
    ensures Big(Contents(s, v)) == v
  {
    hide *;
    ContentsIs(s, v);
    MagnitudeIs(v);
    BigOfToBig(v, |Magnitude(v)|);
    LeadingZero(Magnitude(v));
  }

  lemma LeadingZero(b: seq<Byte>)
    ensures Big([0] + b) == Big(b)
  {
    hide *;
    BigAppend([0], b);
    BigOfBytes(0, 0, 0, 0);
  }

  /** A number comes back exactly when it is not negative: the sign is not written. */
  lemma NumberComesBackIff(s: Sign, v: nat)
    requires |Contents(s, v)| <= MAX_LENGTH
    ensures ParseInteger(Integer(s, v)).Parsed?
    ensures ParseInteger(Integer(s, v)).value == Signed(s, v) <==> Signed(s, v) >= 0
  {
    hide ParseInteger, Integer, Contents;
    IntegerRoundTrip(s, v, []);
    assert Integer(s, v) + [] == Integer(s, v);
  }

  /** A number that does not: -5 comes back as 5. */
  lemma SignLost()
    ensures |Contents(-1, 5)| <= MAX_LENGTH && ParseInteger(Integer(-1, 5)) == Parsed(5, |Integer(-1, 5)|)
  {
    hide *;
    Codes();
    OneByte(5);
    ContentsIs(-1, 5);
    IntegerRoundTrip(-1, 5, []);
    assert Integer(-1, 5) + [] == Integer(-1, 5);
  }

  lemma OneByte(v: nat)
    requires 0 < v < 0x100
    ensures |Magnitude(v)| == 1
  {
    hide *;
    ThreePowers();
    SizeIsLeast(v, 0);
    SizeIsLeast(v, 1);
    MagnitudeLength(v);
  }

  lemma MagnitudeLength(v: nat)
    ensures |Magnitude(v)| == if SizeBytes(v) == 0 then 1 else SizeBytes(v)
  {
    hide SizeBytes, ToBig;
  }

  /** mbedtls_asn1_write_mpi backwards from p, then mbedtls_asn1_get_mpi forwards from where it stopped: the magnitude
      comes back and the parser stops at p, so the number does exactly when it is not negative. */
  method WriteThenParse(buf: array<Byte>, p: nat, start: nat, X: Mpi, Y: Mpi) returns (ret: int, q: nat)
    requires p <= buf.Length
    modifies buf, Y
    ensures ret == WriteCode(old(X.s), old(Val(X.p)), p - start)
    ensures ret >= 0 ==> q == p && Y.s == 1 && Val(Y.p) == old(Val(X.p))
    ensures ret >= 0 ==> (Y.Value() == old(X.Value()) <==> old(X.Value()) >= 0)
    ensures ret < 0 ==> Y.Value() == old(Y.Value())
  {
    hide *;
    Codes();
    ghost var s, v := X.s, Val(X.p);
    X.ValueIs();
    ret, q := WriteMpi(buf, p, start, X);
    if ret < 0 { return; }
    WriteCodeIs(s, v, p - start);
    IntegerRoundTrip(s, v, []);
    assert Integer(s, v) + [] == Integer(s, v);
    WindowAll(buf[..], q, p);
    assert buf[..][q..p] == buf[q..p];
    var code;
    code, q := GetMpi(buf, q, p, Y);
    Y.ValueIs();
    SignedIs(s, v);
  }

  lemma WindowAll(b: seq<Byte>, p: nat, end: nat)
    requires p <= end <= |b|
    ensures Window(b, p, end) == b[p..end]
  {}

  lemma SignedIs(s: Sign, v: nat)
    ensures Signed(1, v) == v
    ensures Signed(s, v) == v <==> Signed(s, v) >= 0
  {}

  // ----- The contents are the two's complement of the number (section 8.3 of X.690) -----------

  ghost function TwosComplement(c: seq<Byte>): int
    requires |c| >= 1
  {
    if c[0] < 0x80 then Big(c) else Big(c) - P2(8 * |c|)
  }

  /** The first nine bits are neither all ones nor all zeros. */
  ghost predicate Shortest(c: seq<Byte>)
    requires |c| >= 1
  {
    |c| > 1 ==> !(c[0] == 0 && c[1] < 0x80) && !(c[0] == 0xff && c[1] >= 0x80)
  }

  /** The first byte of the magnitude */
  lemma FirstByte(v: nat)
    ensures var b := Magnitude(v);
      && (b[0] >= 0x80 <==> 2 * v >= P2(8 * |b|))
      && v < P2(8 * |b|) && (|b| > 1 ==> b[0] != 0)
  {
    hide *;
    var b := Magnitude(v);
    var n := |b|;
    MagnitudeIs(v);
    ToBigAt(v, n, 0);
    TopSmall(v, n);
    ByteBits(n - 1);
    HalfByte(b[0], P2(8 * (n - 1)), v);
    if n > 1 { SizeIsLeast(v, n - 1); }
  }

  lemma HalfByte(b: Byte, d: nat, v: nat)
    requires d > 0 && b * d <= v < b * d + d
    ensures b >= 0x80 <==> 2 * v >= 256 * d
    ensures b == 0 ==> v < d
  {
    if b >= 0x80 { MulLe(d, 0x80, b); } else { MulLe(d, b + 1, 0x80); }
  }

  /** For a number written with sign 1 they are, and in the fewest bytes; */
  lemma ContentsAreDer(v: nat)
    ensures TwosComplement(Contents(1, v)) == v && Shortest(Contents(1, v))
  {
    hide Big, P2, Magnitude, Contents;
    ContentsIs(1, v);
    ContentsValue(1, v);
    FirstByte(v);
  }

  /** Which is to say that no shorter string has the same value. */
  lemma ShortestIff(c: seq<Byte>)
    requires |c| >= 1
    ensures Shortest(c) <==> forall d: seq<Byte> :: |d| >= 1 && TwosComplement(d) == TwosComplement(c) ==> |d| >= |c|
  {
    hide *;
    if Shortest(c) {
      forall d: seq<Byte> | |d| >= 1 && TwosComplement(d) == TwosComplement(c) ensures |d| >= |c| {
        if |d| < |c| {
          ComplementRange(d);
          OutOfRange(c);
          P2Mono(8 * |d| - 1, 8 * (|c| - 1) - 1);
        }
      }
    } else {
      NotShortest(c);
      SameComplement(c);
      assert |c[1..]| >= 1 && TwosComplement(c[1..]) == TwosComplement(c) && !(|c[1..]| >= |c|);
    }
  }

  lemma ComplementIs(c: seq<Byte>)
    requires |c| >= 1
    ensures TwosComplement(c) == if c[0] < 0x80 then Big(c) else Big(c) - P2(8 * |c|)
  {}

  lemma NotShortest(c: seq<Byte>)
    requires |c| >= 1
    ensures Shortest(c) <==> (|c| > 1 ==> !(c[0] == 0 && c[1] < 0x80) && !(c[0] == 0xff && c[1] >= 0x80))
  {}

  /** The first byte and the others, d being the weight of the first */
  lemma FirstApart(c: seq<Byte>, d: nat)
    requires |c| >= 1 && d == P2(8 * (|c| - 1))
    ensures Big(c) == c[0] * d + Big(c[1..]) && Big(c[1..]) < d && P2(8 * |c|) == 256 * d
  {
    hide *;
    assert c == [c[0]] + c[1..];
    BigAppend([c[0]], c[1..]);
    BigOfBytes(c[0], 0, 0, 0);
    BigBound(c[1..]);
    ByteBits(|c| - 1);
  }

  lemma ComplementRange(c: seq<Byte>)
    requires |c| >= 1
    ensures 0 - P2(8 * |c| - 1) <= TwosComplement(c) < P2(8 * |c| - 1)
  {
    hide *;
    var d := P2(8 * (|c| - 1));
    ComplementIs(c);
    FirstApart(c, d);
    HalfByte(c[0], d, Big(c));
    P2Succ(8 * |c| - 1);
    BigBound(c);
  }

  lemma OutOfRange(c: seq<Byte>)
    requires |c| > 1 && Shortest(c)
    ensures var h := P2(8 * (|c| - 1) - 1); !(0 - h <= TwosComplement(c) < h)
  {
    hide *;
    var d := P2(8 * (|c| - 1));
    var d' := P2(8 * (|c| - 2));
    NotShortest(c);
    ComplementIs(c);
    FirstApart(c, d);
    FirstApart(c[1..], d');
    HalfByte(c[1], d', Big(c[1..]));
    P2Succ(8 * (|c| - 1) - 1);
    if 0 < c[0] < 0x80 { MulLe(d, 1, c[0]); }
    if 0x80 <= c[0] < 0xff { MulLe(d, c[0], 0xfe); }
  }

  lemma SameComplement(c: seq<Byte>)
    requires |c| > 1 && ((c[0] == 0 && c[1] < 0x80) || (c[0] == 0xff && c[1] >= 0x80))
    ensures TwosComplement(c[1..]) == TwosComplement(c)
  {
    hide *;
    ComplementIs(c);
    ComplementIs(c[1..]);
    FirstApart(c, P2(8 * (|c| - 1)));
  }

  /** v is 2^(8k - 1): a single bit at the top of k bytes. */
  ghost predicate FillsBytes(v: nat, k: nat)
  {
    k >= 1 && v == P2(8 * k - 1)
  }

  /** with sign -1 the magnitude is written as it is, which is the right encoding only of 0 and of these numbers. */
  lemma NegativeContentsIff(v: nat)
    ensures TwosComplement(Contents(-1, v)) == -(v as int) <==> v == 0 || exists k: nat :: FillsBytes(v, k)
  {
    hide *;
    var n := |Magnitude(v)|;
    ContentsIs(-1, v);
    NegativeValue(v);
    if 2 * v == P2(8 * n) {
      P2Succ(8 * n - 1);
      FillsIs(v, n);
    }
    if exists k: nat :: FillsBytes(v, k) {
      var k: nat :| FillsBytes(v, k);
      FillsIs(v, k);
      FilledSize(v, k);
      MagnitudeLength(v);
    }
  }

  lemma NegativeValue(v: nat)
    ensures TwosComplement(Contents(-1, v)) == -(v as int) <==> v == 0 || 2 * v == P2(8 * |Magnitude(v)|)
  {
    hide Big, P2, Magnitude, Contents;
    ContentsIs(-1, v);
    ContentsValue(-1, v);
    FirstByte(v);
  }

  lemma FillsIs(v: nat, k: nat)
    ensures FillsBytes(v, k) <==> k >= 1 && v == P2(8 * k - 1)
  {}

  lemma FilledSize(v: nat, k: nat)
    requires k >= 1 && v == P2(8 * k - 1)
    ensures SizeBytes(v) == k && 2 * v == P2(8 * k)
  {
    hide *;
    P2Succ(8 * k - 1);
    P2Mono(8 * (k - 1), 8 * k - 1);
    SizeIsLeast(v, k);
    SizeIsLeast(v, k - 1);
  }

  /** A number for which it is wrong: -1 is written as 1. */
  lemma NegativeContentsFail()
    ensures TwosComplement(Contents(-1, 1)) == 1
  {
    hide *;
    OneByte(1);
    ContentsIs(-1, 1);
    ContentsValue(-1, 1);
    FirstByte(1);
    ThreePowers();
    PositiveContents(Contents(-1, 1));
  }

  lemma PositiveContents(c: seq<Byte>)
    requires |c| >= 1 && c[0] < 0x80
    ensures TwosComplement(c) == Big(c)
  {}
}
