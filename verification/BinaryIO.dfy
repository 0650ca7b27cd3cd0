/** Numbers as big-endian byte strings: mbedtls_mpi_size, mbedtls_mpi_write_binary and mbedtls_mpi_read_binary. */
module BinaryIO {
  import opened Arith
  import opened Limbs
  import opened Mpis
  import opened RadixIO

  // ----- Byte strings as numbers ----------------------------------------------------------

  /** The number a byte string stands for, most significant byte first */
  function Big(s: seq<Byte>): nat
  {
    if s == [] then 0 else Big(s[..|s| - 1]) * 256 + s[|s| - 1]
  }

  /** The low len bytes of v, most significant first */
  function ToBig(v: nat, len: nat): (s: seq<Byte>)
    ensures |s| == len
  {
    if len == 0 then [] else ToBig(v / 256, len - 1) + [v % 256]
  }

  /** Byte i of v, counted from the least significant */
  ghost function ByteAt(v: nat, i: nat): Byte
  {
    Top(v, i) % 256
  }

  lemma BigSnoc(s: seq<Byte>, b: Byte)
    ensures Big(s + [b]) == Big(s) * 256 + b
  {
    assert (s + [b])[..|s|] == s;
  }

  lemma ByteBits(n: nat)
    ensures P2(8 * (n + 1)) == 256 * P2(8 * n) && P2(8) == 256
  {
    hide *;
    P2Four();
    P2Add(8, 8 * n);
  }

  lemma {:induction false} BigBound(s: seq<Byte>)
    ensures Big(s) < P2(8 * |s|)
  {
    if s != [] {
      BigBound(s[..|s| - 1]);
      ByteBits(|s| - 1);
      hide P2;
    }
  }

  lemma {:induction false} BigOfToBig(v: nat, len: nat)
    requires v < P2(8 * len)
    ensures Big(ToBig(v, len)) == v
    decreases len
  {
    if len > 0 {
      ByteBits(len - 1);
      hide P2;
      BigOfToBig(v / 256, len - 1);
      BigSnoc(ToBig(v / 256, len - 1), v % 256);
    } else {
      P2Zero();
    }
  }

  /** A byte string is determined by its number and its length. */
  lemma {:induction false} ToBigOfBig(s: seq<Byte>)
    ensures ToBig(Big(s), |s|) == s
  {
    if s != [] {
      ToBigOfBig(s[..|s| - 1]);
      DivModUnique(Big(s), 256, Big(s[..|s| - 1]), s[|s| - 1]);
    }
  }

  lemma BigAlgebra(a: int, p: int, b: int, c: int)
    ensures (a * p + b) * 256 + c == a * (256 * p) + (b * 256 + c)
  {}

  lemma {:induction false} BigAppend(a: seq<Byte>, b: seq<Byte>)
    ensures Big(a + b) == Big(a) * P2(8 * |b|) + Big(b)
    decreases |b|
  {
    if b == [] {
      assert a + b == a;
      P2Zero();
    } else {
      var u, c := b[..|b| - 1], b[|b| - 1];
      BigAppend(a, u);
      ByteBits(|u|);
      BigSnoc(a + u, c);
      assert a + b == (a + u) + [c];
      hide *;
      BigAlgebra(Big(a), P2(8 * |u|), Big(u), c);
      BigSnoc(u, c);
      assert b == u + [c];
    }
  }

  lemma TopNext(v: nat, i: nat)
    ensures Top(v / 256, i) == Top(v, i + 1)
  {
    hide *;
    ByteBits(i);
    DivNonNeg(v, 256);
    DivDiv(v, 256, P2(8 * i));
    TopIs(v / 256, i);
    TopIs(v, i + 1);
  }

  lemma TopZero(v: nat)
    ensures Top(v, 0) == v
  {
    hide *;
    TopBounds(v, 0);
  }

  lemma {:induction false} ToBigAt(v: nat, len: nat, j: nat)
    requires j < len
    ensures ToBig(v, len)[j] == ByteAt(v, len - 1 - j)
    decreases len
  {
    hide Top;
    if j == len - 1 {
      TopZero(v);
    } else {
      ToBigAt(v / 256, len - 1, j);
      TopNext(v, len - 2 - j);
    }
  }

  lemma BytesAre(s: seq<Byte>, v: nat)
    requires forall j :: 0 <= j < |s| ==> s[j] == ByteAt(v, |s| - 1 - j)
    ensures s == ToBig(v, |s|)
  {
    hide *;
    forall j | 0 <= j < |s| ensures s[j] == ToBig(v, |s|)[j] { ToBigAt(v, |s|, j); }
  }

  lemma ByteBeyond(v: nat, len: nat, i: nat)
    requires v < P2(8 * len) && len <= i
    ensures ByteAt(v, i) == 0
  {
    hide P2, Top;
    P2Mono(8 * len, 8 * i);
    TopBounds(v, i);
  }

  /** v fits in `from` bytes exactly when the bytes above are zero. */
  lemma {:induction false} FitsIff(v: nat, from: nat, len: nat)
    requires v < P2(8 * len) && from <= len
    ensures v < P2(8 * from) <==> forall i :: from <= i < len ==> ByteAt(v, i) == 0
    decreases len
  {
    if from < len {
      if ByteAt(v, len - 1) == 0 {
        TopSmall(v, len);
        FitsIff(v, from, len - 1);
      } else if v < P2(8 * from) {
        ByteBeyond(v, from, len - 1);
        assert false;
      }
    }
  }

  /** The top byte of v < 256^len */
  lemma TopSmall(v: nat, len: nat)
    requires v < P2(8 * len) && len > 0
    ensures ByteAt(v, len - 1) == Top(v, len - 1)
    ensures ByteAt(v, len - 1) * P2(8 * (len - 1)) <= v < ByteAt(v, len - 1) * P2(8 * (len - 1)) + P2(8 * (len - 1))
  {
    hide *;
    var d := P2(8 * (len - 1));
    ByteBits(len - 1);
    TopIs(v, len - 1);
    DivBounds(v, d);
    MulCancelLt(d, Top(v, len - 1), 256);
    DivModSmall(Top(v, len - 1), 256);
    ByteAtIs(v, len - 1);
  }

  lemma ByteAtIs(v: nat, i: nat)
    ensures ByteAt(v, i) == Top(v, i) % 256
  {}

  // ----- mbedtls_mpi_size -----------------------------------------------------------------

  ghost function SizeBytes(v: nat): nat
  {
    (BitLen(v) + 7) / 8
  }

  /** The least number of bytes v fits in */
  lemma SizeIsLeast(v: nat, n: nat)
    ensures v < P2(8 * n) <==> SizeBytes(v) <= n
  {
    hide P2;
    if v == 0 {
      BitLenProperty(0);
    } else {
      BitLenBounds(v);
      var k := BitLen(v);
      if k <= 8 * n { P2Mono(k, 8 * n); } else { P2Mono(8 * n, k - 1); }
    }
  }

  method Size(X: Mpi) returns (n: nat)
    ensures n == SizeBytes(Val(X.p))
    ensures forall k: nat :: Val(X.p) < P2(8 * k) <==> n <= k
  {
    hide P2, Val, SizeBytes;
    var bits := X.Bitlen();
    n := (bits + 7) / 8;
    SizeIs(bits, Val(X.p));
    ghost var v := Val(X.p);
    forall k: nat ensures v < P2(8 * k) <==> n <= k { SizeIsLeast(v, k); }
  }

  lemma SizeIs(bits: nat, v: nat)
    requires bits == BitLen(v)
    ensures SizeBytes(v) == (bits + 7) / 8
  {}

  // ----- mbedtls_mpi_write_binary ---------------------------------------------------------

  /** GET_BYTE */
  method GetByte(X: Mpi, i: nat) returns (b: Byte)
    requires i < |X.p| * ciL
    ensures b == ByteAt(Val(X.p), i)
  {
    hide *;
    LimbBytes();
    DivBounds(i, ciL);
    DivNonNeg(i, ciL);
    QuotientBelow(i, ciL, |X.p|);
    ByteOf(X.p, i / ciL, i % ciL, i);
    ByteAtIs(Val(X.p), i);
    b := And(Shr(X.p[i / ciL], (i % ciL) * 8), 0xff);
  }

  lemma QuotientBelow(i: nat, d: nat, n: nat)
    requires d > 0 && i < n * d
    ensures i / d < n && i == d * (i / d) + i % d && 0 <= i % d < d
  {
    DivBounds(i, d);
    MulCancelLt(d, i / d, n);
  }

  lemma StoredBound(p: seq<Limb>)
    ensures Val(p) < P2(8 * (|p| * ciL))
  {
    hide *;
    LimbBytes();
    ValBound(p);
    WeightIsP2(|p|);
    MulAssoc(8, ciL, |p|);
  }

  /** The scan of the bytes above those the buffer can take */
  method HighBytesClear(X: Mpi, from: nat) returns (clear: bool)
    requires from <= |X.p| * ciL
    ensures clear == (Val(X.p) < P2(8 * from))
  {
    hide *;
    ghost var v := Val(X.p);
    StoredBound(X.p);
    FitsIff(v, from, |X.p| * ciL);
    var i := from;
    while i < |X.p| * ciL
      invariant from <= i <= |X.p| * ciL
      invariant forall k :: from <= k < i ==> ByteAt(v, k) == 0
    {
      var b := GetByte(X, i);
      if b != 0 { return false; }
      i := i + 1;
    }
    return true;
  }

  /** The low `count` bytes of X, backwards into the buffer */
  method CopyBytes(X: Mpi, buf: array<Byte>, at: nat, count: nat)
    requires count <= |X.p| * ciL && at + count <= buf.Length
    modifies buf
    ensures forall j :: at <= j < at + count ==> buf[j] == ByteAt(Val(X.p), at + count - 1 - j)
    ensures forall j :: 0 <= j < at || at + count <= j < buf.Length ==> buf[j] == old(buf[j])
  {
    hide *;
    var i := 0;
    while i < count
      invariant 0 <= i <= count
      invariant forall j :: at + count - i <= j < at + count ==> buf[j] == ByteAt(Val(X.p), at + count - 1 - j)
      invariant forall j :: 0 <= j < at + count - i || at + count <= j < buf.Length ==> buf[j] == old(buf[j])
    {
      var b := GetByte(X, i);
      buf[at + count - i - 1] := b;
      i := i + 1;
    }
  }

  /** mbedtls_mpi_write_binary */
  method WriteBinary(X: Mpi, buf: array<Byte>, off: nat, buflen: nat) returns (ret: Status)
    requires off + buflen <= buf.Length
    modifies buf
    ensures ret == if Val(X.p) < P2(8 * buflen) then Ok else BufferTooSmall
    ensures ret == Ok ==> buf[off..off + buflen] == ToBig(Val(X.p), buflen)
    ensures ret != Ok ==> buf[..] == old(buf[..])
    ensures buf[..off] == old(buf[..off]) && buf[off + buflen..] == old(buf[off + buflen..])
  {
    hide *;
    ghost var v := Val(X.p);
    var stored := |X.p| * ciL;
    StoredBound(X.p);
    var bytesToCopy, p := buflen, off;
    if stored < buflen {
      bytesToCopy := stored;
      p := off + buflen - stored;
      ClearBytes(buf, off, buflen - stored);
      P2Mono(8 * stored, 8 * buflen);
      forall i | stored <= i < buflen ensures ByteAt(v, i) == 0 { ByteBeyond(v, stored, i); }
    } else {
      var clear := HighBytesClear(X, bytesToCopy);
      if !clear { return BufferTooSmall; }
    }
    CopyBytes(X, buf, p, bytesToCopy);
    BytesAre(buf[off..off + buflen], v);
    return Ok;
  }

  method ClearBytes(buf: array<Byte>, off: nat, n: nat)
    requires off + n <= buf.Length
    modifies buf
    ensures forall j :: off <= j < off + n ==> buf[j] == 0
    ensures forall j :: 0 <= j < off || off + n <= j < buf.Length ==> buf[j] == old(buf[j])
  {
    forall j | off <= j < off + n { buf[j] := 0; }
  }

  // ----- mbedtls_mpi_read_binary ----------------------------------------------------------

  /** Whether the host stores words with the most significant byte first */
  const bigEndianHost: bool

  function Reversed(s: seq<Byte>): (r: seq<Byte>)
    ensures |r| == |s|
    ensures forall i :: 0 <= i < |s| ==> r[i] == s[|s| - 1 - i]
  {
    if s == [] then [] else [s[|s| - 1]] + Reversed(s[..|s| - 1])
  }

  lemma ReversedTwice(s: seq<Byte>)
    ensures Reversed(Reversed(s)) == s
  {
    hide Reversed;
  }

  /** The bytes of a limb as they lie in memory */
  ghost function Memory(x: Limb): (s: seq<Byte>)
    ensures |s| == ciL
  {
    if bigEndianHost then ToBig(x, ciL) else Reversed(ToBig(x, ciL))
  }

  /** The limb that lies in memory as the bytes s */
  function HostLimb(s: seq<Byte>): Limb
    requires |s| == ciL
  {
    LimbFits(s);
    LimbFits(Reversed(s));
    if bigEndianHost then Big(s) else Big(Reversed(s))
  }

  lemma LimbFits(s: seq<Byte>)
    requires |s| <= ciL
    ensures Big(s) < BASE
    ensures |s| < ciL ==> Big(s) * 256 + 255 < BASE
  {
    hide *;
    LimbBytes();
    BigBound(s);
    BaseIsP2();
    P2Mono(8 * |s|, biL);
    if |s| < ciL {
      ByteBits(|s|);
      P2Mono(8 * (|s| + 1), biL);
    }
  }

  /** The limb whose number is the big-endian reading of its memory */
  ghost function Swapped(x: Limb): Limb
  {
    LimbFits(Memory(x));
    Big(Memory(x))
  }

  lemma SwappedHost(s: seq<Byte>)
    requires |s| == ciL
    ensures Swapped(HostLimb(s)) == Big(s)
  {
    hide Big, ToBig, Reversed;
    ToBigOfBig(s);
    ToBigOfBig(Reversed(s));
    ReversedTwice(s);
  }

  lemma SwappedBig(x: Limb)
    requires bigEndianHost
    ensures Swapped(x) == x
  {
    hide Big, ToBig;
    LimbBytes();
    BaseIsP2();
    hide P2;
    BigOfToBig(x, ciL);
  }

  lemma NextByteOfLimb(s: seq<Byte>, b: Byte)
    requires |s| < ciL
    ensures Big(s) < BASE
    ensures Or(Shl(Big(s), 8), b) == Big(s + [b]) < BASE
  {
    hide *;
    LimbFits(s);
    BigSnoc(s, b);
    ShlByte(Big(s));
    P2Four();
    DivModUnique(Big(s) * 256, 256, Big(s), 0);
    OrDisjoint(Big(s) * 256, b, 8);
  }

  lemma ShlByte(x: nat)
    requires x * 256 < BASE
    ensures Shl(x, 8) == x * 256
  {
    P2Four();
    DivModSmall(x * 256, BASE);
    hide P2, BASE;
  }

  /** mpi_uint_bigendian_to_host with the loop of its C fallback; mem is the memory of the limb */
  method UintBigendianToHost(x: Limb, ghost mem: seq<Byte>) returns (tmp: Limb)
    requires mem == Memory(x)
    ensures tmp == Swapped(x)
  {
    hide *;
    SwappedIs(x);
    if bigEndianHost {
      SwappedBig(x);
      return x;
    }
    LimbBytes();
    tmp := 0;
    BigNone();
    assert mem[..0] == [];
    var i := 0;
    while i < ciL
      invariant 0 <= i <= ciL && tmp == Big(mem[..i])
    {
      var b := MemoryByte(x, i);
      NextByteOfLimb(mem[..i], mem[i]);
      assert mem[..i + 1] == mem[..i] + [mem[i]];
      tmp := Or(Shl(tmp, 8), b);
      i := i + 1;
    }
    assert mem[..ciL] == mem;
  }

  lemma BigNone()
    ensures Big([]) == 0
  {}

  lemma SwappedIs(x: Limb)
    ensures Swapped(x) == Big(Memory(x))
  {
    hide Big, Memory;
  }

  /** Byte i of a word in memory, on a host with the least significant byte first */
  method MemoryByte(x: Limb, i: nat) returns (b: Byte)
    requires !bigEndianHost && i < ciL
    ensures b == Memory(x)[i]
  {
    hide *;
    P2Four();
    AndMask(Shr(x, 8 * i), 8);
    MemoryAt(x, i);
    ShrTop(x, i);
    ByteAtIs(x, i);
    b := And(Shr(x, 8 * i), 255);
  }

  lemma MemoryAt(x: Limb, i: nat)
    requires !bigEndianHost && i < ciL
    ensures Memory(x)[i] == ByteAt(x, i)
  {
    hide ToBig, Reversed, ByteAt, BASE;
    ToBigAt(x, ciL, ciL - 1 - i);
  }

  lemma ShrTop(x: nat, i: nat)
    ensures Shr(x, 8 * i) == Top(x, i)
  {
    hide P2;
  }

  /** q holds the converted limbs of p in reverse order. */
  ghost predicate Flipped(q: seq<Limb>, p: seq<Limb>)
  {
    |q| == |p| && forall i :: 0 <= i < |p| ==> q[i] == Swapped(p[|p| - 1 - i])
  }

  lemma FlippedIs(q: seq<Limb>, p: seq<Limb>)
    requires |q| == |p| && forall i :: 0 <= i < |p| ==> q[i] == Swapped(p[|p| - 1 - i])
    ensures Flipped(q, p)
  {
    hide Swapped;
  }

  /** mpi_bigendian_to_host: convert each limb and reverse their order, in place */
  method BigendianToHost(X: Mpi)
    modifies X`p
    ensures Flipped(X.p, old(X.p))
  {
    hide *;
    ghost var p0 := X.p;
    var left, right := 0, |X.p| - 1;
    while left <= right
      invariant 0 <= left <= right + 2 && left + right == |p0| - 1 && |X.p| == |p0|
      invariant forall k :: left <= k <= right ==> X.p[k] == p0[k]
      invariant forall k :: 0 <= k < left || right < k < |p0| ==> X.p[k] == Swapped(p0[|p0| - 1 - k])
    {
      var tmp := UintBigendianToHost(X.p[left], Memory(X.p[left]));
      var r := UintBigendianToHost(X.p[right], Memory(X.p[right]));
      X.p := X.p[left := r];
      X.p := X.p[right := tmp];
      left, right := left + 1, right - 1;
    }
    FlippedIs(X.p, p0);
  }

  /** n limbs from their memory */
  function HostLimbs(s: seq<Byte>, n: nat): (p: seq<Limb>)
    requires |s| == n * ciL
    ensures |p| == n
  {
    if n == 0 then []
    else
      LimbBytes();
      MoreLimbs(n, ciL);
      [HostLimb(s[..ciL])] + HostLimbs(s[ciL..], n - 1)
  }

  lemma MoreLimbs(n: nat, c: nat)
    requires n > 0
    ensures n * c == (n - 1) * c + c && (n - 1) * c >= 0
  {}

  lemma HostLimbsCons(s: seq<Byte>, n: nat)
    requires n > 0 && |s| == n * ciL
    ensures |s| >= ciL && |s[ciL..]| == (n - 1) * ciL
    ensures HostLimbs(s, n) == [HostLimb(s[..ciL])] + HostLimbs(s[ciL..], n - 1)
  {
    MoreLimbs(n, ciL);
    hide HostLimb;
  }

  /** Reading the memory as one big-endian number is what the conversion achieves. */
  lemma {:induction false} FlippedMemory(q: seq<Limb>, s: seq<Byte>, n: nat)
    requires |s| == n * ciL && Flipped(q, HostLimbs(s, n))
    ensures Val(q) == Big(s)
    decreases n
  {
    hide *;
    if n == 0 {
      FlippedLength(q, HostLimbs(s, n));
      assert s == [] && q == [];
      BigNone();
      ValEmpty();
    } else {
      HostLimbsCons(s, n);
      var hd, tl := s[..ciL], s[ciL..];
      FlippedCons(q, HostLimb(hd), HostLimbs(tl, n - 1));
      FlippedMemory(q[..n - 1], tl, n - 1);
      assert s == hd + tl;
      BigAppend(hd, tl);
      ValSnoc(q, n - 1);
      assert q[..n] == q;
      SwappedHost(hd);
      LimbBytes();
      WeightIsP2(n - 1);
      MulAssoc(8, ciL, n - 1);
    }
  }

  lemma FlippedLength(q: seq<Limb>, p: seq<Limb>)
    requires Flipped(q, p)
    ensures |q| == |p|
  {}

  lemma FlippedCons(q: seq<Limb>, x: Limb, p: seq<Limb>)
    requires Flipped(q, [x] + p)
    ensures |q| == |p| + 1 && Flipped(q[..|p|], p) && q[|p|] == Swapped(x)
  {
    hide *;
    var a := [x] + p;
    FlippedLength(q, a);
    forall i | 0 <= i <= |p| ensures q[i] == Swapped(a[|p| - i]) { FlippedAt(q, a, i); }
    forall i | 0 <= i < |p| ensures q[i] == Swapped(p[|p| - 1 - i]) { assert q[i] == Swapped(a[|p| - i]); }
    assert q[|p|] == Swapped(a[0]);
    FlippedIs(q[..|p|], p);
  }

  lemma FlippedAt(q: seq<Limb>, p: seq<Limb>, i: nat)
    requires Flipped(q, p) && i < |p|
    ensures |q| == |p| && q[i] == Swapped(p[|p| - 1 - i])
  {
    hide Swapped;
  }

  /** CHARS_TO_LIMBS */
  function CharsToLimbs(i: nat): (n: nat)
    ensures i <= n * ciL < i + ciL
  {
    LimbBytes();
    assert i == ciL * (i / ciL) + i % ciL;
    DivNonNeg(i, ciL);
    i / ciL + if i % ciL != 0 then 1 else 0
  }

  lemma {:induction false} BigNulls(n: nat)
    ensures Big(Nulls(n)) == 0
  {
    if n > 0 { BigNulls(n - 1); BigSnoc(Nulls(n - 1), 0); }
  }

  lemma LeadingNulls(n: nat, s: seq<Byte>)
    ensures Big(Nulls(n) + s) == Big(s)
  {
    hide *;
    BigNulls(n);
    BigAppend(Nulls(n), s);
  }

  /** mbedtls_mpi_resize_clear */
  method ResizeClear(X: Mpi, limbs: nat)
    modifies X
    ensures X.s == 1 && X.p == Zeros(limbs)
  {
    if limbs == 0 {
      X.Free();
    } else if |X.p| == limbs {
      X.p := Zeros(limbs);
      X.s := 1;
    } else {
      X.Free();
      X.Grow(limbs);
    }
  }

  /** memcpy to the end of the memory of X, whose limbs are zero */
  method CopyIn(X: Mpi, at: nat, s: seq<Byte>)
    requires X.p == Zeros(|X.p|) && at + |s| == |X.p| * ciL
    modifies X`p
    ensures X.p == HostLimbs(Nulls(at) + s, |old(X.p)|)
  {
    X.p := HostLimbs(Nulls(at) + s, |X.p|);
  }

  /** The common part: X is resized and cleared, its memory ends with the bytes, the limbs are converted. */
  method Load(X: Mpi, s: seq<Byte>)
    modifies X
    ensures X.s == 1 && |X.p| == CharsToLimbs(|s|)
    ensures Val(X.p) == Big(s)
  {
    hide *;
    LimbBytes();
    var limbs := CharsToLimbs(|s|);
    var overhead := limbs * ciL - |s|;
    ResizeClear(X, limbs);
    if |s| != 0 {
      CopyIn(X, overhead, s);
      BigendianToHost(X);
      FlippedMemory(X.p, Nulls(overhead) + s, limbs);
      FlippedLength(X.p, HostLimbs(Nulls(overhead) + s, limbs));
      LeadingNulls(overhead, s);
    } else {
      assert s == [];
      BigNone();
      ValZero(X.p);
    }
  }

  /** mbedtls_mpi_read_binary */
  method ReadBinary(X: Mpi, buf: array<Byte>, off: nat, buflen: nat)
    requires off + buflen <= buf.Length
    modifies X
    ensures X.s == 1 && |X.p| == CharsToLimbs(buflen)
    ensures Val(X.p) == Big(buf[off..off + buflen])
  {
    Load(X, buf[off..off + buflen]);
  }

  /** mbedtls_mpi_fill_random, with the bytes the generator delivers as a parameter */
  method FillRandom(X: Mpi, drawn: seq<Byte>)
    modifies X
    ensures X.s == 1 && |X.p| == CharsToLimbs(|drawn|)
    ensures Val(X.p) == Big(drawn)
  {
    Load(X, drawn);
  }

  // ----- Round trips ----------------------------------------------------------------------

  /** Written in any field that is wide enough and read again, a number comes back; */
  lemma WriteThenRead(v: nat, len: nat)
    requires SizeBytes(v) <= len
    ensures Big(ToBig(v, len)) == v
  {
    SizeIsLeast(v, len);
    BigOfToBig(v, len);
  }

  /** read and written to a field of the same width, a byte string does. */
  lemma ReadThenWrite(s: seq<Byte>)
    ensures SizeBytes(Big(s)) <= |s| && ToBig(Big(s), |s|) == s
  {
    BigBound(s);
    SizeIsLeast(Big(s), |s|);
    ToBigOfBig(s);
  }
}
