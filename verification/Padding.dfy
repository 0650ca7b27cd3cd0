/** The padding pairs of cipher.c: writing a padding and finding it again without branches. */
module Paddings {
  import opened Blocks

  datatype Padding = Pkcs7 | OneAndZeros | ZerosAndLen | Zeros | NoPadding

  /** MBEDTLS_ERR_CIPHER_INVALID_PADDING */
  const INVALID_PADDING: int := -0x6200

  /** (unsigned char) k for the small k that occur, and back */
  function ToByte(k: nat): bv8
    requires k < 256
  {
    k as bv8
  }

  function FromByte(v: bv8): nat
  {
    v as int
  }

  lemma ByteBack(v: bv8)
    ensures FromByte(v) < 256 && ToByte(FromByte(v)) == v
  {}

  lemma ByteValue(k: nat)
    requires k < 256
    ensures FromByte(ToByte(k)) == k
  {
    hide *;
    var v := ByteOf(k);
    ByteBack(v);
  }

  lemma NextByte(v: bv8)
    requires v != 255
    ensures FromByte(v + 1) == FromByte(v) + 1
  {}

  lemma {:induction false} ByteOf(k: nat) returns (v: bv8)
    requires k < 256
    ensures FromByte(v) == k
  {
    if k == 0 {
      v := 0;
    } else {
      v := ByteOf(k - 1);
      LastByte(v);
      NextByte(v);
      hide FromByte;
      v := v + 1;
    }
  }

  lemma LastByte(v: bv8)
    ensures FromByte(v) == 255 <==> v == 255
  {}

  /** Bits of a size_t */
  type SizeBits = x: nat | x == 32 || x == 64 witness 64

  const sizeBits: SizeBits
  const SIZE_RANGE: nat := if sizeBits == 32 then 0x1_0000_0000 else 0x1_0000_0000_0000_0000

  /** x - y in size_t, which wraps */
  function SizeSub(x: nat, y: nat): (r: nat)
    requires x < 256 && y < 256
    ensures y <= x ==> r == x - y
    ensures y > x ==> r == SIZE_RANGE - (y - x) && r > 256
  {
    if y <= x then x - y else SIZE_RANGE - (y - x)
  }

  function Repeated(v: bv8, n: nat): (z: Bytes)
    ensures |z| == n && forall k :: 0 <= k < n ==> z[k] == v
  {
    seq(n, _ => v)
  }

  /** The bytes that fill a block of n bytes after r bytes of data */
  function PadBytes(m: Padding, n: nat, r: nat): (p: Bytes)
    requires r < n < 256 && m != NoPadding
    ensures |p| == n - r
  {
    match m
    case Pkcs7 => Repeated(ToByte(n - r), n - r)
    case OneAndZeros => [0x80] + Nulls(n - r - 1)
    case ZerosAndLen => Nulls(n - r - 1) + [ToByte(n - r)]
    case Zeros => Nulls(n - r)
  }

  /** The paddings byte by byte: every byte is the count; a single bit at the top and zeros; zeros and the count. */
  lemma PadMeaning(m: Padding, n: nat, r: nat, k: nat)
    requires r < n < 256 && k < n - r && m != NoPadding
    ensures var b := PadBytes(m, n, r)[k];
      match m
      case Pkcs7 => b as int == n - r
      case OneAndZeros => forall i :: 0 <= i < 8 ==> (Bit(b, i) <==> k == 0 && i == 7)
      case ZerosAndLen => b as int == if k == n - r - 1 then n - r else 0
      case Zeros => b as int == 0
      case NoPadding => true
  {
    ByteValue(n - r);
    MarkerBits();
    assert FromByte(ToByte(n - r)) == n - r;
    hide ToByte, Bit;
  }

  lemma MarkerBits()
    ensures forall i :: 0 <= i < 8 ==> (Bit(0x80, i) <==> i == 7)
    ensures forall i :: 0 <= i < 8 ==> !Bit(0, i)
  {
    forall i | 0 <= i < 8 ensures (Bit(0x80, i) <==> i == 7) && !Bit(0, i) {
      if i == 0 {} else if i == 1 {} else if i == 2 {} else if i == 3 {} else if i == 4 {} else if i == 5 {}
      else if i == 6 {} else {}
    }
  }

  datatype Unpadded = Ok(len: nat) | Invalid

  /** The position after the last non-zero byte */
  function DataEnd(b: Bytes): (e: nat)
    ensures e <= |b|
    ensures e > 0 ==> b[e - 1] != 0
    ensures forall k :: e <= k < |b| ==> b[k] == 0
  {
    if b == [] then 0 else if b[|b| - 1] != 0 then |b| else DataEnd(b[..|b| - 1])
  }

  lemma DataEndUnique(b: Bytes, e: nat)
    requires e <= |b| && (e > 0 ==> b[e - 1] != 0) && forall k :: e <= k < |b| ==> b[k] == 0
    ensures DataEnd(b) == e
  {
    hide DataEnd;
    var d := DataEnd(b);
    assert !(d < e) && !(e < d);
  }

  /** Where the data of a padded block ends, by the definitions of the paddings */
  function Unpad(m: Padding, b: Bytes): (u: Unpadded)
    requires 0 < |b| < 256
    ensures u.Ok? ==> u.len <= |b|
  {
    var n, v := |b|, FromByte(b[|b| - 1]);
    match m
    case Pkcs7 => if 1 <= v <= n && b[n - v..] == Repeated(b[n - 1], v) then Ok(n - v) else Invalid
    case OneAndZeros => if DataEnd(b) > 0 && b[DataEnd(b) - 1] == 0x80 then Ok(DataEnd(b) - 1) else Invalid
    case ZerosAndLen => if 1 <= v <= n && b[n - v..n - 1] == Nulls(v - 1) then Ok(n - v) else Invalid
    case Zeros => Ok(DataEnd(b))
    case NoPadding => Ok(n)
  }

  /** The length the readers leave, whether or not the padding is good: the wrapped difference to the last byte, or the
      position before or after the last non-zero byte */
  ghost function LengthLeft(m: Padding, b: Bytes): nat
    requires 0 < |b| < 256
  {
    ByteBack(b[|b| - 1]);
    match m
    case Pkcs7 => SizeSub(|b|, FromByte(b[|b| - 1]))
    case OneAndZeros => if DataEnd(b) > 0 then DataEnd(b) - 1 else 0
    case ZerosAndLen => SizeSub(|b|, FromByte(b[|b| - 1]))
    case Zeros => DataEnd(b)
    case NoPadding => |b|
  }

  /** For a good padding that is where the data ends; */
  lemma LengthLeftIs(m: Padding, b: Bytes)
    requires 0 < |b| < 256
    ensures Unpad(m, b).Ok? ==> LengthLeft(m, b) == Unpad(m, b).len <= |b|
  {
    hide SizeSub, DataEnd;
    ByteBack(b[|b| - 1]);
  }

  /** for a bad one it may lie far outside the block. */
  lemma LengthLeftWraps(b: Bytes)
    requires |b| == 16 && b[15] == 0xC8
    ensures Unpad(Pkcs7, b) == Invalid && Unpad(ZerosAndLen, b) == Invalid
    ensures LengthLeft(Pkcs7, b) == LengthLeft(ZerosAndLen, b) == SIZE_RANGE - 184 > 16
  {
    assert FromByte(0xC8) == 200;
    hide FromByte;
  }

  /** A padding that says where it starts is always found again. */
  lemma PaddingFound(m: Padding, d: Bytes, n: nat)
    requires |d| < n < 256 && (m == Pkcs7 || m == OneAndZeros || m == ZerosAndLen)
    ensures Unpad(m, d + PadBytes(m, n, |d|)) == Ok(|d|)
  {
    hide ToByte, FromByte, DataEnd;
    var b := d + PadBytes(m, n, |d|);
    ByteValue(n - |d|);
    match m
    case Pkcs7 =>
      assert b[|d|..] == Repeated(ToByte(n - |d|), n - |d|);
    case OneAndZeros =>
      DataEndUnique(b, |d| + 1);
    case ZerosAndLen =>
      assert b[|d|..n - 1] == Nulls(n - |d| - 1);
  }

  /** and nothing else is: the readers accept a block exactly when it ends in a whole padding. */
  lemma UnpadIff(m: Padding, b: Bytes, e: nat)
    requires 0 < |b| < 256 && (m == Pkcs7 || m == OneAndZeros || m == ZerosAndLen)
    ensures Unpad(m, b) == Ok(e) <==> e < |b| && b[e..] == PadBytes(m, |b|, e)
  {
    hide Unpad, PadBytes;
    if e < |b| && b[e..] == PadBytes(m, |b|, e) {
      PaddingFound(m, b[..e], |b|);
      assert b == b[..e] + b[e..];
    }
    if Unpad(m, b) == Ok(e) { WholePadding(m, b, e); }
  }

  lemma WholePadding(m: Padding, b: Bytes, e: nat)
    requires 0 < |b| < 256 && (m == Pkcs7 || m == OneAndZeros || m == ZerosAndLen) && Unpad(m, b) == Ok(e)
    ensures e < |b| && b[e..] == PadBytes(m, |b|, e)
  {
    var n := |b|;
    var last := b[n - 1];
    ByteBack(last);
    hide ToByte, FromByte, DataEnd;
    match m
    case Pkcs7 => assert b[e..] == Repeated(last, FromByte(last));
    case OneAndZeros => assert b[e..] == [0x80] + Nulls(n - e - 1);
    case ZerosAndLen => LastApart(b[e..], FromByte(last));
  }

  lemma LastApart(s: Bytes, v: nat)
    requires |s| == v > 0 && s[..v - 1] == Nulls(v - 1)
    ensures s == Nulls(v - 1) + [s[v - 1]]
  {
    assert s == s[..v - 1] + [s[v - 1]];
  }

  /** Zero padding is found exactly when the data of the block does not itself end in a zero byte. */
  lemma ZerosFoundIff(d: Bytes, n: nat)
    requires |d| < n < 256
    ensures Unpad(Zeros, d + PadBytes(Zeros, n, |d|)) == Ok(|d|) <==> d == [] || d[|d| - 1] != 0
  {
    hide DataEnd;
    var b := d + PadBytes(Zeros, n, |d|);
    if d == [] || d[|d| - 1] != 0 {
      DataEndUnique(b, |d|);
    } else {
      assert b[|d| - 1] == 0;
    }
  }

  // ----- add_padding ----------------------------------------------------------------------

  method AddPkcs7(output: array<bv8>, outputLen: nat, dataLen: nat)
    requires dataLen < outputLen < 256 && outputLen <= output.Length
    modifies output
    ensures output[..outputLen] == old(output[..dataLen]) + PadBytes(Pkcs7, outputLen, dataLen)
  {
    hide ToByte;
    ghost var d := output[..dataLen];
    var paddingLen := outputLen - dataLen;
    var i := 0;
    while i < paddingLen
      invariant 0 <= i <= paddingLen && output[..dataLen] == d
      invariant forall k :: dataLen <= k < dataLen + i ==> output[k] == ToByte(paddingLen)
    {
      output[dataLen + i] := ToByte(paddingLen);
      i := i + 1;
    }
  }

  method AddOneAndZeros(output: array<bv8>, outputLen: nat, dataLen: nat)
    requires dataLen < outputLen < 256 && outputLen <= output.Length
    modifies output
    ensures output[..outputLen] == old(output[..dataLen]) + PadBytes(OneAndZeros, outputLen, dataLen)
  {
    ghost var d := output[..dataLen];
    var paddingLen := outputLen - dataLen;
    output[dataLen] := 0x80;
    var i := 1;
    while i < paddingLen
      invariant 1 <= i <= paddingLen && output[..dataLen] == d && output[dataLen] == 0x80
      invariant forall k :: dataLen + 1 <= k < dataLen + i ==> output[k] == 0
    {
      output[dataLen + i] := 0x00;
      i := i + 1;
    }
    assert output[..outputLen] == d + ([0x80] + Nulls(paddingLen - 1));
  }

  method AddZerosAndLen(output: array<bv8>, outputLen: nat, dataLen: nat)
    requires dataLen < outputLen < 256 && outputLen <= output.Length
    modifies output
    ensures output[..outputLen] == old(output[..dataLen]) + PadBytes(ZerosAndLen, outputLen, dataLen)
  {
    hide ToByte;
    ghost var d := output[..dataLen];
    var paddingLen := outputLen - dataLen;
    var i := 1;
    while i < paddingLen
      invariant 1 <= i <= paddingLen && output[..dataLen] == d
      invariant forall k :: dataLen <= k < dataLen + i - 1 ==> output[k] == 0
    {
      output[dataLen + i - 1] := 0x00;
      i := i + 1;
    }
    output[outputLen - 1] := ToByte(paddingLen);
    assert output[..outputLen] == d + (Nulls(paddingLen - 1) + [ToByte(paddingLen)]);
  }

  method AddZeros(output: array<bv8>, outputLen: nat, dataLen: nat)
    requires dataLen < outputLen < 256 && outputLen <= output.Length
    modifies output
    ensures output[..outputLen] == old(output[..dataLen]) + PadBytes(Zeros, outputLen, dataLen)
  {
    ghost var d := output[..dataLen];
    var i := dataLen;
    while i < outputLen
      invariant dataLen <= i <= outputLen && output[..dataLen] == d
      invariant forall k :: dataLen <= k < i ==> output[k] == 0
    {
      output[i] := 0x00;
      i := i + 1;
    }
  }

  // ----- get_padding ----------------------------------------------------------------------

  function OrByte(a: bv8, b: bv8): bv8 { a | b }

  /** bad |= x * condition */
  function Flagged(bad: bv8, x: bv8, condition: bool): bv8
  {
    OrByte(bad, if condition then x else 0)
  }

  lemma FlaggedZero(bad: bv8, x: bv8, condition: bool)
    ensures Flagged(bad, x, condition) == 0 <==> bad == 0 && (condition ==> x == 0)
  {}

  lemma SameByte(x: bv8, y: bv8)
    ensures XorByte(x, y) == 0 <==> x == y
  {}

  method GetPkcs7(input: array<bv8>, n: nat) returns (ret: int, dataLen: nat)
    requires 0 < n < 256 && n <= input.Length
    ensures ret == if Unpad(Pkcs7, input[..n]).Ok? then 0 else INVALID_PADDING
    ensures ret == 0 ==> Unpad(Pkcs7, input[..n]) == Ok(dataLen)
    ensures dataLen == LengthLeft(Pkcs7, input[..n])
  {
    hide XorByte, Flagged, ToByte, FromByte, SizeSub;
    var paddingByte := input[n - 1];
    ByteBack(paddingByte);
    var paddingLen := FromByte(paddingByte);
    dataLen := SizeSub(n, paddingLen);
    var bad: bv8 := 0;
    FlaggedZero(bad, 1, paddingLen > n);
    bad := Flagged(bad, 1, paddingLen > n);
    FlaggedZero(bad, 1, paddingLen == 0);
    bad := Flagged(bad, 1, paddingLen == 0);
    ghost var inRange := bad == 0;
    var padIdx := SizeSub(n, paddingLen);
    var i := 0;
    while i < n
      invariant 0 <= i <= n
      invariant bad == 0 <==> inRange && forall k :: padIdx <= k < i ==> input[k] == paddingByte
    {
      FlaggedZero(bad, XorByte(input[i], paddingByte), i >= padIdx);
      SameByte(input[i], paddingByte);
      bad := Flagged(bad, XorByte(input[i], paddingByte), i >= padIdx);
      i := i + 1;
    }
    ret := if bad != 0 then INVALID_PADDING else 0;
    if inRange {
      ghost var b := input[..n];
      TailRepeated(b, padIdx, paddingByte);
    }
  }

  lemma TailRepeated(b: Bytes, j: nat, v: bv8)
    requires j <= |b|
    ensures b[j..] == Repeated(v, |b| - j) <==> forall k :: j <= k < |b| ==> b[k] == v
  {
    if b[j..] == Repeated(v, |b| - j) {
      forall k | j <= k < |b| ensures b[k] == v { assert b[j..][k - j] == v; }
    }
  }

  method GetOneAndZeros(input: array<bv8>, n: nat) returns (ret: int, dataLen: nat)
    requires 0 < n < 256 && n <= input.Length
    ensures ret == if Unpad(OneAndZeros, input[..n]).Ok? then 0 else INVALID_PADDING
    ensures ret == 0 ==> Unpad(OneAndZeros, input[..n]) == Ok(dataLen)
    ensures dataLen == LengthLeft(OneAndZeros, input[..n])
  {
    hide XorByte, DataEnd;
    ghost var b := input[..n];
    ghost var e := DataEnd(b);
    var bad, done: bv8, prevDone: bv8 := 0x80, 0, 0;
    dataLen := 0;
    var i := n;
    while i > 0
      invariant 0 <= i <= n
      invariant done == if i < e then 1 else 0
      invariant bad == if i < e then XorByte(0x80, b[e - 1]) else 0x80
      invariant dataLen == if i < e then e - 1 else 0
    {
      prevDone := done;
      assert input[i - 1] == b[i - 1];
      FlagOnce(done, input[i - 1]);
      done := OrByte(done, if input[i - 1] != 0 then 1 else 0);
      dataLen := if done != prevDone then i - 1 else dataLen;
      NoChange(bad);
      bad := XorByte(bad, if done != prevDone then input[i - 1] else 0);
      i := i - 1;
    }
    MarkerTest(if e > 0 then b[e - 1] else 0);
    ret := if bad != 0 then INVALID_PADDING else 0;
  }

  lemma FlagOnce(done: bv8, x: bv8)
    requires done == 0 || done == 1
    ensures OrByte(done, if x != 0 then 1 else 0) == if done == 1 || x != 0 then 1 else 0
  {}

  lemma NoChange(x: bv8)
    ensures XorByte(x, 0) == x
  {}

  lemma MarkerTest(x: bv8)
    ensures XorByte(0x80, x) == 0 <==> x == 0x80
  {}

  method GetZerosAndLen(input: array<bv8>, n: nat) returns (ret: int, dataLen: nat)
    requires 0 < n < 256 && n <= input.Length
    ensures ret == if Unpad(ZerosAndLen, input[..n]).Ok? then 0 else INVALID_PADDING
    ensures ret == 0 ==> Unpad(ZerosAndLen, input[..n]) == Ok(dataLen)
    ensures dataLen == LengthLeft(ZerosAndLen, input[..n])
  {
    hide Flagged, ToByte, FromByte, SizeSub;
    ByteBack(input[n - 1]);
    var paddingLen := FromByte(input[n - 1]);
    dataLen := SizeSub(n, paddingLen);
    var bad: bv8 := 0;
    FlaggedZero(bad, 1, paddingLen > n);
    bad := Flagged(bad, 1, paddingLen > n);
    FlaggedZero(bad, 1, paddingLen == 0);
    bad := Flagged(bad, 1, paddingLen == 0);
    ghost var inRange := bad == 0;
    var padIdx := SizeSub(n, paddingLen);
    var i := 0;
    while i < n - 1
      invariant 0 <= i <= n - 1
      invariant bad == 0 <==> inRange && forall k :: padIdx <= k < i ==> input[k] == 0
    {
      FlaggedZero(bad, input[i], i >= padIdx);
      bad := Flagged(bad, input[i], i >= padIdx);
      i := i + 1;
    }
    ret := if bad != 0 then INVALID_PADDING else 0;
    if inRange {
      ghost var b, c := input[..n], input[..n - 1];
      assert c[padIdx..] == b[padIdx..n - 1];
      TailRepeated(c, padIdx, 0);
      assert Repeated(0, paddingLen - 1) == Nulls(paddingLen - 1);
      assert bad == 0 <==> forall k :: padIdx <= k < |c| ==> c[k] == 0;
    }
  }

  method GetZeros(input: array<bv8>, n: nat) returns (ret: int, dataLen: nat)
    requires 0 < n < 256 && n <= input.Length
    ensures ret == 0 && Unpad(Zeros, input[..n]) == Ok(dataLen) && dataLen == LengthLeft(Zeros, input[..n])
  {
    hide DataEnd;
    ghost var b := input[..n];
    ghost var e := DataEnd(b);
    var done: bv8, prevDone: bv8 := 0, 0;
    dataLen := 0;
    var i := n;
    while i > 0
      invariant 0 <= i <= n
      invariant done == if i < e then 1 else 0
      invariant dataLen == if i < e then e else 0
    {
      prevDone := done;
      assert input[i - 1] == b[i - 1];
      FlagOnce(done, input[i - 1]);
      done := OrByte(done, if input[i - 1] != 0 then 1 else 0);
      dataLen := if done != prevDone then i else dataLen;
      i := i - 1;
    }
    return 0, dataLen;
  }
}
