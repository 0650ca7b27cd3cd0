/** The branch-free PKCS #1 v1.5 decoder of constant_time.c and the left move it uses. */
module Pkcs1 {
  import opened Arith
  import opened Limbs
  import opened ConstTime

  /** Bits of an unsigned int */
  const UINT: nat := 32

  /** MBEDTLS_ERR_RSA_INVALID_PADDING, MBEDTLS_ERR_RSA_OUTPUT_TOO_LARGE, MBEDTLS_RSA_CRYPT */
  const INVALID_PADDING: int := -0x4100
  const OUTPUT_TOO_LARGE: int := -0x4400
  const RSA_CRYPT: Byte := 2

  // ----- mbedtls_ct_mem_move_to_left ------------------------------------------------------

  /** s moved left by `offset` bytes, zeros filling the end */
  ghost function MovedLeft(s: seq<Byte>, offset: nat): (r: seq<Byte>)
    requires offset <= |s|
    ensures |r| == |s|
  {
    s[offset..] + Nulls(offset)
  }

  lemma MovedNone(s: seq<Byte>)
    ensures MovedLeft(s, 0) == s
  {}

  lemma MovedOnce(s: seq<Byte>, t: nat)
    requires t < |s|
    ensures MovedLeft(s, t)[1..] + [0] == MovedLeft(s, t + 1)
  {}

  lemma ByteChoice(condition: nat, x: Byte, y: Byte)
    requires condition <= 1
    ensures UintIf(condition, x, y, UINT) == if condition != 0 then x else y
    ensures P2(UINT) > 1
  {
    hide *;
    WordSizes();
    UintIfMeaning(condition, x, y, UINT);
  }

  lemma WordSizes()
    ensures P2(8) == 256 && P2(UINT) == 0x1_0000_0000 && P2(UINT - 1) == 0x8000_0000
    ensures P2(biL - 1) >= 0x8000_0000 && UINT == 32
    ensures INVALID_PADDING == -0x4100 && OUTPUT_TOO_LARGE == -0x4400
  {
    SmallPowers();
    hide P2;
    P2Add(8, 8);
    P2Add(16, 16);
    P2Add(1, UINT - 1);
    P2Mono(31, biL - 1);
  }

  lemma SmallPowers()
    ensures P2(8) == 256 && P2(1) == 2
  {}

  /** One pass of the outer loop: shift by one, or do nothing. */
  method ShiftPass(buf: array<Byte>, start: nat, total: nat, noOp: nat)
    requires start + total <= buf.Length && total > 0 && noOp <= 1
    modifies buf
    ensures buf[..start] == old(buf[..start]) && buf[start + total..] == old(buf[start + total..])
    ensures buf[start..start + total]
         == if noOp != 0 then old(buf[start..start + total]) else old(buf[start + 1..start + total]) + [0]
  {
    hide *;
    WordSizes();
    ghost var q := buf[..];
    var n := 0;
    while n < total - 1
      invariant 0 <= n <= total - 1
      invariant forall k :: 0 <= k < start || start + n <= k < buf.Length ==> buf[k] == q[k]
      invariant noOp != 0 ==> forall k :: start <= k < start + n ==> buf[k] == q[k]
      invariant noOp == 0 ==> forall k :: start <= k < start + n ==> buf[k] == q[k + 1]
    {
      ByteChoice(noOp, buf[start + n], buf[start + n + 1]);
      buf[start + n] := UintIf(noOp, buf[start + n], buf[start + n + 1], UINT);
      n := n + 1;
    }
    ByteChoice(noOp, buf[start + total - 1], 0);
    buf[start + total - 1] := UintIf(noOp, buf[start + total - 1], 0, UINT);
    assert buf[..start] == q[..start] && buf[start + total..] == q[start + total..];
    if noOp != 0 {
      assert buf[start..start + total] == q[start..start + total];
    } else {
      assert buf[start..start + total] == q[start + 1..start + total] + [0];
    }
  }

  /** mbedtls_ct_mem_move_to_left on buf[start .. start + total] */
  method MemMoveToLeft(buf: array<Byte>, start: nat, total: nat, offset: nat)
    requires start + total <= buf.Length && offset <= total < 0x8000_0000
    modifies buf
    ensures buf[..start] == old(buf[..start]) && buf[start + total..] == old(buf[start + total..])
    ensures buf[start..start + total] == MovedLeft(old(buf[start..start + total]), offset)
  {
    hide *;
    ghost var s := buf[start..start + total];
    MovedNone(s);
    if total == 0 { return; }
    WordSizes();
    var i := 0;
    while i < total
      invariant 0 <= i <= total
      invariant buf[..start] == old(buf[..start]) && buf[start + total..] == old(buf[start + total..])
      invariant buf[start..start + total] == MovedLeft(s, if i < total - offset then 0 else i - (total - offset))
    {
      SizeGtMeaning(total - offset, i, biL);
      var noOp := SizeGt(total - offset, i, biL);
      ghost var was := buf[start..start + total];
      ShiftPass(buf, start, total, noOp);
      if i >= total - offset {
        assert buf[start..start + total] == was[1..] + [0];
        MovedOnce(s, i - (total - offset));
      }
      i := i + 1;
    }
  }

  // ----- The plain decoder (section 7.2.2 of RFC 8017) ------------------------------------

  /** The first zero byte at position i or later, |em| if there is none */
  ghost function FirstZero(em: seq<Byte>, i: nat): (z: nat)
    requires i <= |em|
    ensures i <= z <= |em|
    ensures forall k :: i <= k < z ==> em[k] != 0
    ensures z < |em| ==> em[z] == 0
    decreases |em| - i
  {
    if i == |em| || em[i] == 0 then i else FirstZero(em, i + 1)
  }

  /** EM = 0x00 || 0x02 || PS || 0x00 || M with at least eight bytes in PS, none of them zero */
  ghost predicate IsEncoding(em: seq<Byte>, ps: seq<Byte>, m: seq<Byte>)
  {
    && em == [0x00, 0x02] + ps + [0x00] + m
    && |ps| >= 8 && forall k :: 0 <= k < |ps| ==> ps[k] != 0
  }

  /** The conditions the decoder tests. */
  ghost predicate GoodPadding(em: seq<Byte>)
  {
    |em| >= 2 && em[0] == 0 && em[1] == RSA_CRYPT && 10 <= FirstZero(em, 2) < |em|
  }

  ghost function Message(em: seq<Byte>): seq<Byte>
    requires GoodPadding(em)
  {
    em[FirstZero(em, 2) + 1..]
  }

  lemma FirstZeroUnique(em: seq<Byte>, i: nat, z: nat)
    requires i <= z < |em| && em[z] == 0 && forall k :: i <= k < z ==> em[k] != 0
    ensures FirstZero(em, i) == z
  {
    hide FirstZero;
    var y := FirstZero(em, i);
    assert !(y < z);
  }

  /** The tests accept exactly the encoded messages, and recover the message. */
  lemma AcceptsEncodings(em: seq<Byte>, ps: seq<Byte>, m: seq<Byte>)
    ensures IsEncoding(em, ps, m) <==> GoodPadding(em) && ps == em[2..FirstZero(em, 2)] && m == Message(em)
  {
    hide FirstZero;
    if IsEncoding(em, ps, m) {
      var z := 2 + |ps|;
      assert em[z] == 0;
      forall k | 2 <= k < z ensures em[k] != 0 { assert em[k] == ps[k - 2]; }
      FirstZeroUnique(em, 2, z);
      assert em[2..z] == ps && em[z + 1..] == m;
    }
    if GoodPadding(em) && ps == em[2..FirstZero(em, 2)] && m == Message(em) {
      var z := FirstZero(em, 2);
      assert em == [em[0], em[1]] + em[2..z] + [em[z]] + em[z + 1..];
    }
  }

  /** The decoder with branches: verdict, length reported and bytes delivered into the first `room`
      bytes of the output, where room = min(output_max_len, |em| - 11). */
  datatype Decoded = Decoded(ret: int, olen: nat, bytes: seq<Byte>)

  ghost function Decode(em: seq<Byte>, room: nat): Decoded
  {
    if !GoodPadding(em) then Decoded(INVALID_PADDING, room, Nulls(room))
    else if |Message(em)| > room then Decoded(OUTPUT_TOO_LARGE, room, Nulls(room))
    else Decoded(0, |Message(em)|, Message(em) + Nulls(room - |Message(em)|))
  }

  // ----- mbedtls_ct_rsaes_pkcs1_v15_unpadding ---------------------------------------------

  /** The flag loops work on: 1 for a zero byte, 0 otherwise */
  lemma ZeroFlag(x: Byte)
    ensures Xor(NonZeroBit(x, 8), 1) == if x == 0 then 1 else 0
  {
    WordSizes();
    NonZeroBitMeaning(x, 8);
    hide *;
    XorBits();
  }

  lemma XorBits()
    ensures Xor(0, 1) == 1 && Xor(1, 1) == 0 && Xor(1, 0) == 1
    ensures Or(0, 0) == 0 && Or(0, 1) == 1 && Or(1, 0) == 1 && Or(1, 1) == 1
  {}

  /** The scan over the whole buffer. */
  method ScanPadding(input: array<Byte>, ilen: nat) returns (padDone: nat, padCount: nat)
    requires 2 <= ilen <= input.Length
    ensures padDone == if FirstZero(input[..ilen], 2) < ilen then 1 else 0
    ensures padCount == FirstZero(input[..ilen], 2) - 2
  {
    hide *;
    ghost var em := input[..ilen];
    ghost var z := FirstZero(em, 2);
    padCount, padDone := 0, 0;
    var i := 2;
    XorBits();
    while i < ilen
      invariant 2 <= i <= ilen
      invariant padDone == if z < i then 1 else 0
      invariant padCount == (if z < i then z else i) - 2
    {
      ZeroFlag(input[i]);
      padDone := Or(padDone, Xor(NonZeroBit(input[i], 8), 1));
      ZeroFlag(padDone);
      padCount := padCount + Xor(NonZeroBit(padDone, 8), 1);
      assert i < z ==> em[i] != 0;
      assert i == z ==> em[i] == 0;
      i := i + 1;
    }
  }

  /** bad |= flag keeps `bad` zero exactly when both are. */
  lemma BadFlag(bad: nat, flag: nat)
    requires bad < 256 && flag < 256
    ensures 0 <= Or(bad, flag) < 256 && (Or(bad, flag) == 0 <==> bad == 0 && flag == 0)
  {
    hide *;
    WordSizes();
    OrBounds(bad, flag, 8);
    OrNonZero(bad, flag);
  }

  /** The checks: bad is 0 exactly for good padding. */
  method CheckPadding(input: array<Byte>, ilen: nat) returns (bad: nat, padCount: nat)
    requires 11 <= ilen <= input.Length && ilen < 0x8000_0000
    ensures bad < 256 && (bad == 0 <==> GoodPadding(input[..ilen]))
    ensures padCount == FirstZero(input[..ilen], 2) - 2
  {
    hide *;
    ghost var em := input[..ilen];
    WordSizes();
    bad := 0;
    BadFlag(bad, input[0]);
    bad := Or(bad, input[0]);
    XorBound(input[1], RSA_CRYPT, 8);
    XorZero(input[1], RSA_CRYPT);
    BadFlag(bad, Xor(input[1], RSA_CRYPT));
    bad := Or(bad, Xor(input[1], RSA_CRYPT));
    var padDone;
    padDone, padCount := ScanPadding(input, ilen);
    UintIfMeaning(padDone, 0, 1, UINT);
    BadFlag(bad, UintIf(padDone, 0, 1, UINT));
    bad := Or(bad, UintIf(padDone, 0, 1, UINT));
    SizeGtMeaning(8, padCount, biL);
    BadFlag(bad, SizeGt(8, padCount, biL));
    bad := Or(bad, SizeGt(8, padCount, biL));
    GoodIs(em);
  }

  lemma GoodIs(em: seq<Byte>)
    requires |em| >= 2
    ensures GoodPadding(em) <==> em[0] == 0 && em[1] == RSA_CRYPT && 10 <= FirstZero(em, 2) < |em|
    ensures GoodPadding(em) ==> Message(em) == em[FirstZero(em, 2) + 1..]
  {}

  /** input[i] &= ~bad for i from 11 on */
  method MaskTail(input: array<Byte>, ilen: nat, bad: nat)
    requires 11 <= ilen <= input.Length && bad < 256
    modifies input
    ensures input[..11] == old(input[..11]) && input[ilen..] == old(input[ilen..])
    ensures input[11..ilen] == if bad != 0 then Nulls(ilen - 11) else old(input[11..ilen])
  {
    hide *;
    WordSizes();
    MaskMeaning(bad, UINT);
    var mask := Mask(bad, UINT);
    ghost var q := input[..];
    var i := 11;
    while i < ilen
      invariant 11 <= i <= ilen
      invariant forall k :: 0 <= k < input.Length ==> input[k] == if 11 <= k < i && bad != 0 then 0 else q[k]
    {
      MaskByte(bad, mask, input[i]);
      input[i] := And(input[i], Not(mask, UINT));
      i := i + 1;
    }
    if bad != 0 { assert input[11..ilen] == Nulls(ilen - 11); } else { assert input[..] == q; }
  }

  lemma MaskByte(bad: nat, mask: nat, x: Byte)
    requires mask == if bad == 0 then 0 else P2(UINT) - 1
    ensures And(x, Not(mask, UINT)) == if bad != 0 then 0 else x
  {
    WordSizes();
    AndAllOnes(x, UINT);
  }

  /** The masked selections: the return code, whether the message is too long, and its size. */
  method Judge(input: array<Byte>, ilen: nat, plaintextMaxSize: nat)
    returns (ret: int, reject: nat, outputTooLarge: nat, plaintextSize: nat)
    requires 11 <= ilen <= input.Length && ilen < 0x8000_0000 && plaintextMaxSize <= ilen - 11
    ensures var em := input[..ilen];
      && reject < 256 && (reject != 0 <==> !GoodPadding(em) || |Message(em)| > plaintextMaxSize)
      && ret == (if !GoodPadding(em) then INVALID_PADDING else if reject != 0 then OUTPUT_TOO_LARGE else 0)
      && outputTooLarge == (if GoodPadding(em) && |Message(em)| > plaintextMaxSize then 1 else 0)
      && plaintextSize == (if GoodPadding(em) then |Message(em)| else plaintextMaxSize)
  {
    hide *;
    ghost var em := input[..ilen];
    WordSizes();
    var bad, padCount := CheckPadding(input, ilen);
    GoodIs(em);
    DivModNonNeg(ilen - padCount - 3, P2(UINT));
    var left := (ilen - padCount - 3) % P2(UINT);
    if bad == 0 { DivModSmall(ilen - padCount - 3, P2(UINT)); }
    UintIfMeaning(bad, plaintextMaxSize, left, UINT);
    plaintextSize := UintIf(bad, plaintextMaxSize, left, UINT);
    SizeGtMeaning(plaintextSize, plaintextMaxSize, biL);
    outputTooLarge := SizeGt(plaintextSize, plaintextMaxSize, biL);
    UintIfMeaning(outputTooLarge, 0x4400, 0, UINT);
    UintIfMeaning(bad, 0x4100, UintIf(outputTooLarge, 0x4400, 0, UINT), UINT);
    ret := 0 - UintIf(bad, 0x4100, UintIf(outputTooLarge, 0x4400, 0, UINT), UINT);
    BadFlag(bad, outputTooLarge);
    reject := Or(bad, outputTooLarge);
  }

  /** mbedtls_ct_rsaes_pkcs1_v15_unpadding: the branching decoder without the branches */
  method Unpadding(input: array<Byte>, ilen: nat, output: array<Byte>, outputMaxLen: nat)
    returns (ret: int, olen: nat)
    requires 11 <= ilen <= input.Length && ilen < 0x8000_0000
    requires input != output && outputMaxLen <= output.Length
    modifies input, output
    ensures var room := if outputMaxLen > ilen - 11 then ilen - 11 else outputMaxLen;
      && Decoded(ret, olen, output[..room]) == Decode(old(input[..ilen]), room)
      && output[room..] == old(output[room..])
  {
    hide *;
    ghost var em := input[..ilen];
    WordSizes();
    var plaintextMaxSize := if outputMaxLen > ilen - 11 then ilen - 11 else outputMaxLen;
    var reject, outputTooLarge;
    var plaintextSize;
    ret, reject, outputTooLarge, plaintextSize := Judge(input, ilen, plaintextMaxSize);
    ghost var rejected := reject != 0;
    MaskTail(input, ilen, reject);
    assert input[11..ilen] == if rejected then Nulls(ilen - 11) else em[11..];
    GoodIs(em);
    UintIfMeaning(outputTooLarge, plaintextMaxSize, plaintextSize, UINT);
    plaintextSize := UintIf(outputTooLarge, plaintextMaxSize, plaintextSize, UINT);
    var start := ilen - plaintextMaxSize;
    ghost var tail := input[start..start + plaintextMaxSize];
    TailIs(input[11..ilen], em, plaintextMaxSize, rejected, tail) by {
      assert tail == input[11..ilen][ilen - 11 - plaintextMaxSize..];
    }
    MemMoveToLeft(input, start, plaintextMaxSize, plaintextMaxSize - plaintextSize);
    Delivered(em, tail, plaintextMaxSize, plaintextSize, rejected, ret);
    if outputMaxLen != 0 {
      CopyBytes(output, input, start, plaintextMaxSize);
    }
    olen := plaintextSize;
  }

  /** memcpy of n bytes to the start of dest */
  method CopyBytes(dest: array<Byte>, src: array<Byte>, from: nat, n: nat)
    requires dest != src && n <= dest.Length && from + n <= src.Length
    modifies dest
    ensures dest[..n] == src[from..from + n] && dest[n..] == old(dest[n..])
  {
    forall k | 0 <= k < n {
      dest[k] := src[from + k];
    }
  }

  /** The working area: the last bytes of the message area, or zeros. */
  lemma TailIs(area: seq<Byte>, em: seq<Byte>, room: nat, rejected: bool, tail: seq<Byte>)
    requires |em| >= 11 && |area| == |em| - 11 && room <= |area| && tail == area[|area| - room..]
    requires area == if rejected then Nulls(|em| - 11) else em[11..]
    ensures tail == if rejected then Nulls(room) else em[|em| - room..]
  {}

  /** What the move leaves is what the plain decoder delivers. */
  lemma Delivered(em: seq<Byte>, tail: seq<Byte>, room: nat, size: nat, rejected: bool, ret: int)
    requires |em| >= 11 && room <= |em| - 11 && size <= room && |tail| == room
    requires tail == if rejected then Nulls(room) else em[|em| - room..]
    requires rejected <==> !GoodPadding(em) || |Message(em)| > room
    requires size == if rejected then room else |Message(em)|
    requires ret == if !GoodPadding(em) then INVALID_PADDING else if rejected then OUTPUT_TOO_LARGE else 0
    ensures Decode(em, room) == Decoded(ret, size, MovedLeft(tail, room - size))
  {
    hide FirstZero;
    if rejected {
      assert MovedLeft(tail, 0) == tail;
    } else {
      var m := Message(em);
      assert tail[room - |m|..] == em[|em| - |m|..] == m;
    }
  }
}
