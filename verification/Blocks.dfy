/** Byte strings, exclusive or, and block ciphers as abstract functions. */
module Blocks {
  type Bytes = seq<bv8>

  /** n zero bytes */
  function Nulls(n: nat): (z: Bytes)
    ensures |z| == n && forall k :: 0 <= k < n ==> z[k] == 0
  {
    seq(n, _ => 0)
  }

  function XorByte(x: bv8, y: bv8): bv8
  {
    x ^ y
  }

  /** Bit i of a byte, the least significant one being bit 0 */
  ghost predicate Bit(b: bv8, i: nat)
    requires i < 8
  {
    (b >> (i as bv4)) & 1 == 1
  }

  /** Exclusive or, bit by bit */
  lemma XorBit(x: bv8, y: bv8, i: nat)
    requires i < 8
    ensures Bit(XorByte(x, y), i) == (Bit(x, i) != Bit(y, i))
  {
    hide *;
    if i == 0 { XorBit0(x, y); }
    if i == 1 { XorBit1(x, y); }
    if i == 2 { XorBit2(x, y); }
    if i == 3 { XorBit3(x, y); }
    if i == 4 { XorBit4(x, y); }
    if i == 5 { XorBit5(x, y); }
    if i == 6 { XorBit6(x, y); }
    if i == 7 { XorBit7(x, y); }
  }

  lemma XorBit0(x: bv8, y: bv8)
    ensures Bit(XorByte(x, y), 0) == (Bit(x, 0) != Bit(y, 0))
  {}

  lemma XorBit1(x: bv8, y: bv8)
    ensures Bit(XorByte(x, y), 1) == (Bit(x, 1) != Bit(y, 1))
  {}

  lemma XorBit2(x: bv8, y: bv8)
    ensures Bit(XorByte(x, y), 2) == (Bit(x, 2) != Bit(y, 2))
  {}

  lemma XorBit3(x: bv8, y: bv8)
    ensures Bit(XorByte(x, y), 3) == (Bit(x, 3) != Bit(y, 3))
  {}

  lemma XorBit4(x: bv8, y: bv8)
    ensures Bit(XorByte(x, y), 4) == (Bit(x, 4) != Bit(y, 4))
  {}

  lemma XorBit5(x: bv8, y: bv8)
    ensures Bit(XorByte(x, y), 5) == (Bit(x, 5) != Bit(y, 5))
  {}

  lemma XorBit6(x: bv8, y: bv8)
    ensures Bit(XorByte(x, y), 6) == (Bit(x, 6) != Bit(y, 6))
  {}

  lemma XorBit7(x: bv8, y: bv8)
    ensures Bit(XorByte(x, y), 7) == (Bit(x, 7) != Bit(y, 7))
  {}

  lemma XorBits(i: nat)
    requires i < 8
    ensures forall x: bv8, y: bv8 :: Bit(XorByte(x, y), i) == (Bit(x, i) != Bit(y, i))
  {
    forall x: bv8, y: bv8 ensures Bit(XorByte(x, y), i) == (Bit(x, i) != Bit(y, i)) { XorBit(x, y, i); }
  }

  /** A byte is given by its bits. */
  lemma BitsDecide(x: bv8, y: bv8)
    requires forall i :: 0 <= i < 8 ==> Bit(x, i) == Bit(y, i)
    ensures x == y
  {
    assert Bit(x, 0) == Bit(y, 0) && Bit(x, 1) == Bit(y, 1) && Bit(x, 2) == Bit(y, 2) && Bit(x, 3) == Bit(y, 3);
    assert Bit(x, 4) == Bit(y, 4) && Bit(x, 5) == Bit(y, 5) && Bit(x, 6) == Bit(y, 6) && Bit(x, 7) == Bit(y, 7);
  }

  lemma XorByteTwice(x: bv8, y: bv8)
    ensures XorByte(XorByte(x, y), y) == x && XorByte(x, y) == XorByte(y, x)
  {}

  function Xor(a: Bytes, b: Bytes): (r: Bytes)
    requires |a| == |b|
    ensures |r| == |a| && forall k :: 0 <= k < |a| ==> r[k] == XorByte(a[k], b[k])
  {
    seq(|a|, k requires 0 <= k < |a| => XorByte(a[k], b[k]))
  }

  /** Exclusive or with the same string twice. */
  lemma XorTwice(a: Bytes, b: Bytes)
    requires |a| == |b|
    ensures Xor(Xor(a, b), b) == a
  {
    hide XorByte;
    forall k | 0 <= k < |a| ensures Xor(Xor(a, b), b)[k] == a[k] { XorByteTwice(a[k], b[k]); }
  }

  /** A keyed block function and its inverse, on blocks of the given length. */
  datatype Cipher = Cipher(enc: Bytes -> Bytes, dec: Bytes -> Bytes)

  ghost predicate ValidCipher(c: Cipher, size: nat)
  {
    forall b: Bytes :: |b| == size ==> |c.enc(b)| == size && |c.dec(b)| == size && c.dec(c.enc(b)) == b
  }

  /** dest[doff ..] := a[aoff ..] ^ b[boff ..], byte by byte; dest may be a, at the same place */
  method XorBlock(dest: array<bv8>, doff: nat, a: array<bv8>, aoff: nat, b: array<bv8>, boff: nat, n: nat)
    requires doff + n <= dest.Length && aoff + n <= a.Length && boff + n <= b.Length
    requires dest != b && (dest == a ==> doff == aoff)
    modifies dest
    ensures dest[doff..doff + n] == Xor(old(a[aoff..aoff + n]), b[boff..boff + n])
    ensures dest[..doff] == old(dest[..doff]) && dest[doff + n..] == old(dest[doff + n..])
  {
    hide *;
    ghost var q, p := dest[..], a[..];
    var i := 0;
    while i < n
      invariant 0 <= i <= n
      invariant forall k :: 0 <= k < doff || doff + i <= k < dest.Length ==> dest[k] == q[k]
      invariant forall k :: doff <= k < doff + i ==> dest[k] == XorByte(p[aoff + (k - doff)], b[boff + (k - doff)])
      invariant forall k :: aoff + i <= k < aoff + n ==> a[k] == p[k]
    {
      dest[doff + i] := XorByte(a[aoff + i], b[boff + i]);
      i := i + 1;
    }
    assert dest[..doff] == q[..doff] && dest[doff + n..] == q[doff + n..];
    XorRange(dest[doff..doff + n], p[aoff..aoff + n], b[boff..boff + n]);
  }

  lemma XorRange(d: Bytes, a: Bytes, b: Bytes)
    requires |d| == |a| == |b| && forall k :: 0 <= k < |d| ==> d[k] == XorByte(a[k], b[k])
    ensures d == Xor(a, b)
  {
    hide XorByte;
  }

  /** memcpy of n bytes; the regions must not overlap */
  method CopyBlock(dest: array<bv8>, doff: nat, src: array<bv8>, soff: nat, n: nat)
    requires doff + n <= dest.Length && soff + n <= src.Length
    requires dest == src ==> doff + n <= soff || soff + n <= doff
    modifies dest
    ensures dest[doff..doff + n] == old(src[soff..soff + n])
    ensures dest[..doff] == old(dest[..doff]) && dest[doff + n..] == old(dest[doff + n..])
  {
    forall k | 0 <= k < n {
      dest[doff + k] := src[soff + k];
    }
  }

  /** f keeps the length of 16-byte blocks. */
  ghost predicate Sized(f: Bytes -> Bytes)
  {
    forall b: Bytes :: |b| == 16 ==> |f(b)| == 16
  }

  lemma SizedAt(f: Bytes -> Bytes, b: Bytes)
    requires Sized(f) && |b| == 16
    ensures |f(b)| == 16
  {}

  /** One call of the block function on a 16-byte buffer; out may be inp */
  method Ecb(f: Bytes -> Bytes, inp: array<bv8>, out: array<bv8>)
    requires inp.Length == 16 && out.Length == 16 && Sized(f)
    modifies out
    ensures out[..] == f(old(inp[..])) && |f(old(inp[..]))| == 16
  {
    hide *;
    var b := inp[..];
    SizedAt(f, b);
    var r := f(b);
    forall k | 0 <= k < 16 { out[k] := r[k]; }
  }
}
