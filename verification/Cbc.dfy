/** CBC in the cipher layer: the incremental interface with its cache block and paddings. */
module Cbc {
  import opened Arith
  import opened Blocks
  import opened Paddings

  datatype Operation = Encrypt | Decrypt

  // ----- CBC over whole blocks (section 6.2 of NIST SP 800-38A) ---------------------------

  /** The block functions keep blocks of n bytes. */
  ghost predicate Keeps(c: Cipher, n: nat)
  {
    forall b: Bytes :: |b| == n ==> |c.enc(b)| == n && |c.dec(b)| == n
  }

  lemma KeepsAt(c: Cipher, n: nat, b: Bytes)
    requires Keeps(c, n) && |b| == n
    ensures |c.enc(b)| == n && |c.dec(b)| == n
  {}

  /** One block: what comes out */
  ghost function BlockOut(op: Operation, c: Cipher, n: nat, iv: Bytes, b: Bytes): (r: Bytes)
    requires Keeps(c, n) && |iv| == n && |b| == n
    ensures |r| == n
  {
    KeepsAt(c, n, Xor(b, iv));
    KeepsAt(c, n, b);
    if op == Encrypt then c.enc(Xor(b, iv)) else Xor(c.dec(b), iv)
  }

  /** The ciphertext block, chained into the next one */
  ghost function BlockIv(op: Operation, c: Cipher, n: nat, iv: Bytes, b: Bytes): (r: Bytes)
    requires Keeps(c, n) && |iv| == n && |b| == n
    ensures |r| == n
  {
    if op == Encrypt then BlockOut(op, c, n, iv, b) else b
  }

  /** The output for the whole blocks of s */
  ghost function Out(op: Operation, c: Cipher, n: nat, iv: Bytes, s: Bytes): (r: Bytes)
    requires Keeps(c, n) && |iv| == n && n > 0
    decreases |s|
  {
    if |s| < n then [] else BlockOut(op, c, n, iv, s[..n]) + Out(op, c, n, BlockIv(op, c, n, iv, s[..n]), s[n..])
  }

  /** The chaining value after them */
  ghost function Chain(op: Operation, c: Cipher, n: nat, iv: Bytes, s: Bytes): (r: Bytes)
    requires Keeps(c, n) && |iv| == n && n > 0
    ensures |r| == n
    decreases |s|
  {
    if |s| < n then iv else Chain(op, c, n, BlockIv(op, c, n, iv, s[..n]), s[n..])
  }

  /** s is a whole number of blocks. */
  ghost predicate Whole(s: nat, n: nat)
    requires n > 0
  {
    s % n == 0
  }

  lemma WholeMinus(s: nat, n: nat)
    requires n > 0 && Whole(s, n) && s >= n
    ensures Whole(s - n, n)
  {
    DivModUnique(s - n, n, s / n - 1, 0);
  }

  lemma WholeSmall(s: nat, n: nat)
    requires n > 0 && Whole(s, n) && s < n
    ensures s == 0
  {
    DivModSmall(s, n);
  }

  lemma WholePlus(s: nat, t: nat, n: nat)
    requires n > 0 && Whole(s, n)
    ensures (s + t) % n == t % n
    ensures Whole(t, n) <==> Whole(s + t, n)
  {
    DivModUnique(s + t, n, s / n + t / n, t % n);
  }

  lemma OutStep(op: Operation, c: Cipher, n: nat, iv: Bytes, b: Bytes, s: Bytes)
    requires Keeps(c, n) && |iv| == n && n > 0 && |b| == n
    ensures Out(op, c, n, iv, b + s) == BlockOut(op, c, n, iv, b) + Out(op, c, n, BlockIv(op, c, n, iv, b), s)
    ensures Chain(op, c, n, iv, b + s) == Chain(op, c, n, BlockIv(op, c, n, iv, b), s)
  {
    hide BlockOut, BlockIv, Keeps;
    assert (b + s)[..n] == b && (b + s)[n..] == s;
  }

  /** Block j of s, or the IV for the block before the first */
  ghost function BlockBefore(n: nat, iv: Bytes, s: Bytes, j: nat): (b: Bytes)
    requires |iv| == n && n * j <= |s|
    ensures |b| == n
  {
    if j == 0 then iv else
      MulAddDist(n, j - 1, 1);
      MulNonNeg(n, j - 1);
      s[n * (j - 1)..n * j]
  }

  /** Block j of the output (section 6.2): a plaintext block is added to the ciphertext block before it and encrypted;
      a decrypted ciphertext block is added to the ciphertext block before it. */
  lemma {:induction false} OutBlock(op: Operation, c: Cipher, n: nat, iv: Bytes, s: Bytes, j: nat)
    requires Keeps(c, n) && |iv| == n && n > 0 && n * j + n <= |s|
    ensures n * j >= 0 && |Out(op, c, n, iv, s)| >= n * j + n
    ensures var b, out := s[n * j..n * j + n], Out(op, c, n, iv, s);
      var before := BlockBefore(n, iv, if op == Encrypt then out else s, j);
      if op == Encrypt then out[n * j..n * j + n] == c.enc(Xor(b, before))
      else |c.dec(b)| == n && out[n * j..n * j + n] == Xor(c.dec(b), before)
    decreases j
  {
    hide *;
    MulNonNeg(n, j);
    var a, t := s[..n], s[n..];
    assert s == a + t;
    OutStep(op, c, n, iv, a, t);
    BlockIs(op, c, n, iv, a);
    var b, v := BlockOut(op, c, n, iv, a), BlockIv(op, c, n, iv, a);
    if j > 0 {
      MulAddDist(n, j - 1, 1);
      MulNonNeg(n, j - 1);
      OutBlock(op, c, n, v, t, j - 1);
      var out := Out(op, c, n, v, t);
      Later(a, t, n, j);
      Later(b, out, n, j);
      if op == Encrypt { ShiftedBefore(n, iv, v, b, out, j); } else { ShiftedBefore(n, iv, v, a, t, j); }
    } else {
      FirstBefore(n, iv, s);
      FirstBefore(n, iv, Out(op, c, n, iv, s));
      Front(a, t, n);
      Front(b, Out(op, c, n, v, t), n);
    }
  }

  lemma Front(a: Bytes, t: Bytes, n: nat)
    requires |a| == n
    ensures n * 0 == 0 && (a + t)[n * 0..n * 0 + n] == a
  {}

  lemma Later(a: Bytes, t: Bytes, n: nat, j: nat)
    requires |a| == n && j > 0 && n * (j - 1) >= 0 && n * j == n + n * (j - 1) && n * (j - 1) + n <= |t|
    ensures (a + t)[n * j..n * j + n] == t[n * (j - 1)..n * (j - 1) + n]
  {}

  lemma FirstBefore(n: nat, iv: Bytes, s: Bytes)
    requires |iv| == n
    ensures n * 0 == 0 && BlockBefore(n, iv, s, 0) == iv
  {}

  lemma ShiftedBefore(n: nat, iv: Bytes, v: Bytes, a: Bytes, t: Bytes, j: nat)
    requires |iv| == n && |a| == n && |v| == n && j > 0 && n * (j - 1) <= |t| && n * j <= |a + t|
    requires j == 1 ==> v == a
    ensures BlockBefore(n, iv, a + t, j) == BlockBefore(n, v, t, j - 1)
  {
    MulAddDist(n, j - 1, 1);
    if j == 1 {
      assert (a + t)[n * 0..n * 1] == a;
    } else {
      MulAddDist(n, j - 2, 1);
      MulNonNeg(n, j - 2);
      assert (a + t)[n * (j - 1)..n * j] == t[n * (j - 2)..n * (j - 1)];
    }
  }

  lemma OutNone(op: Operation, c: Cipher, n: nat, iv: Bytes)
    requires Keeps(c, n) && |iv| == n && n > 0
    ensures Out(op, c, n, iv, []) == [] && Chain(op, c, n, iv, []) == iv
  {
    hide BlockOut, BlockIv, Keeps;
  }

  /** Cutting at a block boundary. */
  lemma {:induction false} OutAppend(op: Operation, c: Cipher, n: nat, iv: Bytes, s: Bytes, t: Bytes)
    requires Keeps(c, n) && |iv| == n && n > 0 && Whole(|s|, n)
    ensures Out(op, c, n, iv, s + t) == Out(op, c, n, iv, s) + Out(op, c, n, Chain(op, c, n, iv, s), t)
    ensures Chain(op, c, n, iv, s + t) == Chain(op, c, n, Chain(op, c, n, iv, s), t)
    decreases |s|
  {
    hide *;
    if |s| < n {
      WholeSmall(|s|, n);
      OutNone(op, c, n, iv);
      assert s == [] && s + t == t;
    } else {
      var b, u := s[..n], s[n..];
      assert s == b + u;
      WholeMinus(|s|, n);
      var v := BlockIv(op, c, n, iv, b);
      OutAppend(op, c, n, v, u, t);
      OutStep(op, c, n, iv, b, u);
      OutStep(op, c, n, iv, b, u + t);
      assert s + t == b + (u + t);
      JoinParts(BlockOut(op, c, n, iv, b), Out(op, c, n, v, u), Out(op, c, n, Chain(op, c, n, v, u), t));
    }
  }

  lemma JoinParts(a: Bytes, b: Bytes, c: Bytes)
    ensures a + (b + c) == (a + b) + c
  {}

  lemma OneBlock(op: Operation, c: Cipher, n: nat, iv: Bytes, b: Bytes)
    requires Keeps(c, n) && |iv| == n && n > 0 && |b| == n
    ensures Out(op, c, n, iv, b) == BlockOut(op, c, n, iv, b) && Chain(op, c, n, iv, b) == BlockIv(op, c, n, iv, b)
  {
    hide *;
    OutStep(op, c, n, iv, b, []);
    OutNone(op, c, n, BlockIv(op, c, n, iv, b));
    assert b + [] == b && BlockOut(op, c, n, iv, b) + [] == BlockOut(op, c, n, iv, b);
  }

  lemma {:induction false} OutLength(op: Operation, c: Cipher, n: nat, iv: Bytes, s: Bytes)
    requires Keeps(c, n) && |iv| == n && n > 0 && Whole(|s|, n)
    ensures |Out(op, c, n, iv, s)| == |s|
    decreases |s|
  {
    hide BlockOut, BlockIv, Keeps, Whole;
    if |s| < n {
      WholeSmall(|s|, n);
    } else {
      WholeMinus(|s|, n);
      OutLength(op, c, n, BlockIv(op, c, n, iv, s[..n]), s[n..]);
    }
  }

  /** Decryption of whole blocks undoes encryption. */
  lemma {:induction false} DecryptBlocks(c: Cipher, n: nat, iv: Bytes, p: Bytes)
    requires ValidCipher(c, n) && Keeps(c, n) && |iv| == n && n > 0 && Whole(|p|, n)
    ensures Out(Decrypt, c, n, iv, Out(Encrypt, c, n, iv, p)) == p
    decreases |p|
  {
    hide Xor, Whole, Keeps, ValidCipher, Out, Chain;
    if |p| < n {
      WholeSmall(|p|, n);
      OutNone(Encrypt, c, n, iv);
      OutNone(Decrypt, c, n, iv);
    } else {
      var b, u := p[..n], p[n..];
      assert p == b + u;
      WholeMinus(|p|, n);
      var e := BlockOut(Encrypt, c, n, iv, b);
      DecryptBlocks(c, n, e, u);
      OutStep(Encrypt, c, n, iv, b, u);
      OutStep(Decrypt, c, n, iv, e, Out(Encrypt, c, n, e, u));
      XorTwice(b, iv);
      DecOfEnc(c, n, Xor(b, iv));
    }
  }

  lemma DecOfEnc(c: Cipher, n: nat, b: Bytes)
    requires ValidCipher(c, n) && |b| == n
    ensures c.dec(c.enc(b)) == b
  {}

  lemma ValidKeeps(c: Cipher, n: nat)
    requires ValidCipher(c, n)
    ensures Keeps(c, n)
  {}

  // ----- The CBC function of the base cipher ----------------------------------------------

  method Store(a: array<bv8>, off: nat, s: Bytes)
    requires off + |s| <= a.Length
    modifies a
    ensures a[off..off + |s|] == s && a[..off] == old(a[..off]) && a[off + |s|..] == old(a[off + |s|..])
  {
    forall k | 0 <= k < |s| { a[off + k] := s[k]; }
  }

  /** One block from input to output, which may be the same; iv takes the ciphertext block. */
  method CbcBlock(op: Operation, c: Cipher, n: nat, iv: array<bv8>, input: array<bv8>, ioff: nat, output: array<bv8>,
                  ooff: nat)
    requires Keeps(c, n) && 0 < n <= iv.Length && iv != input && iv != output && (input == output ==> ioff == ooff)
    requires ioff + n <= input.Length && ooff + n <= output.Length
    modifies iv, output
    ensures output[ooff..ooff + n] == BlockOut(op, c, n, old(iv[..n]), old(input[ioff..ioff + n]))
    ensures output[..ooff] == old(output[..ooff]) && output[ooff + n..] == old(output[ooff + n..])
    ensures iv[..n] == BlockIv(op, c, n, old(iv[..n]), old(input[ioff..ioff + n]))
  {
    hide *;
    ghost var v, b := iv[..n], input[ioff..ioff + n];
    assert iv[0..0 + n] == v;
    BlockIs(op, c, n, v, b);
    if op == Encrypt {
      XorBlock(output, ooff, input, ioff, iv, 0, n);
      KeepsAt(c, n, Xor(b, v));
      Store(output, ooff, c.enc(output[ooff..ooff + n]));
      CopyBlock(iv, 0, output, ooff, n);
      assert iv[..n] == iv[0..0 + n];
    } else {
      var temp := input[ioff..ioff + n];
      KeepsAt(c, n, temp);
      Store(output, ooff, c.dec(temp));
      XorBlock(output, ooff, output, ooff, iv, 0, n);
      Store(iv, 0, temp);
      assert iv[..n] == iv[0..0 + |temp|];
    }
  }

  lemma BlockIs(op: Operation, c: Cipher, n: nat, iv: Bytes, b: Bytes)
    requires Keeps(c, n) && |iv| == n && |b| == n
    ensures op == Encrypt ==>
      BlockOut(op, c, n, iv, b) == c.enc(Xor(b, iv)) && BlockIv(op, c, n, iv, b) == c.enc(Xor(b, iv))
    ensures |c.dec(b)| == n
    ensures op == Decrypt ==> BlockOut(op, c, n, iv, b) == Xor(c.dec(b), iv) && BlockIv(op, c, n, iv, b) == b
  {
    KeepsAt(c, n, b);
    hide Xor, Keeps;
  }

  /** The buffers after `done` bytes: in (then inp0) is still to be read from ioff + done on, out (then out0) is written
      up to ooff + done. */
  ghost predicate Streamed(op: Operation, c: Cipher, n: nat, v: Bytes, inp0: Bytes, out0: Bytes, ioff: nat, ooff: nat,
                           done: nat, inp: Bytes, out: Bytes, iv: Bytes)
  {
    && Keeps(c, n) && n > 0 && |v| == n && Whole(done, n)
    && |inp| == |inp0| && |out| == |out0| && ioff + done <= |inp| && ooff + done <= |out|
    && out[ooff..ooff + done] == Out(op, c, n, v, inp0[ioff..ioff + done])
    && iv == Chain(op, c, n, v, inp0[ioff..ioff + done])
    && out[..ooff] == out0[..ooff] && out[ooff + done..] == out0[ooff + done..]
    && inp[ioff + done..] == inp0[ioff + done..]
  }

  lemma StreamedNone(op: Operation, c: Cipher, n: nat, v: Bytes, inp: Bytes, out: Bytes, ioff: nat, ooff: nat)
    requires Keeps(c, n) && n > 0 && |v| == n && ioff <= |inp| && ooff <= |out|
    ensures Streamed(op, c, n, v, inp, out, ioff, ooff, 0, inp, out, v)
  {
    hide Out, Chain, Keeps, Whole;
    OutNone(op, c, n, v);
    WholeZero(n);
    assert inp[ioff..ioff + 0] == [] && out[ooff..ooff + 0] == [];
  }

  lemma StreamedIs(op: Operation, c: Cipher, n: nat, v: Bytes, inp0: Bytes, out0: Bytes, ioff: nat, ooff: nat,
                   done: nat, inp: Bytes, out: Bytes, iv: Bytes)
    requires Streamed(op, c, n, v, inp0, out0, ioff, ooff, done, inp, out, iv)
    ensures Keeps(c, n) && n > 0 && |v| == n && |iv| == n && Whole(done, n)
    ensures |inp| == |inp0| && |out| == |out0| && ioff + done <= |inp| && ooff + done <= |out|
    ensures out[ooff..ooff + done] == Out(op, c, n, v, inp0[ioff..ioff + done])
    ensures iv == Chain(op, c, n, v, inp0[ioff..ioff + done])
    ensures out[..ooff] == out0[..ooff] && out[ooff + done..] == out0[ooff + done..]
    ensures inp[ioff + done..] == inp0[ioff + done..]
  {
    hide Out, Chain, Keeps, Whole;
  }

  /** One block more */
  lemma StreamedNext(op: Operation, c: Cipher, n: nat, v: Bytes, inp0: Bytes, out0: Bytes, ioff: nat, ooff: nat,
                     done: nat, inp: Bytes, out: Bytes, iv: Bytes, inp1: Bytes, out1: Bytes, iv1: Bytes)
    requires Streamed(op, c, n, v, inp0, out0, ioff, ooff, done, inp, out, iv) && Keeps(c, n) && |iv| == n > 0
    requires |inp1| == |inp| && |out1| == |out| && ioff + done + n <= |inp| && ooff + done + n <= |out|
    requires out1[ooff + done..ooff + done + n] == BlockOut(op, c, n, iv, inp[ioff + done..ioff + done + n])
    requires iv1 == BlockIv(op, c, n, iv, inp[ioff + done..ioff + done + n])
    requires out1[..ooff + done] == out[..ooff + done] && out1[ooff + done + n..] == out[ooff + done + n..]
    requires inp1[ioff + done + n..] == inp[ioff + done + n..]
    ensures Streamed(op, c, n, v, inp0, out0, ioff, ooff, done + n, inp1, out1, iv1)
  {
    hide *;
    StreamedIs(op, c, n, v, inp0, out0, ioff, ooff, done, inp, out, iv);
    var s0, b := inp0[ioff..ioff + done], inp0[ioff + done..ioff + done + n];
    BlockAt(inp, inp0, ioff + done, n);
    OutAppend(op, c, n, v, s0, b);
    OneBlock(op, c, n, iv, b);
    SliceNext(inp0, ioff, done, n);
    OutputNext(out, out1, out0, ooff, done, n);
    RestNext(inp, inp1, inp0, ioff + done, n);
    WholeOne(done, n);
    StreamedFrom(op, c, n, v, inp0, out0, ioff, ooff, done + n, inp1, out1, iv1);
  }

  lemma StreamedFrom(op: Operation, c: Cipher, n: nat, v: Bytes, inp0: Bytes, out0: Bytes, ioff: nat, ooff: nat,
                     done: nat, inp: Bytes, out: Bytes, iv: Bytes)
    requires Keeps(c, n) && n > 0 && |v| == n && Whole(done, n)
    requires |inp| == |inp0| && |out| == |out0| && ioff + done <= |inp| && ooff + done <= |out|
    requires out[ooff..ooff + done] == Out(op, c, n, v, inp0[ioff..ioff + done])
    requires iv == Chain(op, c, n, v, inp0[ioff..ioff + done])
    requires out[..ooff] == out0[..ooff] && out[ooff + done..] == out0[ooff + done..]
    requires inp[ioff + done..] == inp0[ioff + done..]
    ensures Streamed(op, c, n, v, inp0, out0, ioff, ooff, done, inp, out, iv)
  {
    hide Out, Chain, Keeps, Whole;
  }

  /** cbc_func: length bytes, a whole number of blocks; input and output may be the same */
  method CbcFunc(op: Operation, c: Cipher, n: nat, length: nat, iv: array<bv8>, input: array<bv8>, ioff: nat,
                 output: array<bv8>, ooff: nat)
    requires Keeps(c, n) && 0 < n <= iv.Length && iv != input && iv != output && (input == output ==> ioff == ooff)
    requires Whole(length, n) && ioff + length <= input.Length && ooff + length <= output.Length
    modifies iv, output
    ensures output[ooff..ooff + length] == Out(op, c, n, old(iv[..n]), old(input[ioff..ioff + length]))
    ensures output[..ooff] == old(output[..ooff]) && output[ooff + length..] == old(output[ooff + length..])
    ensures iv[..n] == Chain(op, c, n, old(iv[..n]), old(input[ioff..ioff + length]))
  {
    hide *;
    ghost var v, inp0, out0 := iv[..n], input[..], output[..];
    StreamedNone(op, c, n, v, inp0, out0, ioff, ooff);
    WholeZero(n);
    var left, done := length, 0;
    while left > 0
      invariant 0 <= left <= length && done == length - left && Whole(left, n)
      invariant Streamed(op, c, n, v, inp0, out0, ioff, ooff, done, input[..], output[..], iv[..n])
    {
      if left < n { WholeSmall(left, n); }
      WholeMinus(left, n);
      ghost var inp, out, v1 := input[..], output[..], iv[..n];
      CbcBlock(op, c, n, iv, input, ioff + done, output, ooff + done);
      assert input != output ==> input[..] == inp;
      StreamedNext(op, c, n, v, inp0, out0, ioff, ooff, done, inp, out, v1, input[..], output[..], iv[..n]);
      left := left - n;
      done := done + n;
    }
    StreamedIs(op, c, n, v, inp0, out0, ioff, ooff, done, input[..], output[..], iv[..n]);
    assert inp0[ioff..ioff + length] == old(input[ioff..ioff + length]);
  }

  lemma BlockAt(rest: Bytes, all: Bytes, at: nat, n: nat)
    requires at + n <= |all| == |rest| && rest[at..] == all[at..]
    ensures rest[at..at + n] == all[at..at + n]
  {
    assert rest[at..at + n] == rest[at..][..n] && all[at..at + n] == all[at..][..n];
  }

  lemma RestNext(rest: Bytes, now: Bytes, all: Bytes, at: nat, n: nat)
    requires at + n <= |all| == |rest| == |now| && rest[at..] == all[at..] && now[at + n..] == rest[at + n..]
    ensures now[at + n..] == all[at + n..]
  {
    assert rest[at + n..] == rest[at..][n..] && all[at + n..] == all[at..][n..];
  }

  lemma WholeZero(n: nat)
    requires n > 0
    ensures Whole(0, n)
  {
    DivModSmall(0, n);
  }

  lemma WholeOne(s: nat, n: nat)
    requires n > 0 && Whole(s, n)
    ensures Whole(s + n, n)
  {
    DivModUnique(n, n, 1, 0);
    WholePlus(s, n, n);
  }

  lemma SliceNext(a: Bytes, off: nat, done: nat, n: nat)
    requires off + done + n <= |a|
    ensures a[off..off + (done + n)] == a[off..off + done] + a[off + done..off + done + n]
  {}

  lemma OutputNext(was: Bytes, now: Bytes, out: Bytes, off: nat, done: nat, n: nat)
    requires off + done + n <= |now| && |was| == |now| == |out|
    requires now[..off + done] == was[..off + done] && now[off + done + n..] == was[off + done + n..]
    requires was[..off] == out[..off] && was[off + done..] == out[off + done..]
    ensures now[off..off + (done + n)] == was[off..off + done] + now[off + done..off + done + n]
    ensures now[..off] == out[..off] && now[off + (done + n)..] == out[off + (done + n)..]
  {
    assert now[..off] == now[..off + done][..off] && was[..off] == was[..off + done][..off];
    assert now[off..off + done] == now[..off + done][off..] && was[off..off + done] == was[..off + done][off..];
    assert was[off + done..][n..] == was[off + done + n..] && out[off + done..][n..] == out[off + done + n..];
    SliceNext(now, off, done, n);
  }

  // ----- The cache ------------------------------------------------------------------------

  /** How many bytes of the len seen so far are held back: an incomplete block, and when a padding
      is to be removed always the last block as well. */
  ghost function Held(hold: bool, n: nat, len: nat): (h: nat)
    requires n > 0
    ensures h <= len
  {
    HeldBounds(n, len);
    if hold then if len == 0 then 0 else (len - 1) % n + 1 else len % n
  }

  lemma HeldBounds(n: nat, len: nat)
    requires n > 0
    ensures 0 <= len % n <= len && (len > 0 ==> 0 <= (len - 1) % n < len)
  {
    ModLe(len, n);
    if len > 0 { ModLe(len - 1, n); }
  }

  lemma ModLe(x: nat, n: nat)
    requires n > 0
    ensures 0 <= x % n <= x && x % n < n
  {
    DivNonNeg(x, n);
    MulNonNeg(n, x / n);
  }

  /** The rest is whole blocks. */
  lemma HeldRest(hold: bool, n: nat, len: nat)
    requires n > 0
    ensures Whole(len - Held(hold, n, len), n)
    ensures Held(hold, n, len) <= n && (!hold ==> Held(hold, n, len) < n)
  {
    if hold && len > 0 {
      ModLe(len - 1, n);
      DivModUnique(len - 1 - (len - 1) % n, n, (len - 1) / n, 0);
    } else if hold {
      WholeZero(n);
    } else {
      ModLe(len, n);
      DivModUnique(len - len % n, n, len / n, 0);
    }
  }

  /** Whole blocks that have gone do not matter for what is held back of the rest. */
  lemma HeldShift(hold: bool, n: nat, w: nat, t: nat)
    requires n > 0 && Whole(w, n) && (hold ==> t > 0)
    ensures Held(hold, n, w + t) == Held(hold, n, t)
  {
    if hold { WholePlus(w, t - 1, n); } else { WholePlus(w, t, n); }
  }

  lemma HeldSmall(hold: bool, n: nat, t: nat)
    requires n > 0 && (if hold then t <= n else t < n)
    ensures Held(hold, n, t) == t
  {
    if hold && t > 0 { DivModSmall(t - 1, n); } else { DivModSmall(t, n); }
  }

  /** The code's way to compute it for a non-empty rest: the remainder, or a whole block for none. */
  lemma HeldComputed(hold: bool, n: nat, t: nat)
    requires n > 0 && t > 0
    ensures Held(hold, n, t) == if t % n == 0 && hold then n else t % n
  {
    ModLe(t, n);
    if hold {
      if t % n == 0 {
        DivModUnique(t - 1, n, t / n - 1, n - 1);
      } else {
        DivModUnique(t - 1, n, t / n, t % n - 1);
      }
    }
  }

  /** The state after all the input seen: its whole blocks have gone through CBC, the rest is cached. */
  ghost predicate Tracks(op: Operation, c: Cipher, n: nat, hold: bool, iv0: Bytes, seen: Bytes, emitted: Bytes,
                         iv: Bytes, cache: Bytes)
    requires n > 0
  {
    var h := Held(hold, n, |seen|);
    && Keeps(c, n) && |iv0| == n
    && cache == seen[|seen| - h..]
    && emitted == Out(op, c, n, iv0, seen[..|seen| - h])
    && iv == Chain(op, c, n, iv0, seen[..|seen| - h])
  }

  /** Two strings with the same split into whole blocks and rest. */
  lemma TracksIs(op: Operation, c: Cipher, n: nat, hold: bool, iv0: Bytes, seen: Bytes, emitted: Bytes, iv: Bytes,
                 cache: Bytes, w: Bytes)
    requires n > 0 && Keeps(c, n) && |iv0| == n
    requires seen == w + cache && |cache| == Held(hold, n, |seen|)
    ensures Tracks(op, c, n, hold, iv0, seen, emitted, iv, cache)
       <==> emitted == Out(op, c, n, iv0, w) && iv == Chain(op, c, n, iv0, w)
  {
    hide Out, Chain, Keeps, Held;
    assert seen[|seen| - |cache|..] == cache && seen[..|seen| - |cache|] == w;
  }

  lemma TracksParts(op: Operation, c: Cipher, n: nat, hold: bool, iv0: Bytes, seen: Bytes, emitted: Bytes, iv: Bytes,
                    cache: Bytes)
    returns (w: Bytes)
    requires n > 0 && Tracks(op, c, n, hold, iv0, seen, emitted, iv, cache)
    ensures Keeps(c, n) && |iv0| == n && |iv| == n && seen == w + cache && |cache| == Held(hold, n, |seen|)
    ensures Whole(|w|, n) && emitted == Out(op, c, n, iv0, w) && iv == Chain(op, c, n, iv0, w)
    ensures |cache| <= n && (!hold ==> |cache| < n)
  {
    HeldRest(hold, n, |seen|);
    hide Out, Chain, Keeps, Held;
    w := seen[..|seen| - |cache|];
  }

  /** More input that stays in the cache. */
  lemma CacheMore(op: Operation, c: Cipher, n: nat, hold: bool, iv0: Bytes, seen: Bytes, emitted: Bytes, iv: Bytes,
                  cache: Bytes, s: Bytes)
    requires n > 0 && Tracks(op, c, n, hold, iv0, seen, emitted, iv, cache)
    requires if hold then |s| <= n - |cache| else |s| < n - |cache|
    ensures Tracks(op, c, n, hold, iv0, seen + s, emitted, iv, cache + s)
  {
    hide *;
    var w := TracksParts(op, c, n, hold, iv0, seen, emitted, iv, cache);
    var t := cache + s;
    HeldSmall(hold, n, |t|);
    if hold && |t| == 0 {
      assert seen + s == seen && t == cache;
    } else {
      HeldShift(hold, n, |w|, |t|);
      JoinParts(w, cache, s);
      TracksIs(op, c, n, hold, iv0, seen + s, emitted, iv, t, w);
    }
  }

  /** The cached block and whole blocks of the input go out, the end of the input is cached. */
  lemma BlocksOut(op: Operation, c: Cipher, n: nat, hold: bool, iv0: Bytes, seen: Bytes, emitted: Bytes, iv: Bytes,
                  cache: Bytes, a: Bytes, m: Bytes, r: Bytes)
    requires n > 0 && Tracks(op, c, n, hold, iv0, seen, emitted, iv, cache)
    requires Whole(|cache + a|, n) && Whole(|m|, n) && |r| == Held(hold, n, |m + r|) && (hold ==> |m + r| > 0)
    ensures Keeps(c, n) && |iv| == n
    ensures (var x := Chain(op, c, n, iv, cache + a);
      Tracks(op, c, n, hold, iv0, seen + (a + m + r),
        emitted + Out(op, c, n, iv, cache + a) + Out(op, c, n, x, m), Chain(op, c, n, x, m), r))
  {
    hide *;
    var w := TracksParts(op, c, n, hold, iv0, seen, emitted, iv, cache);
    var b := cache + a;
    OutAppend(op, c, n, iv0, w, b);
    WholePlus(|w|, |b|, n);
    OutAppend(op, c, n, iv0, w + b, m);
    HeldShift(hold, n, |w + b|, |m + r|);
    FourParts(seen, w, cache, a, m, r);
    TracksIs(op, c, n, hold, iv0, seen + (a + m + r),
      emitted + Out(op, c, n, iv, b) + Out(op, c, n, Chain(op, c, n, iv, b), m),
      Chain(op, c, n, Chain(op, c, n, iv, b), m), r, w + b + m);
  }

  lemma FourParts(seen: Bytes, w: Bytes, cache: Bytes, a: Bytes, m: Bytes, r: Bytes)
    requires seen == w + cache
    ensures seen + (a + m + r) == (w + (cache + a) + m) + r
    ensures |seen + (a + m + r)| == |w + (cache + a)| + |m + r|
  {}

  // ----- The context ----------------------------------------------------------------------

  /** MBEDTLS_ERR_CIPHER_FEATURE_UNAVAILABLE, _BAD_INPUT_DATA, _FULL_BLOCK_EXPECTED */
  const FEATURE_UNAVAILABLE: int := -0x6080
  const BAD_INPUT_DATA: int := -0x6100
  const FULL_BLOCK_EXPECTED: int := -0x6280

  /** The CBC part of mbedtls_cipher_context_t after the key and the padding have been set.
      Ghost fields keep the IV of the message, all input seen and all output produced. */
  class Context {
    const n: nat
    const op: Operation
    const padding: Padding
    const cipher: Cipher
    const unprocessed: array<bv8>
    const iv: array<bv8>
    var unprocessedLen: nat
    ghost var iv0: Bytes
    ghost var seen: Bytes
    ghost var emitted: Bytes

    constructor (op: Operation, padding: Padding, cipher: Cipher, n: nat)
      requires 0 < n <= 16 && Keeps(cipher, n)
      ensures Valid() && fresh(iv) && fresh(unprocessed) && seen == [] && emitted == [] && iv0 == Nulls(n)
      ensures this.op == op && this.padding == padding && this.cipher == cipher && this.n == n
    {
      this.n, this.op, this.padding, this.cipher, iv0 := n, op, padding, cipher, Nulls(n);
      unprocessed := new bv8[16](_ => 0);
      iv := new bv8[n](_ => 0);
      unprocessedLen := 0;
      seen, emitted := [], [];
      new;
      assert iv[..n] == iv0;
      OutNone(op, cipher, n, iv0);
      DivModSmall(0, n);
    }

    ghost predicate Shape()
    {
      0 < n <= 16 && unprocessed.Length == 16 && iv.Length == n && iv != unprocessed && Keeps(cipher, n)
    }

    /** mbedtls_cipher_set_iv: too long and too short IVs are refused. Before any input it starts the message. */
    method SetIv(ivIn: array<bv8>, ivLen: nat) returns (ret: int)
      requires Shape() && ivLen <= ivIn.Length && ivIn != iv && ivIn != unprocessed
      modifies this`iv0, iv
      ensures ret == if ivLen > 16 then FEATURE_UNAVAILABLE else if n > ivLen then BAD_INPUT_DATA else 0
      ensures iv[..n] == if ret == 0 then ivIn[..n] else old(iv[..n])
      ensures old(Valid()) && (ret != 0 || seen == []) ==> Valid()
      ensures iv0 == if ret == 0 then ivIn[..n] else old(iv0)
    {
      hide *;
      ShapeIs();
      SetIvCodes();
      if ivLen > 16 { return FEATURE_UNAVAILABLE; }
      if n > ivLen { return BAD_INPUT_DATA; }
      ValidIs();
      ghost var valid := Valid();
      if valid && seen == [] {
        NothingSeen(op, cipher, n, Hold(), iv0, ivIn[..n], emitted, iv[..n], unprocessed[..unprocessedLen]);
      }
      CopyBlock(iv, 0, ivIn, 0, n);
      assert iv[..n] == iv[0..0 + n] && ivIn[..n] == ivIn[0..0 + n];
      iv0 := ivIn[..n];
      if valid && seen == [] { ValidIs(); }
      return 0;
    }

    /** mbedtls_cipher_reset: drops the cache, and a message starts with the IV that is set. */
    method Reset()
      requires Shape()
      modifies this
      ensures Valid() && iv0 == iv[..n] && seen == [] && emitted == []
    {
      hide *;
      ShapeIs();
      unprocessedLen := 0;
      iv0, seen, emitted := iv[..n], [], [];
      OutNone(op, cipher, n, iv0);
      HeldSmall(Hold(), n, 0);
      TracksIs(op, cipher, n, Hold(), iv0, seen, emitted, iv[..n], unprocessed[..0], []);
      ValidIs();
    }

    lemma ShapeIs()
      ensures Shape() <==>
        0 < n <= 16 && unprocessed.Length == 16 && iv.Length == n && iv != unprocessed && Keeps(cipher, n)
    {
      hide Keeps;
    }

    ghost predicate Hold()
    {
      op == Decrypt && padding != NoPadding
    }

    ghost predicate Valid()
      reads this, unprocessed, iv
    {
      && Shape()
      && unprocessedLen == Held(Hold(), n, |seen|) && unprocessedLen <= n
      && Tracks(op, cipher, n, Hold(), iv0, seen, emitted, iv[..n], unprocessed[..unprocessedLen])
    }

    lemma ValidIs()
      ensures Valid() <==>
        && Shape()
        && unprocessedLen == Held(Hold(), n, |seen|) && unprocessedLen <= n
        && Tracks(op, cipher, n, Hold(), iv0, seen, emitted, iv[..n], unprocessed[..unprocessedLen])
      ensures Hold() == (op == Decrypt && padding != NoPadding)
      ensures Shape() ==>
        0 < n <= 16 && unprocessed.Length == 16 && iv.Length == n && iv != unprocessed && Keeps(cipher, n)
    {
      hide Held, Tracks, Keeps;
    }

    /** mbedtls_cipher_update, the CBC branch. Input and output may be the same for whole blocks when nothing is
        cached. */
    method Update(input: array<bv8>, ilen0: nat, output: array<bv8>) returns (ret: int, olen: nat)
      requires Valid() && ilen0 <= input.Length && ilen0 + n <= output.Length
      requires input != iv && input != unprocessed && output != iv && output != unprocessed
      modifies this, iv, unprocessed, output
      ensures ret == if input == output && (old(unprocessedLen) != 0 || ilen0 % n != 0) then BAD_INPUT_DATA else 0
      ensures Valid() && iv0 == old(iv0) && olen <= ilen0 + n && output[olen..] == old(output[olen..])
      ensures ret != 0 ==> seen == old(seen) && emitted == old(emitted) && olen == 0
      ensures ret == 0 ==> seen == old(seen) + old(input[..ilen0]) && emitted == old(emitted) + output[..olen]
    {
      hide *;
      ValidIs();
      SetIvCodes();
      if input == output && (unprocessedLen != 0 || ilen0 % n != 0) { return BAD_INPUT_DATA, 0; }
      ghost var cache, v, all := unprocessed[..unprocessedLen], iv[..n], input[..ilen0];
      ghost var w := TracksParts(op, cipher, n, Hold(), iv0, seen, emitted, v, cache);
      if (op == Decrypt && padding != NoPadding && ilen0 <= n - unprocessedLen)
         || (op == Decrypt && padding == NoPadding && ilen0 < n - unprocessedLen)
         || (op == Encrypt && ilen0 < n - unprocessedLen) {
        CacheMore(op, cipher, n, Hold(), iv0, seen, emitted, v, cache, all);
        CopyBlock(unprocessed, unprocessedLen, input, 0, ilen0);
        CacheGrown(unprocessed[..], cache, input[..], ilen0, unprocessedLen);
        HeldOf(op, cipher, n, Hold(), iv0, seen + all, emitted, v, cache + all);
        unprocessedLen := unprocessedLen + ilen0;
        seen := seen + all;
        emitted := emitted + output[..0];
        assert emitted == old(emitted);
        ValidIs();
        return 0, 0;
      }
      unprocessedLen, olen := ProcessInput(op, padding, cipher, n, unprocessed, unprocessedLen, iv, input, ilen0,
                                           output, iv0, seen, emitted);
      seen := seen + all;
      emitted := emitted + output[..olen];
      ValidIs();
      HeldOf(op, cipher, n, Hold(), iv0, seen, emitted, iv[..n], unprocessed[..unprocessedLen]);
      return 0, olen;
    }

    /** mbedtls_cipher_finish, the CBC branch */
    method Finish(output: array<bv8>) returns (ret: int, olen: nat)
      requires Valid() && output != iv && output != unprocessed && output.Length >= n
      modifies this`emitted, iv, unprocessed, output
      ensures seen == old(seen) && iv0 == old(iv0) && Shape() && Keeps(cipher, n)
      ensures ret == 0 ==> olen <= n && emitted == old(emitted) + output[..olen]
      ensures ret != 0 ==> emitted == old(emitted)
      ensures ret == FULL_BLOCK_EXPECTED ==> Valid() && olen == 0 && output[..] == old(output[..])
      ensures ret == INVALID_PADDING ==> olen == LengthLeft(padding, output[..n])
      ensures op == Encrypt ==>
        && ret == (if padding == NoPadding && |seen| % n != 0 then FULL_BLOCK_EXPECTED else 0)
        && (ret == 0 ==> emitted == Out(Encrypt, cipher, n, iv0, PaddedMessage(padding, n, seen)))
      ensures op == Decrypt ==>
        && ret == (match Received(padding, cipher, n, iv0, seen)
                   case Message(_) => 0
                   case NotWhole => FULL_BLOCK_EXPECTED
                   case BadPadding => INVALID_PADDING)
        && (ret == 0 ==> Received(padding, cipher, n, iv0, seen) == Message(emitted))
    {
      hide *;
      ValidIs();
      ghost var cache, v := unprocessed[..unprocessedLen], iv[..n];
      ghost var w := TracksParts(op, cipher, n, Hold(), iv0, seen, emitted, v, cache);
      HeldIs(Hold(), n, |seen|);
      WholePlus(|w|, |cache|, n);
      FinishCodes();
      OutNone(op, cipher, n, v);
      if op == Encrypt {
        if padding == NoPadding {
          PaddedIs(padding, n, seen);
          if unprocessedLen != 0 { return FULL_BLOCK_EXPECTED, 0; }
          assert cache == [] && seen == w;
          emitted := emitted + output[..0];
          assert emitted == old(emitted);
          return 0, 0;
        }
        LastEncrypted(padding, cipher, n, iv0, seen, emitted, v, w, cache);
        AddPadding(padding, unprocessed, n, unprocessedLen);
      } else if n != unprocessedLen {
        NotFull(padding, cipher, n, iv0, seen, emitted, v, w, cache);
        if padding == NoPadding && unprocessedLen == 0 {
          emitted := emitted + output[..0];
          assert emitted == old(emitted);
          return 0, 0;
        }
        return FULL_BLOCK_EXPECTED, 0;
      } else {
        LastDecrypted(padding, cipher, n, iv0, seen, emitted, v, w, cache);
      }
      WholeZero(n);
      WholeOne(0, n);
      assert unprocessed[0..0 + n] == unprocessed[..n];
      CbcFunc(op, cipher, n, n, iv, unprocessed, 0, output, 0);
      assert output[0..0 + n] == output[..n];
      if op == Decrypt {
        ret, olen := GetPadding(padding, output, n);
        if ret == 0 {
          emitted := emitted + output[..olen];
          assert output[..olen] == output[..n][..olen];
        }
        return;
      }
      emitted := emitted + output[..n];
      return 0, n;
    }
  }

  // ----- Whole messages -------------------------------------------------------------------

  /** What an encryption runs through CBC in all */
  function PaddedMessage(m: Padding, n: nat, p: Bytes): Bytes
    requires 0 < n <= 16
  {
    ModLe(|p|, n);
    if m == NoPadding then p else p + PadBytes(m, n, |p| % n)
  }

  lemma PaddedIs(m: Padding, n: nat, p: Bytes)
    requires 0 < n <= 16
    ensures m == NoPadding ==> PaddedMessage(m, n, p) == p
  {
    hide PadBytes;
  }

  datatype Receipt = Message(text: Bytes) | NotWhole | BadPadding

  /** What a decryption is to deliver for a whole ciphertext */
  ghost function Received(m: Padding, c: Cipher, n: nat, iv: Bytes, s: Bytes): Receipt
    requires 0 < n <= 16 && Keeps(c, n) && |iv| == n
  {
    if |s| % n != 0 then NotWhole
    else
      OutLength(Decrypt, c, n, iv, s);
      var p := Out(Decrypt, c, n, iv, s);
      if m == NoPadding then Message(p)
      else if s == [] then NotWhole
      else
        LastBlock(|s|, n);
        match Unpad(m, p[|p| - n..])
        case Ok(k) => Message(p[..|p| - n] + p[|p| - n..][..k])
        case Invalid => BadPadding
  }

  lemma LastBlock(s: nat, n: nat)
    requires n > 0 && s % n == 0 && s > 0
    ensures s >= n
  {
    if s < n { DivModSmall(s, n); }
  }

  method AddPadding(m: Padding, a: array<bv8>, n: nat, len: nat)
    requires m != NoPadding && len < n <= 16 && n <= a.Length
    modifies a
    ensures a[..n] == old(a[..len]) + PadBytes(m, n, len)
  {
    hide *;
    match m
    case Pkcs7 => AddPkcs7(a, n, len);
    case OneAndZeros => AddOneAndZeros(a, n, len);
    case ZerosAndLen => AddZerosAndLen(a, n, len);
    case Zeros => AddZeros(a, n, len);
  }

  method GetPadding(m: Padding, a: array<bv8>, n: nat) returns (ret: int, len: nat)
    requires m != NoPadding && 0 < n <= 16 && n <= a.Length
    ensures ret == if Unpad(m, a[..n]).Ok? then 0 else INVALID_PADDING
    ensures len == LengthLeft(m, a[..n])
    ensures ret == 0 ==> Unpad(m, a[..n]) == Ok(len) && len <= n
  {
    hide *;
    FinishCodes();
    LengthLeftIs(m, a[..n]);
    match m {
      case Pkcs7 => ret, len := GetPkcs7(a, n);
      case OneAndZeros => ret, len := GetOneAndZeros(a, n);
      case ZerosAndLen => ret, len := GetZerosAndLen(a, n);
      case Zeros => ret, len := GetZeros(a, n);
    }
  }

  lemma SetIvCodes()
    ensures FEATURE_UNAVAILABLE == -0x6080 && BAD_INPUT_DATA == -0x6100
  {}

  /** Before any input a message may start with any IV. */
  lemma NothingSeen(op: Operation, c: Cipher, n: nat, hold: bool, iv0: Bytes, iv1: Bytes, emitted: Bytes, iv: Bytes,
                    cache: Bytes)
    requires n > 0 && |iv1| == n && Tracks(op, c, n, hold, iv0, [], emitted, iv, cache)
    ensures Tracks(op, c, n, hold, iv1, [], emitted, iv1, cache)
  {
    hide *;
    var w := TracksParts(op, c, n, hold, iv0, [], emitted, iv, cache);
    assert w == [] && cache == [];
    OutNone(op, c, n, iv0);
    OutNone(op, c, n, iv1);
    TracksIs(op, c, n, hold, iv1, [], emitted, iv1, cache, []);
  }

  lemma FinishCodes()
    ensures FULL_BLOCK_EXPECTED == -0x6280 && INVALID_PADDING == -0x6200
  {}

  lemma HeldIs(hold: bool, n: nat, len: nat)
    requires n > 0
    ensures !hold ==> Held(hold, n, len) == len % n
    ensures hold && len == 0 ==> Held(hold, n, len) == 0
    ensures hold ==> (Held(hold, n, len) == n <==> len > 0 && len % n == 0)
  {
    if len > 0 { HeldComputed(hold, n, len); }
    ModLe(len, n);
  }

  /** Encryption: the cached bytes and their padding are the last block. */
  lemma LastEncrypted(m: Padding, c: Cipher, n: nat, iv0: Bytes, seen: Bytes, emitted: Bytes, v: Bytes, w: Bytes,
                      cache: Bytes)
    requires 0 < n <= 16 && Keeps(c, n) && |iv0| == n && |v| == n && m != NoPadding
    requires seen == w + cache && Whole(|w|, n) && |cache| == |seen| % n && |cache| < n
    requires emitted == Out(Encrypt, c, n, iv0, w) && v == Chain(Encrypt, c, n, iv0, w)
    ensures Out(Encrypt, c, n, iv0, PaddedMessage(m, n, seen)) ==
      emitted + Out(Encrypt, c, n, v, cache + PadBytes(m, n, |cache|))
  {
    hide Out, Chain, Keeps, PadBytes, Whole;
    OutAppend(Encrypt, c, n, iv0, w, cache + PadBytes(m, n, |cache|));
    JoinParts(w, cache, PadBytes(m, n, |cache|));
  }

  lemma ReceivedIs(m: Padding, c: Cipher, n: nat, iv: Bytes, s: Bytes)
    requires 0 < n <= 16 && Keeps(c, n) && |iv| == n
    ensures |s| % n != 0 ==> Received(m, c, n, iv, s) == NotWhole
    ensures |s| % n == 0 && m == NoPadding ==> Received(m, c, n, iv, s) == Message(Out(Decrypt, c, n, iv, s))
    ensures s == [] && m != NoPadding ==> Received(m, c, n, iv, s) == NotWhole
  {
    hide Out, Keeps, Unpad;
  }

  lemma NotFull(m: Padding, c: Cipher, n: nat, iv0: Bytes, seen: Bytes, emitted: Bytes, v: Bytes, w: Bytes,
                cache: Bytes)
    requires 0 < n <= 16 && Keeps(c, n) && |iv0| == n && |cache| != n
    requires |cache| == Held(m != NoPadding, n, |seen|)
    requires seen == w + cache && Whole(|w|, n) && emitted == Out(Decrypt, c, n, iv0, w)
    ensures Received(m, c, n, iv0, seen) == if m == NoPadding && cache == [] then Message(emitted) else NotWhole
  {
    hide Out, Keeps, Unpad, Received, Held;
    HeldIs(m != NoPadding, n, |seen|);
    ReceivedIs(m, c, n, iv0, seen);
    if m == NoPadding && cache == [] { assert seen == w; }
  }

  lemma ReceivedPadded(m: Padding, c: Cipher, n: nat, iv: Bytes, s: Bytes, body: Bytes, last: Bytes)
    requires 0 < n <= 16 && Keeps(c, n) && |iv| == n && m != NoPadding
    requires Whole(|s|, n) && s != [] && Out(Decrypt, c, n, iv, s) == body + last && |last| == n
    ensures Received(m, c, n, iv, s) ==
      match Unpad(m, last)
      case Ok(k) => Message(body + last[..k])
      case Invalid => BadPadding
  {
    hide Out, Keeps, Unpad;
    OutLength(Decrypt, c, n, iv, s);
    LastBlock(|s|, n);
    var p := body + last;
    assert p[..|p| - n] == body && p[|p| - n..] == last;
  }

  lemma WholeBlock(n: nat)
    requires n > 0
    ensures Whole(n, n)
  {
    hide *;
    WholeZero(n);
    WholeOne(0, n);
  }

  /** Decryption: the held block is the last one, and its padding decides. */
  lemma LastDecrypted(m: Padding, c: Cipher, n: nat, iv0: Bytes, seen: Bytes, emitted: Bytes, v: Bytes, w: Bytes,
                      cache: Bytes)
    requires 0 < n <= 16 && Keeps(c, n) && |iv0| == n && |v| == n && m != NoPadding
    requires seen == w + cache && Whole(|w|, n) && |cache| == n
    requires emitted == Out(Decrypt, c, n, iv0, w) && v == Chain(Decrypt, c, n, iv0, w)
    ensures |Out(Decrypt, c, n, v, cache)| == n
    ensures Received(m, c, n, iv0, seen) ==
      match Unpad(m, Out(Decrypt, c, n, v, cache))
      case Ok(k) => Message(emitted + Out(Decrypt, c, n, v, cache)[..k])
      case Invalid => BadPadding
  {
    hide *;
    WholeBlock(n);
    WholePlus(|w|, n, n);
    OutAppend(Decrypt, c, n, iv0, w, cache);
    OutLength(Decrypt, c, n, v, cache);
    ReceivedPadded(m, c, n, iv0, seen, emitted, Out(Decrypt, c, n, v, cache));
  }

  /** What the other side gets from an encrypted message */
  ghost function Delivered(m: Padding, c: Cipher, n: nat, iv: Bytes, p: Bytes): Receipt
    requires 0 < n <= 16 && ValidCipher(c, n) && |iv| == n
  {
    ValidKeeps(c, n);
    Received(m, c, n, iv, Out(Encrypt, c, n, iv, PaddedMessage(m, n, p)))
  }

  lemma DeliveredIs(m: Padding, c: Cipher, n: nat, iv: Bytes, p: Bytes)
    requires 0 < n <= 16 && ValidCipher(c, n) && |iv| == n
    ensures Keeps(c, n)
    ensures Delivered(m, c, n, iv, p) == Received(m, c, n, iv, Out(Encrypt, c, n, iv, PaddedMessage(m, n, p)))
  {
    ValidKeeps(c, n);
    hide Keeps, ValidCipher, Received, Out, PaddedMessage;
  }

  /** Padded and encrypted, then decrypted: the message comes back, for every padding that can be removed. */
  lemma MessageComesBack(m: Padding, c: Cipher, n: nat, iv: Bytes, p: Bytes)
    requires 0 < n <= 16 && ValidCipher(c, n) && |iv| == n
    requires m == Pkcs7 || m == OneAndZeros || m == ZerosAndLen
    ensures Delivered(m, c, n, iv, p) == Message(p)
  {
    hide *;
    var r := |p| % n;
    ModLe(|p|, n);
    PaddingFound(m, p[|p| - r..], n);
    AnyPaddingBack(m, c, n, iv, p, r);
  }

  /** Without padding: a message of whole blocks. */
  lemma UnpaddedComesBack(c: Cipher, n: nat, iv: Bytes, p: Bytes)
    requires 0 < n <= 16 && ValidCipher(c, n) && |iv| == n && Whole(|p|, n)
    ensures Delivered(NoPadding, c, n, iv, p) == Message(p)
  {
    hide *;
    DeliveredIs(NoPadding, c, n, iv, p);
    PaddedIs(NoPadding, n, p);
    OutLength(Encrypt, c, n, iv, p);
    DecryptBlocks(c, n, iv, p);
    WholeIs(|p|, n);
    ReceivedIs(NoPadding, c, n, iv, Out(Encrypt, c, n, iv, p));
  }

  lemma WholeIs(s: nat, n: nat)
    requires n > 0
    ensures Whole(s, n) <==> s % n == 0
  {}

  /** With zero padding it does exactly when it does not end in a zero byte, or ends at a block boundary. */
  lemma ZeroPaddedComesBackIff(c: Cipher, n: nat, iv: Bytes, p: Bytes)
    requires 0 < n <= 16 && ValidCipher(c, n) && |iv| == n
    ensures Delivered(Zeros, c, n, iv, p) == Message(p) <==> p == [] || |p| % n == 0 || p[|p| - 1] != 0
  {
    hide *;
    var r := |p| % n;
    ModLe(|p|, n);
    ZerosFoundIff(p[|p| - r..], n);
    AnyPaddingBack(Zeros, c, n, iv, p, r);
  }

  /** A message that does not: a single zero byte, under every cipher and IV */
  lemma ZeroByteLost(c: Cipher, n: nat, iv: Bytes)
    requires 1 < n <= 16 && ValidCipher(c, n) && |iv| == n
    ensures Delivered(Zeros, c, n, iv, [0]) != Message([0])
  {
    ZeroPaddedComesBackIff(c, n, iv, [0]);
    DivModSmall(1, n);
    hide Delivered, ValidCipher;
  }

  lemma AnyPaddingBack(m: Padding, c: Cipher, n: nat, iv: Bytes, p: Bytes, r: nat)
    requires 0 < n <= 16 && ValidCipher(c, n) && |iv| == n && m != NoPadding && r == |p| % n && r <= |p| && r < n
    ensures var u := Unpad(m, p[|p| - r..] + PadBytes(m, n, r));
      && (u.Invalid? ==> Delivered(m, c, n, iv, p) == BadPadding)
      && (u.Ok? ==> (Delivered(m, c, n, iv, p) == Message(p) <==> u.len == r))
  {
    hide *;
    DeliveredIs(m, c, n, iv, p);
    var q := PaddedMessage(m, n, p);
    var head, last := p[..|p| - r], p[|p| - r..] + PadBytes(m, n, r);
    PaddedParts(m, n, p, r, head);
    OutLength(Encrypt, c, n, iv, q);
    DecryptBlocks(c, n, iv, q);
    ReceivedPadded(m, c, n, iv, Out(Encrypt, c, n, iv, q), head, last);
    var u := Unpad(m, last);
    if u.Ok? { BackIff(p, r, PadBytes(m, n, r), u.len); }
  }

  lemma PaddedParts(m: Padding, n: nat, p: Bytes, r: nat, head: Bytes)
    requires 0 < n <= 16 && m != NoPadding && r == |p| % n && r <= |p| && r < n && head == p[..|p| - r]
    ensures PaddedMessage(m, n, p) == head + (p[|p| - r..] + PadBytes(m, n, r)) && Whole(|PaddedMessage(m, n, p)|, n)
  {
    hide PadBytes, Whole;
    DivModUnique(|p| - r, n, |p| / n, 0);
    WholeIs(|p| - r, n);
    WholeOne(|p| - r, n);
    assert p == head + p[|p| - r..];
    JoinParts(head, p[|p| - r..], PadBytes(m, n, r));
  }

  lemma BackIff(p: Bytes, r: nat, pad: Bytes, k: nat)
    requires r <= |p| && k <= r + |pad|
    ensures p[..|p| - r] + (p[|p| - r..] + pad)[..k] == p <==> k == r
  {
    var back := p[..|p| - r] + (p[|p| - r..] + pad)[..k];
    assert |back| == |p| - r + k;
    if k == r { assert (p[|p| - r..] + pad)[..k] == p[|p| - r..]; }
  }

  lemma HeldOf(op: Operation, c: Cipher, n: nat, hold: bool, iv0: Bytes, seen: Bytes, emitted: Bytes, iv: Bytes,
               cache: Bytes)
    requires n > 0 && Tracks(op, c, n, hold, iv0, seen, emitted, iv, cache)
    ensures |cache| == Held(hold, n, |seen|) <= n
  {
    HeldRest(hold, n, |seen|);
    hide Held, Out, Chain, Keeps;
  }

  lemma CacheGrown(u: Bytes, cache: Bytes, input: Bytes, k: nat, len: nat)
    requires len == |cache| && len + k <= |u| && k <= |input|
    requires u[..len] == cache && u[len..len + k] == input[0..0 + k]
    ensures u[..len + k] == cache + input[..k]
  {
    assert u[..len + k] == u[..len] + u[len..len + k];
  }

  /** Process cached data first: the cached block, if any, is completed from the input and goes through CBC. */
  method FlushCache(op: Operation, c: Cipher, n: nat, unprocessed: array<bv8>, len: nat, iv: array<bv8>,
                    input: array<bv8>, output: array<bv8>)
    returns (olen: nat, copyLen: nat)
    requires Keeps(c, n) && 0 < n <= 16 && unprocessed.Length == 16 && iv.Length == n && iv != unprocessed && len <= n
    requires (len > 0 ==> input != output) && input != iv && input != unprocessed && output != iv
    requires output != unprocessed
    requires n - len <= input.Length && n <= output.Length
    modifies iv, unprocessed, output
    ensures olen == (if len == 0 then 0 else n) && copyLen == if len == 0 then 0 else n - len
    ensures Whole(len + copyLen, n) && output[olen..] == old(output[olen..])
    ensures output[..olen] ==
      Out(op, c, n, old(iv[..n]), old(unprocessed[..len]) + old(input[..if len == 0 then 0 else n - len]))
    ensures iv[..n] ==
      Chain(op, c, n, old(iv[..n]), old(unprocessed[..len]) + old(input[..if len == 0 then 0 else n - len]))
  {
    hide *;
    ghost var cache := unprocessed[..len];
    WholeZero(n);
    olen, copyLen := 0, 0;
    if len != 0 {
      copyLen := n - len;
      CopyBlock(unprocessed, len, input, 0, copyLen);
      CacheGrown(unprocessed[..], cache, input[..], copyLen, len);
      WholeOne(0, n);
      assert unprocessed[0..0 + n] == cache + input[..copyLen];
      CbcFunc(op, c, n, n, iv, unprocessed, 0, output, 0);
      assert output[..n] == output[0..0 + n];
      olen := olen + n;
    } else {
      OutNone(op, c, n, iv[..n]);
      assert cache + input[..copyLen] == [] && output[..olen] == [];
    }
  }

  /** The state after a flushed cache and whole blocks, whatever the input and the output are called. */
  lemma InputTracked(op: Operation, c: Cipher, n: nat, hold: bool, iv0: Bytes, seen: Bytes, emitted: Bytes, v: Bytes,
                     cache: Bytes, a: Bytes, m: Bytes, r: Bytes, seen': Bytes, emitted': Bytes, x: Bytes, y: Bytes)
    requires n > 0 && Tracks(op, c, n, hold, iv0, seen, emitted, v, cache)
    requires Keeps(c, n) && |v| == n && |x| == n
    requires Whole(|cache + a|, n) && Whole(|m|, n) && |r| == Held(hold, n, |m + r|) && (hold ==> |m + r| > 0)
    requires x == Chain(op, c, n, v, cache + a) && y == Chain(op, c, n, x, m)
    requires seen' == seen + (a + m + r)
    requires emitted' == emitted + Out(op, c, n, v, cache + a) + Out(op, c, n, x, m)
    ensures Tracks(op, c, n, hold, iv0, seen', emitted', y, r)
  {
    hide *;
    BlocksOut(op, c, n, hold, iv0, seen, emitted, v, cache, a, m, r);
  }

  /** The part of mbedtls_cipher_update after the caching branch. */
  method ProcessInput(op: Operation, padding: Padding, c: Cipher, n: nat, unprocessed: array<bv8>, len0: nat,
                      iv: array<bv8>, input: array<bv8>, ilen0: nat, output: array<bv8>, ghost iv0: Bytes,
                      ghost seen: Bytes, ghost emitted: Bytes)
    returns (len: nat, olen: nat)
    requires 0 < n <= 16 && unprocessed.Length == 16 && iv.Length == n && iv != unprocessed && len0 <= n
    requires (input == output ==> len0 == 0) && input != iv && input != unprocessed && output != iv
    requires output != unprocessed
    requires ilen0 <= input.Length && ilen0 + n <= output.Length
    requires var hold := op == Decrypt && padding != NoPadding;
      && Tracks(op, c, n, hold, iv0, seen, emitted, iv[..n], unprocessed[..len0])
      && if hold then ilen0 > n - len0 else ilen0 >= n - len0
    modifies iv, unprocessed, output
    ensures len <= 16 && olen <= ilen0 + n && output[olen..] == old(output[olen..])
    ensures var hold := op == Decrypt && padding != NoPadding;
      Tracks(op, c, n, hold, iv0, seen + old(input[..ilen0]), emitted + output[..olen], iv[..n], unprocessed[..len])
  {
    hide *;
    ghost var hold := op == Decrypt && padding != NoPadding;
    ghost var cache, v, inp0, out0 := unprocessed[..len0], iv[..n], input[..], output[..];
    ghost var w := TracksParts(op, c, n, hold, iv0, seen, emitted, v, cache);
    var ioff;
    olen, ioff := FlushCache(op, c, n, unprocessed, len0, iv, input, output);
    ghost var x, out1, a := iv[..n], output[..], inp0[..ioff];
    if len0 == 0 { assert output[..] == output[olen..] == out0; }
    assert input[ioff..ilen0] == inp0[ioff..ilen0];
    ghost var m, r;
    var more;
    len, more, m, r := KeepAndProcess(op, padding, c, n, unprocessed, iv, input, ioff, ilen0 - ioff, output, olen);
    SplitAt(inp0, ioff, ilen0);
    OutputGrown(out0, out1, output[..], olen, more);
    JoinParts(a, m, r);
    JoinParts(emitted, out1[..olen], output[olen..olen + more]);
    InputTracked(op, c, n, hold, iv0, seen, emitted, v, cache, a, m, r, seen + inp0[..ilen0],
                 emitted + output[..olen + more], x, iv[..n]);
    olen := olen + more;
  }

  lemma SplitAt(s: Bytes, k: nat, l: nat)
    requires k <= l <= |s|
    ensures s[..l] == s[..k] + s[k..l]
  {}

  lemma OutputGrown(out0: Bytes, out1: Bytes, out2: Bytes, olen: nat, more: nat)
    requires |out0| == |out1| == |out2| && olen + more <= |out0|
    requires out1[olen..] == out0[olen..] && out2[..olen] == out1[..olen] && out2[olen + more..] == out1[olen + more..]
    ensures out2[..olen + more] == out1[..olen] + out2[olen..olen + more]
    ensures out2[olen + more..] == out0[olen + more..]
  {
    assert out1[olen..][more..] == out1[olen + more..] && out0[olen..][more..] == out0[olen + more..];
    SplitAt(out2, olen, olen + more);
  }

  /** Cache final, incomplete block: the end of the input goes into the cache. */
  method CacheTail(op: Operation, padding: Padding, n: nat, unprocessed: array<bv8>, input: array<bv8>, ioff: nat,
                   ilen: nat)
    returns (len: nat)
    requires 0 < n <= 16 && unprocessed.Length == 16 && input != unprocessed && ioff + ilen <= input.Length
    modifies unprocessed
    ensures len == Held(op == Decrypt && padding != NoPadding, n, ilen) && len <= ilen && len <= 16
    ensures Whole(ilen - len, n) && unprocessed[..len] == input[ioff + ilen - len..ioff + ilen]
  {
    hide *;
    ghost var hold := op == Decrypt && padding != NoPadding;
    len := 0;
    HeldRest(hold, n, ilen);
    HeldIs(hold, n, ilen);
    if ilen != 0 {
      var copyLen := ilen % n;
      ModLe(ilen, n);
      HeldComputed(hold, n, ilen);
      if copyLen == 0 && op == Decrypt && padding != NoPadding {
        copyLen := n;
      }
      CopyBlock(unprocessed, 0, input, ioff + ilen - copyLen, copyLen);
      assert unprocessed[..copyLen] == unprocessed[0..0 + copyLen];
      len := len + copyLen;
    } else {
      ModLe(0, n);
    }
  }

  /** Cache the end of the input and process its remaining full blocks. */
  method KeepAndProcess(op: Operation, padding: Padding, c: Cipher, n: nat, unprocessed: array<bv8>, iv: array<bv8>,
                        input: array<bv8>, ioff: nat, ilen0: nat, output: array<bv8>, ooff: nat)
    returns (len: nat, ilen: nat, ghost m: Bytes, ghost r: Bytes)
    requires Keeps(c, n) && 0 < n <= 16 && unprocessed.Length == 16 && iv.Length == n && iv != unprocessed
    requires (input == output ==> ioff == ooff) && input != iv && input != unprocessed && output != iv
    requires output != unprocessed
    requires ioff + ilen0 <= input.Length && ooff + ilen0 <= output.Length
    modifies iv, unprocessed, output
    ensures len <= 16 && len + ilen == ilen0 && |r| == Held(op == Decrypt && padding != NoPadding, n, ilen0)
    ensures m + r == old(input[ioff..ioff + ilen0]) && |m| == ilen && Whole(ilen, n) && unprocessed[..len] == r
    ensures output[ooff..ooff + ilen] == Out(op, c, n, old(iv[..n]), m) && iv[..n] == Chain(op, c, n, old(iv[..n]), m)
    ensures output[..ooff] == old(output[..ooff]) && output[ooff + ilen..] == old(output[ooff + ilen..])
  {
    hide *;
    ghost var v := iv[..n];
    len := CacheTail(op, padding, n, unprocessed, input, ioff, ilen0);
    ilen := ilen0 - len;
    m, r := input[ioff..ioff + ilen], input[ioff + ilen..ioff + ilen0];
    SplitParts(input[..], ioff, ilen, ilen0);
    OutNone(op, c, n, v);
    if ilen != 0 {
      CbcFunc(op, c, n, ilen, iv, input, ioff, output, ooff);
    } else {
      assert m == [] && output[ooff..ooff] == [];
    }
  }

  lemma SplitParts(s: Bytes, off: nat, k: nat, l: nat)
    requires k <= l && off + l <= |s|
    ensures s[off..off + l] == s[off..off + k] + s[off + k..off + l]
  {}
}
