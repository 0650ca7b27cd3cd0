/** mbedtls_mpi_exp_mod: sliding-window exponentiation in Montgomery form. */
module ExpMods {
  import opened Arith
  import opened Limbs
  import opened Mpis
  import opened Shifts
  import opened AddSubs
  import opened DivMpis
  import opened ConstTime
  import opened Monts
  import opened Primes

  // ----- Montgomery form ------------------------------------------------------------------

  /** inv is an inverse of Weight(n), the Montgomery radix, modulo N. */
  ghost predicate RadixUnit(n: nat, inv: int, N: nat)
    requires N > 0
  {
    Cong(Weight(n) * inv, 1, N)
  }

  /** The Montgomery radix is invertible because the low limb of N is. */
  lemma {:induction false} RadixIsUnit(n: nat, N: seq<Limb>, mm: Limb) returns (inv: int)
    requires |N| > 0 && Cong(mm * N[0], -1, BASE)
    ensures Val(N) > 0 && RadixUnit(n, inv, Val(N))
  {
    hide *;
    ModulusPositive(N, mm);
    if n == 0 {
      inv := 1;
      WeightZero();
      CongSelf(1, Val(N));
      UnitIs(n, inv, Val(N));
    } else {
      var was := RadixIsUnit(n - 1, N, mm);
      UnitIs(n - 1, was, Val(N));
      LowLimbCong(N);
      CongSelf(mm, BASE);
      CongMul(mm, mm, Val(N), N[0], BASE);
      CongTrans(mm * Val(N), mm * N[0], -1, BASE);
      var k := CongTo(mm * Val(N), -1, BASE);
      CongFrom(BASE * k, 1, mm, Val(N));
      CongMul(Weight(n - 1) * was, 1, BASE * k, 1, Val(N));
      WeightNext(n - 1);
      inv := was * k;
      MulSwap(Weight(n - 1), was, BASE, k);
      UnitIs(n, inv, Val(N));
    }
  }

  lemma UnitIs(n: nat, inv: int, N: nat)
    requires N > 0
    ensures RadixUnit(n, inv, N) <==> Cong(Weight(n) * inv, 1, N)
  {}

  /** The limbs p hold g^e in Montgomery form, reduced, with room for the n limbs of N. */
  ghost predicate Form(p: seq<Limb>, g: int, e: nat, n: nat, N: nat)
  {
    n < |p| && Val(p) < N && Cong(Val(p), Pow(g, e) * Weight(n), N)
  }

  /** A Montgomery product divides the radix out of the plain product. */
  lemma MontQuotient(r: nat, x: nat, y: nat, q: int, n: nat, N: nat, inv: int)
    requires IsMontProduct(r, x, y, n, N) && RadixUnit(n, inv, N)
    requires Cong(x * y, q * Weight(n), N)
    ensures r < N && Cong(r, q, N)
  {
    hide Weight, Cong;
    CongTrans(r * Weight(n), x * y, q * Weight(n), N);
    CongCancel(r, q, Weight(n), inv, N);
  }

  /** Products of Montgomery forms add the exponents. */
  lemma FormProduct(r: nat, x: nat, y: nat, g: int, e: nat, f: nat, n: nat, N: nat, inv: int)
    requires IsMontProduct(r, x, y, n, N) && RadixUnit(n, inv, N)
    requires Cong(x, Pow(g, e) * Weight(n), N) && Cong(y, Pow(g, f) * Weight(n), N)
    ensures Cong(r, Pow(g, e + f) * Weight(n), N)
  {
    hide *;
    ProductBelow(r, x, y, n, N);
    PowAdd(g, e, f);
    var w := Weight(n);
    CongMul(x, Pow(g, e) * w, y, Pow(g, f) * w, N);
    ProductOfForms(Pow(g, e), Pow(g, f), w);
    MontQuotient(r, x, y, Pow(g, e + f) * w, n, N, inv);
  }

  lemma ProductOfForms(a: int, b: int, w: int)
    ensures (a * w) * (b * w) == ((a * b) * w) * w
  {}

  /** What a Montgomery multiplication in place leaves when the limbs above n were zero. */
  lemma HighStaysZero(p: seq<Limb>, q: seq<Limb>, n: nat)
    requires n <= |q| == |p| && p[n..] == q[n..] && Val(q) < Weight(n)
    ensures Val(q[..n]) == Val(q) && Val(p) == Val(p[..n])
  {
    hide AllZero, Val, Weight;
    ValHighZero(q, n);
    ValTrim(p, n);
  }

  /** X *= B in Montgomery form; B may be X. */
  method MulForm(X: Mpi, B: Mpi, N: Mpi, mm: Limb, T: Mpi, ghost g: int, ghost e: nat, ghost f: nat)
    requires X != N && X != T && T != B && T != N
    requires |N.p| > 0 && 2 * |N.p| < |T.p| && Cong(mm * N.p[0], -1, BASE)
    requires Form(X.p, g, e, |N.p|, Val(N.p)) && Form(B.p, g, f, |N.p|, Val(N.p))
    modifies X`p, T`p
    ensures |T.p| == |old(T.p)|
    ensures Form(X.p, g, e + f, |N.p|, Val(N.p))
  {
    hide *;
    var n := |N.p|;
    ghost var x, y, vn := X.p, B.p, Val(N.p);
    ghost var inv := RadixIsUnit(n, N.p, mm);
    ValBound(N.p);
    FormIs(x, g, e, n, vn);
    FormIs(y, g, f, n, vn);
    HighStaysZero(x, x, n);
    MontMul(X, B, N, mm, T);
    HighStaysZero(X.p, x, n);
    FormProduct(Val(X.p), Val(x), Val(y), g, e, f, n, vn, inv);
    ProductBelow(Val(X.p), Val(x), Val(y), n, vn);
    FormIs(X.p, g, e + f, n, vn);
  }

  lemma FormIs(p: seq<Limb>, g: int, e: nat, n: nat, N: nat)
    requires N > 0
    ensures Form(p, g, e, n, N) <==> n < |p| && Val(p) < N && Cong(Val(p), Pow(g, e) * Weight(n), N)
  {}

  lemma ProductBelow(r: nat, a: nat, b: nat, n: nat, N: nat)
    requires IsMontProduct(r, a, b, n, N)
    ensures r < N
  {}

  // ----- The table of odd windows ---------------------------------------------------------

  /** The entries are separate objects. */
  ghost predicate Distinct(W: seq<Mpi>)
  {
    forall a, b :: 0 <= a < b < |W| ==> W[a] != W[b]
  }

  method NewTable(size: nat) returns (W: seq<Mpi>)
    ensures |W| == size && Distinct(W) && fresh(W)
    ensures forall k :: 0 <= k < size ==> W[k].p == []
  {
    W := [];
    while |W| < size
      invariant |W| <= size && Distinct(W) && fresh(W)
      invariant forall k :: 0 <= k < |W| ==> W[k].p == []
    {
      var M := new Mpi();
      W := W + [M];
    }
  }

  /** Entry k holds g^k for every k in lo..hi-1. */
  ghost predicate Filled(W: seq<Mpi>, lo: nat, hi: nat, g: int, n: nat, N: nat)
    reads W
  {
    hi <= |W| && forall k :: lo <= k < hi ==> Form(W[k].p, g, k, n, N)
  }

  lemma EntryFilled(W: seq<Mpi>, lo: nat, hi: nat, k: nat, g: int, n: nat, N: nat)
    requires Filled(W, lo, hi, g, n, N) && lo <= k < hi
    ensures k < |W| && Form(W[k].p, g, k, n, N)
  {}

  /** M := Y, grown to hold n + 1 limbs. */
  method CopyForm(M: Mpi, Y: Mpi, ghost g: int, ghost e: nat, n: nat, ghost N: nat)
    requires M != Y && N > 0 && Form(Y.p, g, e, n, N)
    modifies M
    ensures Form(M.p, g, e, n, N)
  {
    hide *;
    FormIs(Y.p, g, e, n, N);
    M.Grow(n + 1);
    M.Copy(Y);
    FormIs(M.p, g, e, n, N);
  }

  /** M := M^(2^k) in Montgomery form */
  method SquareTimes(M: Mpi, k: nat, N: Mpi, mm: Limb, T: Mpi, ghost g: int, ghost e: nat)
    requires M != N && M != T && T != N
    requires |N.p| > 0 && 2 * |N.p| < |T.p| && Cong(mm * N.p[0], -1, BASE)
    requires Form(M.p, g, e, |N.p|, Val(N.p))
    modifies M`p, T`p
    ensures |T.p| == |old(T.p)|
    ensures Form(M.p, g, e * P2(k), |N.p|, Val(N.p))
  {
    hide *;
    P2Zero();
    var i := 0;
    while i < k
      invariant 0 <= i <= k && |T.p| == |old(T.p)|
      invariant Form(M.p, g, e * P2(i), |N.p|, Val(N.p))
    {
      MulForm(M, M, N, mm, T, g, e * P2(i), e * P2(i));
      P2Succ(i);
      assert e * P2(i) + e * P2(i) == e * P2(i + 1);
      i := i + 1;
    }
  }

  /** The precomputation: W[2^(wsize-1)] .. W[2^wsize - 1] from W[1]. */
  method BuildTable(W: seq<Mpi>, wsize: nat, N: Mpi, mm: Limb, T: Mpi, ghost g: int)
    requires Distinct(W) && N !in W && T !in W && T != N
    requires 0 < wsize && |W| >= P2(wsize)
    requires |N.p| > 0 && 2 * |N.p| < |T.p| && Cong(mm * N.p[0], -1, BASE)
    requires |W| > 1 && Form(W[1].p, g, 1, |N.p|, Val(N.p))
    modifies W, T`p
    ensures |T.p| == |old(T.p)| && Form(W[1].p, g, 1, |N.p|, Val(N.p))
    ensures Filled(W, P2(wsize - 1), P2(wsize), g, |N.p|, Val(N.p))
  {
    hide *;
    hide Distinct;
    P2Succ(wsize - 1);
    ModulusPositive(N.p, mm);
    if wsize > 1 {
      var j := P2(wsize - 1);
      PowerRoom(wsize);
      Separate(W, j);
      CopyForm(W[j], W[1], g, 1, |N.p|, Val(N.p));
      SquareTimes(W[j], wsize - 1, N, mm, T, g, 1);
      var i := j + 1;
      OneFilled(W, j, g, |N.p|, Val(N.p));
      while i < P2(wsize)
        invariant j < i <= P2(wsize) && |T.p| == |old(T.p)|
        invariant Form(W[1].p, g, 1, |N.p|, Val(N.p)) && Filled(W, j, i, g, |N.p|, Val(N.p))
      {
        Separate(W, i);
        EntryFilled(W, j, i, i - 1, g, |N.p|, Val(N.p));
        ghost var before := Entries(W);
        AllFilled(W, j, i, g, |N.p|, Val(N.p));
        CopyForm(W[i], W[i - 1], g, i - 1, |N.p|, Val(N.p));
        MulForm(W[i], W[1], N, mm, T, g, i - 1, 1);
        OneMoreFilled(W, before, j, i, g, |N.p|, Val(N.p));
        i := i + 1;
      }
    } else {
      P2Zero();
      OneFilled(W, 1, g, |N.p|, Val(N.p));
    }
  }

  lemma PowerRoom(wsize: nat)
    requires wsize > 1
    ensures 2 <= P2(wsize - 1) < P2(wsize)
  {
    P2Mono(wsize - 1, wsize);
    P2Mono(1, wsize - 1);
  }

  lemma Separate(W: seq<Mpi>, i: nat)
    requires Distinct(W) && i < |W|
    ensures forall k :: 0 <= k < |W| && k != i ==> W[k] != W[i]
  {}

  ghost function Entries(W: seq<Mpi>): (r: seq<seq<Limb>>)
    reads W
    ensures |r| == |W| && forall k :: 0 <= k < |W| ==> r[k] == W[k].p
  {
    seq(|W|, k requires 0 <= k < |W| reads W => W[k].p)
  }

  lemma AllFilled(W: seq<Mpi>, lo: nat, hi: nat, g: int, n: nat, N: nat)
    requires Filled(W, lo, hi, g, n, N)
    ensures hi <= |W| && forall k :: lo <= k < hi ==> Form(Entries(W)[k], g, k, n, N)
  {}

  lemma OneFilled(W: seq<Mpi>, k: nat, g: int, n: nat, N: nat)
    requires k < |W| && Form(W[k].p, g, k, n, N)
    ensures Filled(W, k, k + 1, g, n, N)
  {}

  lemma OneMoreFilled(W: seq<Mpi>, before: seq<seq<Limb>>, lo: nat, i: nat, g: int, n: nat, N: nat)
    requires |before| == |W| && lo <= i < |W|
    requires forall k :: lo <= k < i ==> Form(before[k], g, k, n, N) && W[k].p == before[k]
    requires Form(W[i].p, g, i, n, N)
    ensures Filled(W, lo, i + 1, g, n, N)
  {}

  /** mpi_select: R := W[idx], by a masked assignment from every entry */
  method Select(R: Mpi, W: seq<Mpi>, size: nat, idx: nat)
    requires R !in W && idx < size <= |W| && size <= P2(biL)
    modifies R
    ensures Val(R.p) == Val(W[idx].p) && |R.p| >= |W[idx].p| && |R.p| >= |old(R.p)|
  {
    hide *;
    var i := 0;
    while i < size
      invariant 0 <= i <= size && |R.p| >= |old(R.p)|
      invariant i > idx ==> Val(R.p) == Val(W[idx].p) && |R.p| >= |W[idx].p|
    {
      SizeBoolEqMeaning(i, idx, biL);
      SafeCondAssign(R, W[i], SizeBoolEq(i, idx, biL));
      i := i + 1;
    }
  }

  // ----- The sliding window ---------------------------------------------------------------

  /** The state of the loop after a prefix of the exponent: X holds the power x, the nbits pending
      bits form the number w, kept at the top of a wsize-bit word, and together they make up the
      prefix. State 0 means that only zeros came, state 1 that no window is open, state 2 that
      one is, and then it starts with a one bit. */
  ghost predicate Window(state: nat, nbits: nat, wbits: nat, wsize: nat, x: nat, w: nat, prefix: nat)
  {
    && nbits < wsize && state <= 2
    && w < P2(nbits) && wbits == w * P2(wsize - nbits)
    && prefix == x * P2(nbits) + w
    && (state == 0 ==> prefix == 0)
    && (state == 2 <==> nbits > 0)
    && (nbits > 0 ==> w >= P2(nbits - 1))
  }

  /** A zero bit outside any window doubles the power; before the first one bit it does nothing. */
  lemma ZeroOutside(state: nat, nbits: nat, wbits: nat, wsize: nat, x: nat, w: nat, prefix: nat)
    requires Window(state, nbits, wbits, wsize, x, w, prefix) && state < 2
    ensures Window(state, nbits, wbits, wsize, x + x, w, 2 * prefix)
    ensures state == 0 ==> x == 0
  {
    hide P2;
    P2Zero();
  }

  /** Another bit joins the window. */
  lemma JoinWindow(state: nat, nbits: nat, wbits: nat, wsize: nat, x: nat, w: nat, prefix: nat, ei: nat)
    requires Window(state, nbits, wbits, wsize, x, w, prefix) && ei <= 1 && wsize <= 6
    requires state < 2 ==> ei == 1
    ensures Or(wbits, Shl(ei, wsize - (nbits + 1))) == (2 * w + ei) * P2(wsize - (nbits + 1))
    ensures P2(nbits) <= 2 * w + ei < P2(nbits + 1)
    ensures 2 * prefix + ei == x * P2(nbits + 1) + (2 * w + ei)
  {
    hide *;
    WindowIs(state, nbits, wbits, wsize, x, w, prefix);
    P2Succ(nbits);
    P2Zero();
    if nbits > 0 { P2Succ(nbits - 1); }
    AppendBit(w, wsize - (nbits + 1), ei);
    DoubleProduct(x, P2(nbits));
  }

  lemma DoubleProduct(x: int, d: int)
    ensures 2 * (x * d) == x * (2 * d)
  {}

  lemma AppendBit(w: nat, k: nat, ei: nat)
    requires ei <= 1 && k < 6
    ensures Or(w * P2(k + 1), Shl(ei, k)) == (2 * w + ei) * P2(k)
  {
    hide *;
    ShlBit(ei, k);
    P2Succ(k);
    MultipleOf(w, P2(k + 1));
    MulNonNeg(w, P2(k + 1));
    MulLe(P2(k), ei, 1);
    MulNonNeg(ei, P2(k));
    OrDisjoint(w * P2(k + 1), ei * P2(k), k + 1);
    AppendAlgebra(w, P2(k), ei);
  }

  lemma AppendAlgebra(w: int, d: int, ei: int)
    ensures w * (2 * d) + ei * d == (2 * w + ei) * d
  {}

  lemma MultipleOf(w: nat, d: nat)
    requires d > 0
    ensures w * d % d == 0
  {
    DivModUnique(w * d, d, w, 0);
  }

  lemma ShlBit(ei: nat, k: nat)
    requires ei <= 1 && k < biL
    ensures Shl(ei, k) == ei * P2(k)
  {
    hide *;
    ShiftDefinitions(ei, k);
    P2Mono(k, biL);
    BaseIsP2();
    DivModSmall(ei * P2(k), BASE);
  }

  lemma WindowIs(state: nat, nbits: nat, wbits: nat, wsize: nat, x: nat, w: nat, prefix: nat)
    ensures Window(state, nbits, wbits, wsize, x, w, prefix) <==>
      && nbits < wsize && state <= 2
      && w < P2(nbits) && wbits == w * P2(wsize - nbits)
      && prefix == x * P2(nbits) + w
      && (state == 0 ==> prefix == 0)
      && (state == 2 <==> nbits > 0)
      && (nbits > 0 ==> w >= P2(nbits - 1))
  {}

  /** The objects and parameters every step of the exponentiation shares. */
  ghost predicate Setup(X: Mpi, W: seq<Mpi>, WW: Mpi, wsize: nat, N: Mpi, mm: Limb, T: Mpi, g: int)
    reads W, N, T
  {
    && X != N && X != T && T != N && WW != X && WW != N && WW != T
    && X !in W && WW !in W && N !in W && T !in W
    && 0 < wsize <= 6 && P2(wsize) <= |W| && 1 < |W|
    && |N.p| > 0 && 2 * |N.p| < |T.p| && Cong(mm * N.p[0], -1, BASE)
    && Form(W[1].p, g, 1, |N.p|, Val(N.p))
    && Filled(W, P2(wsize - 1), P2(wsize), g, |N.p|, Val(N.p))
  }

  /** A full window: X := X^(2^wsize) * W[wbits] */
  method FlushWindow(X: Mpi, W: seq<Mpi>, WW: Mpi, wsize: nat, wbits: nat, N: Mpi, mm: Limb, T: Mpi,
                     ghost g: int, ghost x: nat)
    requires Setup(X, W, WW, wsize, N, mm, T, g)
    requires Form(X.p, g, x, |N.p|, Val(N.p)) && P2(wsize - 1) <= wbits < P2(wsize)
    modifies X`p, WW, T`p
    ensures Setup(X, W, WW, wsize, N, mm, T, g)
    ensures Form(X.p, g, x * P2(wsize) + wbits, |N.p|, Val(N.p))
  {
    hide *;
    SetupIs(X, W, WW, wsize, N, mm, T, g);
    SquareTimes(X, wsize, N, mm, T, g, x);
    P2Mono(wsize, biL);
    EntryFilled(W, P2(wsize - 1), P2(wsize), wbits, g, |N.p|, Val(N.p));
    Select(WW, W, P2(wsize), wbits);
    ModulusPositive(N.p, mm);
    SameForm(WW.p, W[wbits].p, g, wbits, |N.p|, Val(N.p));
    MulForm(X, WW, N, mm, T, g, x * P2(wsize), wbits);
    SetupIs(X, W, WW, wsize, N, mm, T, g);
  }

  lemma SameForm(p: seq<Limb>, q: seq<Limb>, g: int, e: nat, n: nat, N: nat)
    requires Val(p) == Val(q) && |p| >= |q| && Form(q, g, e, n, N)
    ensures Form(p, g, e, n, N)
  {}

  lemma SetupIs(X: Mpi, W: seq<Mpi>, WW: Mpi, wsize: nat, N: Mpi, mm: Limb, T: Mpi, g: int)
    ensures Setup(X, W, WW, wsize, N, mm, T, g) <==>
      && X != N && X != T && T != N && WW != X && WW != N && WW != T
      && X !in W && WW !in W && N !in W && T !in W
      && 0 < wsize <= 6 && P2(wsize) <= |W| && 1 < |W|
      && |N.p| > 0 && 2 * |N.p| < |T.p| && Cong(mm * N.p[0], -1, BASE)
      && Form(W[1].p, g, 1, |N.p|, Val(N.p))
      && Filled(W, P2(wsize - 1), P2(wsize), g, |N.p|, Val(N.p))
  {}

  /** The exponent with its low `rem` bits cut off. */
  ghost function Prefix(v: nat, rem: nat): nat
  {
    DivNonNeg(v, P2(rem));
    v / P2(rem)
  }

  lemma PrefixStep(v: nat, rem: nat)
    ensures Prefix(v, rem) == 2 * Prefix(v, rem + 1) + v / P2(rem) % 2
  {
    hide P2;
    P2Succ(rem);
    DivDiv(v, P2(rem), 2);
  }

  lemma PrefixEnds(p: seq<Limb>)
    ensures Prefix(Val(p), biL * |p|) == 0 && Prefix(Val(p), 0) == Val(p)
  {
    hide Val, Weight, P2;
    ValBound(p);
    WeightIsP2(|p|);
    DivModSmall(Val(p), P2(biL * |p|));
    P2Zero();
  }

  /** The main loop over the bits of E, from the top. */
  method ScanExponent(X: Mpi, E: Mpi, W: seq<Mpi>, WW: Mpi, wsize: nat, N: Mpi, mm: Limb, T: Mpi, ghost g: int)
    returns (nbits: nat, wbits: nat, ghost x: nat, ghost w: nat)
    requires Setup(X, W, WW, wsize, N, mm, T, g) && E != X && E != WW && E != T
    requires Form(X.p, g, 0, |N.p|, Val(N.p))
    modifies X`p, WW, T`p
    ensures Setup(X, W, WW, wsize, N, mm, T, g) && Form(X.p, g, x, |N.p|, Val(N.p))
    ensures exists state :: Window(state, nbits, wbits, wsize, x, w, Val(E.p))
  {
    hide *;
    var nblimbs, bufsize, state := |E.p|, 0, 0;
    nbits, wbits := 0, 0;
    x, w := 0, 0;
    ghost var v := Val(E.p);
    PrefixEnds(E.p);
    SetupIs(X, W, WW, wsize, N, mm, T, g);
    StartWindow(wsize);
    while true
      invariant 0 <= nblimbs <= |E.p| && 0 <= bufsize < biL
      invariant nblimbs == |E.p| ==> bufsize == 0
      invariant Setup(X, W, WW, wsize, N, mm, T, g) && Form(X.p, g, x, |N.p|, Val(N.p))
      invariant Window(state, nbits, wbits, wsize, x, w, Prefix(v, biL * nblimbs + bufsize))
      decreases nblimbs, bufsize
    {
      ghost var rem := biL * nblimbs + bufsize;
      if bufsize == 0 {
        if nblimbs == 0 { break; }
        nblimbs := nblimbs - 1;
        bufsize := biL;
      }
      bufsize := bufsize - 1;
      var ei := And(Shr(E.p[nblimbs], bufsize), 1);
      NextBit(E.p, nblimbs, bufsize, rem, ei);
      state, nbits, wbits, x, w := TakeBit(X, W, WW, wsize, N, mm, T, ei, state, nbits, wbits, g, x, w, Prefix(v, rem));
    }
  }

  lemma StartWindow(wsize: nat)
    requires wsize > 0
    ensures Window(0, 0, 0, wsize, 0, 0, 0)
  {}

  lemma NextBit(e: seq<Limb>, i: nat, j: nat, rem: nat, ei: nat)
    requires i < |e| && j < biL && rem == biL * i + j + 1 && ei == And(Shr(e[i], j), 1)
    ensures ei <= 1 && Prefix(Val(e), biL * i + j) == 2 * Prefix(Val(e), rem) + ei
  {
    hide *;
    AndOne(Shr(e[i], j));
    BitOf(e, i, j);
    PrefixStep(Val(e), biL * i + j);
    DivModNonNeg(Shr(e[i], j), 2);
  }

  /** One bit of the exponent. */
  method TakeBit(X: Mpi, W: seq<Mpi>, WW: Mpi, wsize: nat, N: Mpi, mm: Limb, T: Mpi,
                 ei: nat, state: nat, nbits: nat, wbits: nat, ghost g: int, ghost x: nat, ghost w: nat,
                 ghost prefix: nat)
    returns (state': nat, nbits': nat, wbits': nat, ghost x': nat, ghost w': nat)
    requires Setup(X, W, WW, wsize, N, mm, T, g) && ei <= 1
    requires Form(X.p, g, x, |N.p|, Val(N.p)) && Window(state, nbits, wbits, wsize, x, w, prefix)
    modifies X`p, WW, T`p
    ensures Setup(X, W, WW, wsize, N, mm, T, g)
    ensures Form(X.p, g, x', |N.p|, Val(N.p)) && Window(state', nbits', wbits', wsize, x', w', 2 * prefix + ei)
  {
    hide *;
    SetupIs(X, W, WW, wsize, N, mm, T, g);
    WindowIs(state, nbits, wbits, wsize, x, w, prefix);
    state', nbits', wbits', x', w' := state, nbits, wbits, x, w;
    if ei == 0 && state == 0 {
      ZeroOutside(state, nbits, wbits, wsize, x, w, prefix);
      return;
    }
    if ei == 0 && state == 1 {
      MulForm(X, X, N, mm, T, g, x, x);
      ZeroOutside(state, nbits, wbits, wsize, x, w, prefix);
      x' := x + x;
      SetupIs(X, W, WW, wsize, N, mm, T, g);
      return;
    }
    JoinWindow(state, nbits, wbits, wsize, x, w, prefix, ei);
    state' := 2;
    nbits' := nbits + 1;
    wbits' := Or(wbits, Shl(ei, wsize - nbits'));
    w' := 2 * w + ei;
    if nbits' == wsize {
      P2Zero();
      FlushWindow(X, W, WW, wsize, wbits', N, mm, T, g, x);
      x' := x * P2(wsize) + w';
      state' := state' - 1;
      nbits' := 0;
      wbits' := 0;
      w' := 0;
    }
    WindowIs(state', nbits', wbits', wsize, x', w', 2 * prefix + ei);
  }

  /** The remaining bits, one at a time. */
  method FinishBits(X: Mpi, W1: Mpi, wsize: nat, nbits: nat, wbits0: nat, N: Mpi, mm: Limb, T: Mpi,
                    ghost g: int, ghost x: nat, ghost w: nat)
    requires X != N && X != T && X != W1 && T != N && T != W1
    requires |N.p| > 0 && 2 * |N.p| < |T.p| && Cong(mm * N.p[0], -1, BASE)
    requires Form(W1.p, g, 1, |N.p|, Val(N.p)) && nbits < wsize <= 6
    requires Form(X.p, g, x, |N.p|, Val(N.p)) && w < P2(nbits) && wbits0 == w * P2(wsize - nbits)
    modifies X`p, T`p
    ensures Form(X.p, g, x * P2(nbits) + w, |N.p|, Val(N.p))
    ensures |T.p| == |old(T.p)|
  {
    hide *;
    var wbits := wbits0;
    var i := 0;
    P2Zero();
    PrefixZero(w, nbits);
    while i < nbits
      invariant 0 <= i <= nbits && |T.p| == |old(T.p)|
      invariant wbits == w * P2(wsize - nbits + i)
      invariant Form(X.p, g, x * P2(i) + Prefix(w, nbits - i), |N.p|, Val(N.p))
    {
      ghost var y := x * P2(i) + Prefix(w, nbits - i);
      PendingStep(w, wsize, nbits, i, wbits, x);
      wbits := Shl(wbits, 1);
      MulForm(X, X, N, mm, T, g, y, y);
      if And(wbits, P2(wsize)) != 0 {
        MulForm(X, W1, N, mm, T, g, y + y, 1);
      }
      i := i + 1;
    }
    PrefixAll(w);
  }

  lemma PendingStep(w: nat, wsize: nat, nbits: nat, i: nat, wbits: nat, x: nat)
    requires i < nbits < wsize <= 6 && w < P2(nbits) && wbits == w * P2(wsize - nbits + i)
    ensures Shl(wbits, 1) == w * P2(wsize - nbits + (i + 1))
    ensures x * P2(i + 1) + Prefix(w, nbits - (i + 1))
         == 2 * (x * P2(i) + Prefix(w, nbits - i)) + if And(Shl(wbits, 1), P2(wsize)) != 0 then 1 else 0
  {
    hide *;
    ShiftedOutBit(w, wsize, nbits, i, wbits);
    PrefixStep(w, nbits - i - 1);
    P2Succ(i);
    DoubleProduct(x, P2(i));
    if w / P2(nbits - i - 1) % 2 == 1 { assert 1 * P2(wsize) != 0; } else { assert 0 * P2(wsize) == 0; }
  }

  lemma PrefixZero(w: nat, k: nat)
    requires w < P2(k)
    ensures Prefix(w, k) == 0
  {
    hide P2;
    DivModSmall(w, P2(k));
  }

  lemma PrefixAll(w: nat)
    ensures Prefix(w, 0) == w
  {}

  /** After the shift, bit wsize of the word is the next pending bit. */
  lemma ShiftedOutBit(w: nat, wsize: nat, nbits: nat, i: nat, wbits: nat)
    requires i < nbits < wsize <= 6 && w < P2(nbits) && wbits == w * P2(wsize - nbits + i)
    ensures Shl(wbits, 1) == w * P2(wsize - nbits + (i + 1))
    ensures And(Shl(wbits, 1), P2(wsize)) == w / P2(nbits - i - 1) % 2 * P2(wsize)
    ensures 0 <= w / P2(nbits - i - 1) % 2 <= 1 && P2(wsize) > 0
  {
    hide *;
    var k := wsize - nbits + (i + 1);
    ShiftUpOne(w, nbits, k - 1);
    var y := Shl(wbits, 1);
    AndPow2(y, wsize);
    ShiftDefinitions(y, wsize);
    TopOfWindow(w, k, nbits - i - 1);
    assert k + (nbits - i - 1) == wsize;
    DivModNonNeg(w / P2(nbits - i - 1), 2);
  }

  lemma ShiftUpOne(w: nat, nbits: nat, k: nat)
    requires w < P2(nbits) && nbits + k + 1 <= 12
    ensures Shl(w * P2(k), 1) == w * P2(k + 1)
  {
    hide *;
    P2Succ(k);
    P2Succ(0);
    P2Zero();
    MulNonNeg(w, P2(k));
    ShiftDefinitions(w * P2(k), 1);
    P2Add(nbits, k + 1);
    P2Mono(nbits + (k + 1), biL);
    BaseIsP2();
    MulLt(P2(k + 1), w, P2(nbits));
    DoubleProduct(w, P2(k));
    MulNonNeg(w, P2(k + 1));
    DivModSmall(w * P2(k + 1), BASE);
  }

  lemma TopOfWindow(w: nat, k: nat, r: nat)
    ensures w * P2(k) / P2(k + r) == w / P2(r)
  {
    hide *;
    P2Add(k, r);
    DivDiv(w * P2(k), P2(k), P2(r));
    DivModUnique(w * P2(k), P2(k), w, 0);
  }

  // ----- mbedtls_mpi_exp_mod --------------------------------------------------------------

  /** MBEDTLS_MPI_MAX_BITS */
  const MAX_BITS: nat := 8 * 1024

  type WindowSize = x: nat | 1 <= x <= 6 witness 6

  /** MBEDTLS_MPI_WINDOW_SIZE: every permitted setting is proved. */
  const maxWindow: WindowSize

  /** The window width for an exponent of i bits. */
  function ChooseWindow(i: nat): (wsize: nat)
    ensures 0 < wsize <= maxWindow
  {
    var wsize := if i > 671 then 6 else if i > 239 then 5 else if i > 79 then 4 else if i > 23 then 3 else 1;
    if maxWindow < 6 && wsize > maxWindow then maxWindow else wsize
  }

  /** R^2 mod N for the radix R = Weight(n) */
  ghost function RadixSquare(n: nat, N: nat): (r: nat)
    requires N > 0
    ensures r < N && Cong(r, Weight(n) * Weight(n), N)
  {
    CongMod(Weight(n) * Weight(n), N);
    Weight(n) * Weight(n) % N
  }

  /** A helper value left by an earlier call, or nothing yet. */
  ghost predicate Precomputed(prec: Mpi?, N: Mpi)
    reads prec, N
  {
    prec != null && |prec.p| > 0 && N.Value() > 0 && N.s == 1 ==>
      prec.Value() == RadixSquare(|N.p|, Val(N.p))
  }

  /** RR := R^2 mod N, taken from prec or computed and left there */
  method PrepareSquare(N: Mpi, prec: Mpi?) returns (RR: Mpi)
    requires N.s == 1 && Val(N.p) > 0 && prec != N && Precomputed(prec, N)
    modifies prec
    ensures fresh(RR) && |RR.p| > 0 && RR.Value() == RadixSquare(|N.p|, Val(N.p))
    ensures prec != null ==> |prec.p| > 0 && prec.Value() == RadixSquare(|N.p|, Val(N.p))
  {
    hide Val, Weight, RadixSquare;
    RR := new Mpi();
    N.ValueIs();
    if prec == null || |prec.p| == 0 {
      RR.LSet(1);
      ShiftL(RR, |N.p| * 2 * biL);
      SquareByShift(|N.p|, Val(N.p));
      RR.ValueIs();
      var ret := ModMpi(RR, RR, N);
      if prec != null {
        prec.s, prec.p := RR.s, RR.p;
      }
    } else {
      RR.s, RR.p := prec.s, prec.p;
    }
  }

  lemma SquareByShift(n: nat, N: nat)
    requires N > 0
    ensures n * 2 * biL >= 0 && P2(n * 2 * biL) % N == RadixSquare(n, N)
    ensures P2(n * 2 * biL) > 0
  {
    hide Weight, P2, Cong;
    WeightAdd(n, n);
    WeightIsP2(n + n);
    assert biL * (n + n) == n * 2 * biL;
  }

  /** W1 := A mod N, with at least n + 1 limbs */
  method LoadBase(W1: Mpi, A: Mpi, N: Mpi)
    requires W1 != A && W1 != N && A.s == 1 && N.s == 1 && Val(N.p) > 0
    modifies W1
    ensures Val(W1.p) == Val(A.p) % Val(N.p) && |W1.p| > |N.p|
  {
    hide *;
    A.ValueIs();
    N.ValueIs();
    W1.Grow(|N.p| + 1);
    var cmp := CmpMpi(A, N);
    SignOf(A.Value() - N.Value());
    if cmp >= 0 {
      var ret := ModMpi(W1, A, N);
      W1.Grow(|N.p| + 1);
      DivModNonNeg(A.Value(), N.Value());
      SignedMagnitude(W1.s, Val(W1.p));
      W1.ValueIs();
    } else {
      DivModSmall(A.Value(), N.Value());
      W1.Copy(A);
    }
  }

  lemma SignedMagnitude(s: Sign, v: nat)
    ensures Signed(s, v) >= 0 ==> Signed(s, v) == v
    ensures s == 1 || v == 0 || Signed(s, v) < 0
  {}

  /** A * R^2 / R: the base in Montgomery form */
  lemma BaseForm(r: nat, a: nat, q: nat, g: nat, n: nat, N: nat, inv: int)
    requires N > 0 && RadixUnit(n, inv, N) && a == g % N && q == RadixSquare(n, N)
    requires IsMontProduct(r, a, q, n, N)
    ensures r < N && Cong(r, Pow(g, 1) * Weight(n), N)
  {
    hide Weight, RadixSquare, Cong;
    var w := Weight(n);
    assert Pow(g, 1) == g * Pow(g, 0) == g;
    CongMod(g, N);
    CongMul(a, g, q, w * w, N);
    MulAssoc(g, w, w);
    MontQuotient(r, a, q, g * w, n, N, inv);
  }

  /** R^2 / R: one in Montgomery form */
  lemma UnitForm(r: nat, q: nat, g: nat, n: nat, N: nat, inv: int)
    requires N > 0 && RadixUnit(n, inv, N) && q == RadixSquare(n, N)
    requires IsMontProduct(r, q, 1, n, N)
    ensures r < N && Cong(r, Pow(g, 0) * Weight(n), N)
  {
    hide Weight, RadixSquare, Cong;
    MontQuotient(r, q, 1, Weight(n), n, N, inv);
  }

  /** Dividing the radix out of the final form gives the residue. */
  lemma LeaveForm(r: nat, x: nat, g: int, e: nat, n: nat, N: nat, inv: int)
    requires N > 0 && RadixUnit(n, inv, N) && IsMontProduct(r, x, 1, n, N)
    requires Cong(x, Pow(g, e) * Weight(n), N)
    ensures r == Pow(g, e) % N
  {
    hide Weight, Cong;
    MontQuotient(r, x, 1, Pow(g, e), n, N, inv);
    CongIs(r, Pow(g, e), N);
    DivModSmall(r, N);
  }

  /** W[1] := A in Montgomery form; X := 1 in Montgomery form */
  method LoadForms(X: Mpi, W1: Mpi, A: Mpi, N: Mpi, RR: Mpi, mm: Limb, T: Mpi)
    requires X != N && X != T && X != W1 && X != RR && W1 != A && W1 != N && W1 != T && W1 != RR && T != N
    requires T != RR && T != A
    requires A.s == 1 && N.s == 1 && Val(N.p) > 0 && |N.p| < |X.p|
    requires |N.p| > 0 && 2 * |N.p| < |T.p| && Cong(mm * N.p[0], -1, BASE)
    requires |RR.p| > 0 && RR.Value() == RadixSquare(|N.p|, Val(N.p))
    modifies X, W1, T`p
    ensures |T.p| == |old(T.p)| && X.s == RR.s
    ensures Form(W1.p, old(Val(A.p)), 1, |N.p|, Val(N.p))
    ensures Form(X.p, old(Val(A.p)), 0, |N.p|, Val(N.p))
  {
    hide *;
    var n := |N.p|;
    ghost var g, vn, q := Val(A.p), Val(N.p), Val(RR.p);
    ghost var inv := RadixIsUnit(n, N.p, mm);
    SquareIs(n, vn);
    RR.ValueIs();
    SignedMagnitude(RR.s, q);
    ValBound(N.p);
    LoadBase(W1, A, N);
    DivModNonNeg(g, vn);
    ghost var w := W1.p;
    HighStaysZero(w, w, n);
    MontMul(W1, RR, N, mm, T);
    HighStaysZero(W1.p, w, n);
    BaseForm(Val(W1.p), Val(w), q, g, n, vn, inv);
    FormIs(W1.p, g, 1, n, vn);
    X.Copy(RR);
    ghost var x := X.p;
    HighStaysZero(x, x, n);
    MontRed(X, N, mm, T);
    HighStaysZero(X.p, x, n);
    UnitForm(Val(X.p), q, g, n, vn, inv);
    FormIs(X.p, g, 0, n, vn);
  }

  lemma SquareIs(n: nat, N: nat)
    requires N > 0
    ensures RadixSquare(n, N) < N
  {}

  /** The exponentiation proper, in Montgomery form. */
  method RunWindows(X: Mpi, E: Mpi, W: seq<Mpi>, WW: Mpi, wsize: nat, N: Mpi, mm: Limb, T: Mpi, ghost g: int)
    requires Setup(X, W, WW, wsize, N, mm, T, g) && E != X && E != WW && E != T
    requires Form(X.p, g, 0, |N.p|, Val(N.p))
    modifies X`p, WW, T`p
    ensures Form(X.p, g, Val(E.p), |N.p|, Val(N.p)) && 2 * |N.p| < |T.p|
  {
    hide *;
    var nbits, wbits;
    ghost var x, w;
    nbits, wbits, x, w := ScanExponent(X, E, W, WW, wsize, N, mm, T, g);
    ghost var state :| Window(state, nbits, wbits, wsize, x, w, Val(E.p));
    WindowIs(state, nbits, wbits, wsize, x, w, Val(E.p));
    SetupIs(X, W, WW, wsize, N, mm, T, g);
    FinishBits(X, W[1], wsize, nbits, wbits, N, mm, T, g, x, w);
  }

  /** X := X / R, leaving Montgomery form */
  method LeaveMontgomery(X: Mpi, N: Mpi, mm: Limb, T: Mpi, ghost g: int, ghost e: nat)
    requires X != N && X != T && T != N && |N.p| > 0 && 2 * |N.p| < |T.p|
    requires Cong(mm * N.p[0], -1, BASE) && Val(N.p) > 0 && Form(X.p, g, e, |N.p|, Val(N.p))
    modifies X`p, T`p
    ensures Val(X.p) == Pow(g, e) % Val(N.p)
  {
    hide *;
    ghost var q, n, vn := X.p, |N.p|, Val(N.p);
    ghost var inv := RadixIsUnit(n, N.p, mm);
    FormIs(q, g, e, n, vn);
    ValBound(N.p);
    HighStaysZero(q, q, n);
    MontRed(X, N, mm, T);
    HighStaysZero(X.p, q, n);
    LeaveForm(Val(X.p), Val(q), g, e, n, vn, inv);
  }

  /** R^2 vanishes modulo N only for N = 1. */
  lemma SquareVanishes(n: nat, N: nat, inv: int, r: nat)
    requires N > 0 && RadixUnit(n, inv, N) && RadixSquare(n, N) == 0 && r < N
    ensures r == 0
  {
    hide Weight;
    var w := Weight(n);
    CongMul(w * inv, 1, w * inv, 1, N);
    MulSwap(w, inv, w, inv);
    CongSelf(inv * inv, N);
    CongMul(0, w * w, inv * inv, inv * inv, N);
    assert (w * inv) * (w * inv) == (w * w) * (inv * inv);
    if N > 1 { CongSmall(0, 1, N); }
  }

  lemma TableRoom(wsize: nat)
    requires 0 < wsize <= maxWindow
    ensures 2 <= P2(maxWindow) && P2(wsize) <= P2(maxWindow)
  {
    P2Mono(1, maxWindow);
    P2Mono(wsize, maxWindow);
  }

  /** The computation for a non-negative base. */
  method PowerMod(X: Mpi, A: Mpi, E: Mpi, N: Mpi, prec: Mpi?, wsize: nat, mm: Limb)
    requires X != N && X != E && N.s == 1 && A.s == 1 && |X.p| > |N.p| > 0
    requires prec != X && prec != A && prec != E && prec != N
    requires Cong(mm * N.p[0], -1, BASE) && 0 < wsize <= maxWindow && Val(N.p) > 0
    requires Precomputed(prec, N)
    modifies X, prec
    ensures Val(X.p) == Pow(old(Val(A.p)), Val(E.p)) % Val(N.p)
    ensures X.s == 1 || Val(X.p) == 0
    ensures prec != null ==> |prec.p| > 0 && prec.Value() == RadixSquare(|N.p|, Val(N.p))
  {
    hide *;
    ghost var g, vn, e := Val(A.p), Val(N.p), Val(E.p);
    var T := new Mpi();
    T.Grow((|N.p| + 1) * 2);
    TableRoom(wsize);
    var W := NewTable(P2(maxWindow));
    var WW := new Mpi();
    var RR := PrepareSquare(N, prec);
    ghost var s := RR.s;
    SquareSign(RR, |N.p|, N.p, mm);
    LoadForms(X, W[1], A, N, RR, mm, T);
    BuildTable(W, wsize, N, mm, T, g);
    SetupIs(X, W, WW, wsize, N, mm, T, g);
    RunWindows(X, E, W, WW, wsize, N, mm, T, g);
    LeaveMontgomery(X, N, mm, T, g, e);
    DivModNonNeg(Pow(g, e), vn);
  }

  lemma SquareSign(RR: Mpi, n: nat, N: seq<Limb>, mm: Limb)
    requires |N| > 0 && Cong(mm * N[0], -1, BASE) && Val(N) > 0
    requires RR.Value() == RadixSquare(n, Val(N))
    ensures RR.s == 1 || Val(N) == 1
  {
    hide *;
    var inv := RadixIsUnit(n, N, mm);
    RR.ValueIs();
    SignedMagnitude(RR.s, Val(RR.p));
    if RR.s != 1 && Val(N) != 1 {
      SquareIs(n, Val(N));
      SignedZeroIs(RR.s, Val(RR.p));
      SquareVanishes(n, Val(N), inv, 1);
    }
  }

  lemma SignedZeroIs(s: Sign, v: nat)
    requires s != 1 && Signed(s, v) >= 0
    ensures Signed(s, v) == 0
  {}

  /** (-a)^e */
  lemma {:induction false} PowNegate(a: int, e: nat)
    ensures Pow(-a, e) == if e % 2 == 1 then -Pow(a, e) else Pow(a, e)
  {
    if e > 0 { PowNegate(a, e - 1); }
  }

  /** -p mod N from r = p mod N: the subtraction N - r is right unless r is 0. */
  lemma NegativeResidue(p: int, r: nat, N: nat)
    requires N > 0 && r == p % N
    ensures (-p) % N == if r == 0 then 0 else N - r
  {
    var q := p / N;
    assert p == q * N + r;
    if r == 0 {
      assert -p == (-q) * N + 0;
      DivModUnique(-p, N, -q, 0);
    } else {
      assert -p == (-q - 1) * N + (N - r);
      DivModUnique(-p, N, -q - 1, N - r);
    }
  }

  /** The value the function leaves: the residue, except that for a base marked negative, an odd
      exponent and residue 0 it is N. */
  ghost function ExpModResult(sa: Sign, a: int, e: nat, N: nat): (r: nat)
    requires N > 0
  {
    DivModNonNeg(Pow(a, e), N);
    if sa == -1 && e % 2 == 1 && Pow(a, e) % N == 0 then N else Pow(a, e) % N
  }

  /** It is the residue exactly when the base is not negative, the exponent is even or the modulus
      does not divide the power. */
  lemma ResultIsResidue(sa: Sign, a: int, e: nat, N: nat)
    requires N > 0
    ensures ExpModResult(sa, a, e, N) == Pow(a, e) % N <==>
      !(sa == -1 && e % 2 == 1 && Divides(N, Pow(a, e)))
  {
    DividesMod(N, Pow(a, e));
  }

  /** N after its common factor with a has been taken out e times */
  ghost function Stripped(N: nat, a: int, e: nat): (r: nat)
    requires N > 0
    ensures r > 0
    decreases e
  {
    DividesCofactor(N, a, 0);
    if e == 0 then N else Stripped(N / GcdOf(a, N), a, e - 1)
  }

  /** N divides the power exactly when nothing is left of it. */
  lemma {:induction false} PowerDividesIff(N: nat, a: int, e: nat)
    requires N > 0
    ensures Divides(N, Pow(a, e)) <==> Stripped(N, a, e) == 1
    decreases e
  {
    hide GcdOf, Divides;
    if e == 0 {
      DividesUnit(N);
    } else {
      DividesCofactor(N, a, Pow(a, e - 1));
      PowerDividesIff(N / GcdOf(a, N), a, e - 1);
    }
  }

  lemma DividesUnit(N: nat)
    requires N > 0
    ensures Divides(N, 1) <==> N == 1
  {
    if N == 1 { DividesBy(1, 1, 1); }
    if Divides(N, 1) { DividesLe(N, 1); }
  }

  /** So the inputs decide: the result is the residue unless the base is marked negative, the exponent is odd and the
      modulus consists of factors it shares with the base. */
  lemma ResultIsResidueIff(sa: Sign, a: int, e: nat, N: nat)
    requires N > 0
    ensures ExpModResult(sa, a, e, N) == Pow(a, e) % N <==> !(sa == -1 && e % 2 == 1 && Stripped(N, a, e) == 1)
  {
    hide *;
    ResultIsResidue(sa, a, e, N);
    PowerDividesIff(N, a, e);
  }

  /** A base coprime to a modulus above 1 is always safe; */
  lemma CoprimeBase(sa: Sign, a: int, e: nat, N: nat)
    requires N > 1 && IsGcd(1, a, N)
    ensures ExpModResult(sa, a, e, N) == Pow(a, e) % N
  {
    hide *;
    ResultIsResidueIff(sa, a, e, N);
    NothingStripped(N, a, e);
  }

  lemma {:induction false} NothingStripped(N: nat, a: int, e: nat)
    requires N > 0 && IsGcd(1, a, N)
    ensures Stripped(N, a, e) == N
    decreases e
  {
    GcdUnique(1, GcdOf(a, N), a, N);
    hide GcdOf, IsGcd;
    if e > 0 {
      assert N / 1 == N;
      NothingStripped(N, a, e - 1);
    }
  }

  /** for a prime modulus the base decides alone; */
  lemma PrimeModulusIff(sa: Sign, a: int, e: nat, N: nat)
    requires IsPrime(N)
    ensures ExpModResult(sa, a, e, N) == Pow(a, e) % N <==> !(sa == -1 && e % 2 == 1 && Divides(N, a))
  {
    hide Divides, ExpModResult;
    ResultIsResidue(sa, a, e, N);
    if e % 2 == 1 { PrimeDividesPower(N, a, e); }
  }

  lemma {:induction false} PrimeDividesPower(p: nat, a: int, e: nat)
    requires IsPrime(p) && e > 0
    ensures Divides(p, Pow(a, e)) <==> Divides(p, a)
  {
    hide Divides;
    var m := Pow(a, e - 1);
    if Divides(p, a) { DividesLinear(p, a, a, m, 0); }
    if Divides(p, Pow(a, e)) {
      EuclidsLemma(p, a, m);
      if e == 1 {
        assert m == 1 && a * 1 == a;
      } else if Divides(p, m) {
        PrimeDividesPower(p, a, e - 1);
      }
    }
  }

  /** and modulo 1 a negative base with an odd exponent never gives the residue 0. */
  lemma UnitModulusFails(a: int, e: nat)
    requires e % 2 == 1
    ensures ExpModResult(-1, a, e, 1) == 1 && Pow(a, e) % 1 == 0
  {}

  /** Inputs where the result is not the residue, a prime and a composite modulus */
  lemma ResultFails()
    ensures ExpModResult(-1, -3, 1, 3) == 3 && Pow(-3, 1) % 3 == 0
    ensures ExpModResult(-1, -3, 3, 9) == 9 && Pow(-3, 3) % 9 == 0
  {
    assert Pow(-3, 1) == -3;
    assert Pow(-3, 2) == 9;
    assert Pow(-3, 3) == -27;
  }

  /** The arguments are accepted. */
  ghost predicate Accepted(e: int, n: int)
  {
    n > 0 && n % 2 == 1 && 0 <= e && BitLen(e) <= MAX_BITS && BitLen(n) <= MAX_BITS
  }

  /** mbedtls_mpi_exp_mod: X = A^E mod N. X may be A. */
  method ExpMod(X: Mpi, A: Mpi, E: Mpi, N: Mpi, prec: Mpi?) returns (ret: Status)
    requires X != N && X != E && prec != X && prec != A && prec != E && prec != N
    requires Precomputed(prec, N)
    modifies X, prec
    ensures ret == if Accepted(E.Value(), N.Value()) then Ok else BadInputData
    ensures ret != Ok ==> X.Value() == old(X.Value())
    ensures ret == Ok ==> X.Value() == ExpModResult(old(A.s), old(A.Value()), E.Value(), N.Value())
    ensures ret == Ok && prec != null ==>
      |prec.p| > 0 && prec.Value() == RadixSquare(|N.p|, N.Value())
  {
    hide *;
    ghost var sa, a := A.s, A.Value();
    AbsZero();
    var cmp := CmpInt(N, 0);
    SignOf(N.Value() - 0);
    AcceptedIs(E.Value(), N.Value());
    N.ValueIs();
    E.ValueIs();
    if cmp <= 0 { return BadInputData; }
    ModulusLimbs(N.s, N.p);
    if And(N.p[0], 1) == 0 { return BadInputData; }
    cmp := CmpInt(E, 0);
    SignOf(E.Value() - 0);
    if cmp < 0 { return BadInputData; }
    SignedMagnitude(E.s, Val(E.p));
    SignedMagnitude(N.s, Val(N.p));
    var ebits := E.Bitlen();
    var nbits := N.Bitlen();
    if ebits > MAX_BITS || nbits > MAX_BITS { return BadInputData; }
    var mm := MontgInit(N);
    X.Grow(|N.p| + 1);
    var neg := A.s == -1;
    var Apos := A;
    if neg {
      Apos := new Mpi();
      Apos.Copy(A);
      Apos.s := 1;
    }
    ghost var g := Val(A.p);
    A.ValueIs();
    PowerMod(X, Apos, E, N, prec, ChooseWindow(ebits), mm);
    NegateIfOdd(X, E, N, neg, sa, g, a);
    return Ok;
  }

  lemma AcceptedIs(e: int, n: int)
    ensures Accepted(e, n) <==> n > 0 && n % 2 == 1 && 0 <= e && BitLen(e) <= MAX_BITS && BitLen(n) <= MAX_BITS
  {}

  /** A positive number has limbs, and its low bit is that of the low limb. */
  lemma ModulusLimbs(s: Sign, p: seq<Limb>)
    requires Signed(s, Val(p)) > 0
    ensures s == 1 && |p| > 0 && Signed(s, Val(p)) % 2 == And(p[0], 1) == p[0] % 2
  {
    hide Val;
    ValEmpty();
    ValEven(p);
    AndOne(p[0]);
  }

  /** The correction for a negative base. */
  method NegateIfOdd(X: Mpi, E: Mpi, N: Mpi, neg: bool, ghost sa: Sign, ghost g: nat, ghost a: int)
    requires X != N && X != E && N.s == 1 && Val(N.p) > 0
    requires Val(X.p) == Pow(g, Val(E.p)) % Val(N.p) && (X.s == 1 || Val(X.p) == 0)
    requires a == Signed(sa, g) && neg == (sa == -1)
    modifies X
    ensures X.Value() == ExpModResult(sa, a, Val(E.p), Val(N.p))
  {
    hide Val, Pow, And;
    ghost var r, e, n := Val(X.p), Val(E.p), Val(N.p);
    PowNegate(g, e);
    NegativeResidue(Pow(g, e), r, n);
    if |E.p| > 0 { ValEven(E.p); AndOne(E.p[0]); } else { ValEmpty(); }
    if neg && |E.p| != 0 && And(E.p[0], 1) != 0 {
      X.s := -1;
      AddMpi(X, N, X);
    }
  }
}
