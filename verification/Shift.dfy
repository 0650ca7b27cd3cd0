/** mbedtls_mpi_shift_l and mbedtls_mpi_shift_r. */
module Shifts {
  import opened Arith
  import opened Limbs
  import opened Mpis

  // ----- One word -------------------------------------------------------------------------

  lemma {:induction false} OrSymmetric(x: nat, y: nat)
    ensures Or(x, y) == Or(y, x)
    decreases x + y
  {
    if x != 0 && y != 0 { OrSymmetric(x / 2, y / 2); }
  }

  lemma BaseSplit(t: nat)
    requires t <= biL
    ensures BASE == P2(biL - t) * P2(t)
  {
    P2Add(biL - t, t);
  }

  lemma ShiftDefinitions(x: nat, t: nat)
    ensures Shl(x, t) == x * P2(t) % BASE
    ensures Shr(x, t) == x / P2(t)
  {}

  /** Multiplying a word x < d*e by e splits it at d. */
  lemma ShlWord(x: nat, d: nat, e: nat)
    requires 0 < d && 0 < e && x < d * e
    ensures x * e == x * e % (d * e) + (d * e) * (x / d)
    ensures x * e % (d * e) == x % d * e
    ensures x % d * e % e == 0
    ensures x / d < e
  {
    var h, l := x / d, x % d;
    assert x == d * h + l;
    if h >= e { MulLe(d, e, h); }
    MulLt(e, l, d);
    MulNonNeg(e, l);
    ShiftedWord(d, e, h, l);
    DivModLow(x * e, d * e, h, l * e);
    DivModUnique(l * e, e, l, 0);
  }

  lemma ShiftedWord(d: int, e: int, h: int, l: int)
    ensures (d * h + l) * e == l * e + (d * e) * h
  {}

  /** A left shift keeps the low part and pushes the top t bits out. */
  lemma ShlSplit(x: Limb, t: nat)
    requires 0 < t < biL
    ensures x * P2(t) == Shl(x, t) + BASE * Shr(x, biL - t)
    ensures Shl(x, t) == x % P2(biL - t) * P2(t)
    ensures Shl(x, t) % P2(t) == 0
    ensures Shr(x, biL - t) < P2(t)
  {
    hide *;
    BaseSplit(t);
    ShlWord(x, P2(biL - t), P2(t));
    ShiftDefinitions(x, t);
    ShiftDefinitions(x, biL - t);
  }

  /** Bits carried in below a shifted word fit into the word. */
  lemma WordRoom(l: nat, r: nat, d: nat, e: nat)
    requires l < d && r < e
    ensures l * e + r < d * e
  {
    MulLe(e, l + 1, d);
  }

  // ----- Shift left -----------------------------------------------------------------------

  /** BITS_TO_LIMBS */
  function LimbsForBits(i: nat): nat
  {
    i / biL + (if i % biL != 0 then 1 else 0)
  }

  lemma LimbsForBitsSuffice(i: nat)
    ensures i <= biL * LimbsForBits(i) < i + biL
  {}

  /** The grown number has room for the shifted value. */
  lemma ShiftFits(v: nat, n: nat, count: nat, len: nat)
    requires n == BitLen(v) && n + count <= biL * len
    ensures v * P2(count) < Weight(len)
    ensures count / biL <= len && v < Weight(len - count / biL)
  {
    hide *;
    if v > 0 {
      BitLenBounds(v);
      BelowWeight(v, n, count, len);
      var v0 := count / biL;
      assert n + biL * v0 <= biL * len;
      BelowWeight(v, n, 0, len - v0);
      assert v * P2(0) == v by { P2Zero(); }
    } else {
      assert v * P2(count) == 0;
      assert biL * (count / biL) <= biL * len;
      MulCancelLe(biL, count / biL, len);
    }
  }

  lemma BelowWeight(v: nat, n: nat, count: nat, len: nat)
    requires 0 < v < P2(n) && n + count <= biL * len
    ensures v * P2(count) < Weight(len)
  {
    hide *;
    P2Add(n, count);
    MulLt(P2(count), v, P2(n));
    P2Mono(n + count, biL * len);
    WeightIsP2(len);
  }

  /** mbedtls_mpi_shift_l: X <<= count */
  method ShiftL(X: Mpi, count: nat)
    modifies X
    ensures Val(X.p) as int == old(Val(X.p)) * P2(count) && X.s == old(X.s)
    ensures var need := BitLen(old(Val(X.p))) + count;
      |X.p| == if biL * |old(X.p)| < need then LimbsForBits(need) else |old(X.p)|
  {
    hide *;
    var v0, t1 := count / biL, count % biL;
    ghost var v := Val(X.p);
    var n := X.Bitlen();
    var i := n + count;
    if biL * |X.p| < i {
      LimbsForBitsSuffice(i);
      X.Grow(LimbsForBits(i));
      assert |X.p| == LimbsForBits(i) by { GrownLength(|old(X.p)|, i); }
    }
    ShiftFits(v, n, count, |X.p|);
    SplitCount(v, count);
    if v0 > 0 {
      ShiftLimbsLeft(X, v0);
    } else {
      WeightZero();
    }
    if t1 > 0 {
      LowLimbsClear(X.p, v, v0);
      ShiftBitsLeft(X, v0, t1);
    } else {
      P2Zero();
    }
  }

  lemma GrownLength(len: nat, i: nat)
    requires biL * len < i
    ensures len < LimbsForBits(i)
  {}

  lemma SplitCount(v: nat, count: nat)
    ensures v * P2(count) == v * Weight(count / biL) * P2(count % biL)
  {
    hide *;
    var v0, t1 := count / biL, count % biL;
    WeightIsP2(v0);
    P2Add(biL * v0, t1);
    MulAssoc(v, Weight(v0), P2(t1));
  }

  /** A multiple of Weight(v0) has v0 zero limbs at the bottom. */
  lemma LowLimbsClear(p: seq<Limb>, v: nat, v0: nat)
    requires v0 <= |p| && Val(p) as int == v * Weight(v0)
    ensures Val(p[..v0]) == 0
  {
    hide *;
    ValDivMod(p, v0);
    DivModUnique(Val(p), Weight(v0), v, 0);
  }

  /** The limb loops: everything moves up by v0 limbs, zeros fill the bottom. */
  method ShiftLimbsLeft(X: Mpi, v0: nat)
    requires v0 <= |X.p| && Val(X.p) < Weight(|X.p| - v0)
    modifies X`p
    ensures |X.p| == |old(X.p)| && Val(X.p) as int == old(Val(X.p)) * Weight(v0)
  {
    hide *;
    ghost var q := X.p;
    var i := |X.p|;
    MovingStart(q, v0);
    while i > v0
      invariant v0 <= i <= |q| == |X.p| && X.p == Moving(q, v0, i)
    {
      MovingStep(q, v0, i - 1);
      X.p := X.p[i - 1 := X.p[i - v0 - 1]];
      i := i - 1;
    }
    ClearLow(X, v0);
    LimbsMovedUp(q, v0);
  }

  /** q while its limbs move up by v0: from i on they have arrived. */
  ghost function Moving(q: seq<Limb>, v0: nat, i: nat): (r: seq<Limb>)
    requires v0 <= i <= |q|
    ensures |r| == |q|
  {
    q[..i] + q[i - v0..|q| - v0]
  }

  lemma MovingStart(q: seq<Limb>, v0: nat)
    requires v0 <= |q|
    ensures Moving(q, v0, |q|) == q
  {}

  lemma MovingStep(q: seq<Limb>, v0: nat, i: nat)
    requires v0 <= i < |q|
    ensures var r := Moving(q, v0, i + 1); r[i := r[i - v0]] == Moving(q, v0, i)
  {}

  lemma LimbsMovedUp(q: seq<Limb>, v0: nat)
    requires v0 <= |q| && Val(q) < Weight(|q| - v0)
    ensures Val(Zeros(v0) + Moving(q, v0, v0)[v0..]) as int == Val(q) * Weight(v0)
  {
    hide Val, Weight;
    assert Moving(q, v0, v0)[v0..] == q[..|q| - v0];
    ValAppend(Zeros(v0), q[..|q| - v0]);
    ValZero(Zeros(v0));
    ValHighZero(q, |q| - v0);
  }

  method ClearLow(X: Mpi, k: nat)
    requires k <= |X.p|
    modifies X`p
    ensures X.p == Zeros(k) + old(X.p)[k..]
  {
    hide *;
    ghost var q := X.p;
    var i := k;
    while i > 0
      invariant 0 <= i <= k
      invariant X.p == q[..i] + (Zeros(k - i) + q[k..])
    {
      X.p := X.p[i - 1 := 0];
      i := i - 1;
      ClearedOne(q, k, i);
    }
  }

  lemma ClearedOne(q: seq<Limb>, k: nat, i: nat)
    requires i < k <= |q|
    ensures (q[..i + 1] + (Zeros(k - i - 1) + q[k..]))[i := 0] == q[..i] + (Zeros(k - i) + q[k..])
  {}

  /** The bit loop. */
  method ShiftBitsLeft(X: Mpi, v0: nat, t1: nat)
    requires 0 < t1 < biL && v0 <= |X.p| && Val(X.p[..v0]) == 0
    requires Val(X.p) * P2(t1) < Weight(|X.p|)
    modifies X`p
    ensures |X.p| == |old(X.p)| && Val(X.p) as int == old(Val(X.p)) * P2(t1)
  {
    hide *;
    var r0 := 0;
    ghost var q := X.p;
    ghost var e := P2(t1);
    var i := v0;
    assert Val(q[..i]) * e == 0;
    while i < |X.p|
      invariant v0 <= i <= |X.p| == |q|
      invariant X.p[i..] == q[i..] && r0 < e
      invariant Val(X.p[..i]) + Weight(i) * r0 == Val(q[..i]) * e
    {
      ghost var a, b, x := X.p[..i], Weight(i), X.p[i];
      assert x == q[i] by { assert X.p[i..][0] == q[i..][0]; }
      ShlSplit(x, t1);
      BaseSplit(t1);
      WordRoom(x % P2(biL - t1), r0, P2(biL - t1), e);
      OrDisjoint(Shl(x, t1), r0, t1);
      var r1 := Shr(X.p[i], biL - t1);
      X.p := X.p[i := Shl(X.p[i], t1)];
      X.p := X.p[i := Or(X.p[i], r0)];
      ghost var y := X.p[i];
      assert X.p[..i] == a;
      ValSnoc(X.p, i);
      ValSnoc(q, i);
      WeightNext(i);
      ShlAlgebra(Val(a), b, Shl(x, t1), r0, BASE, r1, Val(q[..i]), e, x);
      r0 := r1;
      i := i + 1;
    }
    assert X.p[..i] == X.p && q[..i] == q;
    if r0 > 0 { MulLe(Weight(i), 1, r0); }
  }

  lemma ShlAlgebra(lo: int, b: int, s: int, r0: int, base: int, h: int, done: int, e: int, x: int)
    requires lo + b * r0 == done * e
    requires x * e == s + base * h
    ensures (lo + b * (s + r0)) + (b * base) * h == (done + b * x) * e
  {}

  // ----- Shift right ----------------------------------------------------------------------

  /** mbedtls_mpi_shift_r: the magnitude is divided, rounding down */
  method ShiftR(X: Mpi, count: nat)
    modifies X
    ensures Val(X.p) == old(Val(X.p)) / P2(count)
    ensures X.s == old(X.s) || (X.s == 1 && Val(X.p) == 0)
    ensures |X.p| == |old(X.p)| || (|old(X.p)| == 0 && |X.p| == 1)
  {
    hide *;
    var v0, v1 := count / biL, count % biL;
    ghost var v := Val(X.p);
    if v0 > |X.p| || (v0 == |X.p| && v1 > 0) {
      ValBound(X.p);
      ShiftedOut(v, |X.p|, count);
      AbsZero();
      X.LSet(0);
      return;
    }
    DivideTwice(v, count);
    if v0 > 0 {
      ShiftLimbsRight(X, v0);
    } else {
      WeightZero();
    }
    if v1 > 0 {
      ShiftBitsRight(X, v1);
    } else {
      P2Zero();
    }
  }

  lemma DivideTwice(v: nat, count: nat)
    ensures v / Weight(count / biL) / P2(count % biL) == v / P2(count)
  {
    hide *;
    var v0, v1 := count / biL, count % biL;
    WeightIsP2(v0);
    P2Add(biL * v0, v1);
    DivDiv(v, Weight(v0), P2(v1));
  }

  lemma ShiftedOut(v: nat, len: nat, count: nat)
    requires v < Weight(len) && len <= count / biL
    ensures v / P2(count) == 0
  {
    hide *;
    assert biL * len <= count;
    WeightIsP2(len);
    P2Mono(biL * len, count);
    DivModSmall(v, P2(count));
  }

  lemma AbsZero()
    ensures Abs(0) == 0
  {}

  method ShiftLimbsRight(X: Mpi, v0: nat)
    requires 0 < v0 <= |X.p|
    modifies X`p
    ensures |X.p| == |old(X.p)| && Val(X.p) == old(Val(X.p)) / Weight(v0)
  {
    hide *;
    ghost var q := X.p;
    var i := 0;
    while i < |X.p| - v0
      invariant 0 <= i <= |X.p| - v0 && |X.p| == |q|
      invariant X.p[..i] == q[v0..v0 + i] && X.p[i..] == q[i..]
    {
      assert X.p[i + v0] == X.p[i..][v0] == q[i + v0];
      X.p := X.p[i := X.p[i + v0]];
      i := i + 1;
      assert X.p[..i] == X.p[..i - 1] + [X.p[i - 1]];
      assert q[v0..v0 + i] == q[v0..v0 + i - 1] + [q[v0 + i - 1]];
      assert X.p[i..] == q[i..];
    }
    ghost var k := i;
    while i < |X.p|
      invariant k <= i <= |X.p| == |q|
      invariant X.p[..k] == q[v0..]
      invariant forall j :: k <= j < i ==> X.p[j] == 0
    {
      X.p := X.p[i := 0];
      i := i + 1;
    }
    LimbsMovedDown(X.p, q, v0);
  }

  lemma LimbsMovedDown(p: seq<Limb>, q: seq<Limb>, v0: nat)
    requires v0 <= |q| == |p|
    requires p[..|q| - v0] == q[v0..] && (forall j :: |q| - v0 <= j < |p| ==> p[j] == 0)
    ensures Val(p) == Val(q) / Weight(v0)
  {
    hide *;
    var k := |q| - v0;
    assert Val(p) == Val(q[v0..]) by {
      ZeroFrom(p, k);
      ValTrim(p, k);
    }
    ValDivMod(q, v0);
  }

  method ShiftBitsRight(X: Mpi, v1: nat)
    requires 0 < v1 < biL
    modifies X`p
    ensures |X.p| == |old(X.p)| && Val(X.p) == old(Val(X.p)) / P2(v1)
  {
    hide *;
    var r0 := 0;
    ghost var q := X.p;
    ghost var rem := 0;
    ghost var d, f := P2(v1), P2(biL - v1);
    assert BASE == d * f by { BaseSplit(v1); }
    var i := |X.p|;
    assert X.p[i..] == [] && q[i..] == [];
    ValNil(X.p[i..], q[i..], d);
    while i > 0
      invariant 0 <= i <= |X.p| == |q| && X.p[..i] == q[..i]
      invariant 0 <= rem < d && r0 == rem * f
      invariant Val(q[i..]) == d * Val(X.p[i..]) + rem
    {
      i := i - 1;
      ghost var hi, x := X.p[i + 1..], X.p[i];
      assert x == q[i] by { assert X.p[..i + 1][i] == q[..i + 1][i]; }
      var r1 := Shl(X.p[i], biL - v1);
      RightWord(x, v1, rem);
      OrDisjoint(r0, Shr(x, v1), biL - v1);
      OrSymmetric(Shr(x, v1), r0);
      X.p := X.p[i := Shr(X.p[i], v1)];
      X.p := X.p[i := Or(X.p[i], r0)];
      assert X.p[i + 1..] == hi;
      ValHead(q, i);
      ValHead(X.p, i);
      ShrAlgebra(x, BASE, d, f, Val(hi), rem);
      r0 := r1;
      rem := x % d;
    }
    assert X.p[0..] == X.p && q[0..] == q;
    DivModLow(Val(q), d, Val(X.p), rem);
  }

  lemma ValNil(p: seq<Limb>, q: seq<Limb>, d: nat)
    requires p == [] && q == []
    ensures Val(q) == d * Val(p) + 0
  {}

  lemma ShrAlgebra(x: nat, base: int, d: nat, f: int, ph: int, rem: int)
    requires 0 < d && base == d * f
    ensures x + base * (d * ph + rem) == d * ((x / d + rem * f) + base * ph) + x % d
  {
    assert x == d * (x / d) + x % d;
  }

  /** The word written by the right shift fits, and the bits carried down are x mod 2^v1. */
  lemma RightWord(x: Limb, v1: nat, rem: nat)
    requires 0 < v1 < biL
    requires rem < P2(v1)
    ensures Shr(x, v1) == x / P2(v1) < P2(biL - v1)
    ensures rem * P2(biL - v1) % P2(biL - v1) == 0
    ensures Shr(x, v1) + rem * P2(biL - v1) < BASE
    ensures Shl(x, biL - v1) == x % P2(v1) * P2(biL - v1)
  {
    hide *;
    var d, f := P2(v1), P2(biL - v1);
    ShlSplit(x, biL - v1);
    ShiftDefinitions(x, v1);
    DivModUnique(rem * f, f, rem, 0);
    assert BASE == d * f by { BaseSplit(v1); }
    WordRoom(rem, Shr(x, v1), d, f);
  }
}
