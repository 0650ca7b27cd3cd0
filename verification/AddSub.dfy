/** Addition and subtraction of magnitudes and of signed values. */
module AddSubs {
  import opened Arith
  import opened Limbs
  import opened Mpis

  // ----- Unsigned addition ----------------------------------------------------------------

  /** One limb of the addition loop: two wrapping additions and their carries. */
  lemma AddLimb(x: Limb, c: nat, t: Limb)
    requires c <= 1
    ensures var x1: Limb := (x + c) % BASE; var c1 := if x1 < c then 1 else 0;
      var x2: Limb := (x1 + t) % BASE; var c2 := if x2 < t then 1 else 0;
      c1 + c2 <= 1 && x2 + BASE * (c1 + c2) == x + c + t
  {
    hide *;
    WrapAdd(x, c);
    WrapAdd((x + c) % BASE, t);
  }

  /** A wrapping addition and its carry. */
  lemma WrapAdd(x: Limb, y: nat)
    requires y < BASE
    ensures var r := (x + y) % BASE;
      r + BASE * (if r < y then 1 else 0) == x + y
  {
    hide *;
    if x + y < BASE {
      DivModSmall(x + y, BASE);
    } else {
      DivModUnique(x + y, BASE, 1, x + y - BASE);
    }
  }

  /** mbedtls_mpi_add_abs: X = |A| + |B| */
  method AddAbs(X: Mpi, A: Mpi, B: Mpi)
    modifies X
    ensures Val(X.p) == old(Val(A.p)) + old(Val(B.p)) && X.s == 1
    ensures |X.p| >= |old(X.p)|
  {
    hide *;
    ghost var va, vb := Val(A.p), Val(B.p);
    var A', B' := A, B;
    if X == B { A', B' := X, A; }
    if X != A' { X.Copy(A'); }
    X.s := 1;
    // X holds one summand and B' the other, also when all three are one object
    assert Val(X.p) + Val(B'.p) == va + vb;
    var j := SignificantLimbs(B'.p);
    ghost var q := B'.p;
    SigValue(q);
    X.Grow(j);
    if B' == X { assert q + Zeros(0) == q by { assert |Zeros(0)| == 0; } }
    var c := AddLimbs(X, B', j, q[..j]);
    RippleCarry(X, j, c);
  }

  /** The first loop: add the j low limbs of B', which may be X itself. */
  method AddLimbs(X: Mpi, B': Mpi, j: nat, ghost o: seq<Limb>) returns (c: nat)
    requires j <= |X.p| && j <= |B'.p| && o == B'.p[..j]
    modifies X`p
    ensures |X.p| == |old(X.p)| && c <= 1
    ensures Val(X.p) == old(Val(X.p)) + Val(o) - Weight(j) * c
  {
    hide *;
    ghost var q := X.p;
    var i := 0;
    c := 0;
    assert X.p[..i] == q[..i] == o[..i] == [] && B'.p[i..j] == o[i..];
    ValEmpty();
    while i < j
      invariant 0 <= i <= j <= |X.p| == |q| && 0 <= c <= 1 && j <= |B'.p|
      invariant X.p[i..] == q[i..]
      invariant B'.p[i..j] == o[i..]
      invariant Val(X.p[..i]) + Weight(i) * c == Val(q[..i]) + Val(o[..i])
    {
      ghost var a, x := X.p[..i], X.p[i];
      assert x == q[i] by { assert X.p[i..][0] == q[i..][0]; }
      var tmp := B'.p[i];
      assert tmp == o[i] by { assert B'.p[i..j][0] == o[i..][0]; }
      AddLimb(X.p[i], c, tmp);
      X.p := X.p[i := (X.p[i] + c) % BASE];
      var c' := if X.p[i] < c then 1 else 0;
      X.p := X.p[i := (X.p[i] + tmp) % BASE];
      c' := c' + (if X.p[i] < tmp then 1 else 0);
      assert X.p[..i] == a;
      ValSnoc(X.p, i);
      ValSnoc(q, i);
      ValSnoc(o, i);
      WeightNext(i);
      AddAlgebra(Val(a), Weight(i), X.p[i], c, c', BASE, x, tmp, Val(q[..i]), Val(o[..i]));
      c := c';
      i := i + 1;
    }
    assert o[..j] == o;
    ValSplit(X.p, j);
    ValSplit(q, j);
  }

  /** The second loop: ripple the carry upwards, growing X when it runs out of limbs. */
  method RippleCarry(X: Mpi, j: nat, c0: nat)
    requires j <= |X.p| && c0 <= 1
    modifies X`p
    ensures Val(X.p) - old(Val(X.p)) == Weight(j) * c0
    ensures |X.p| >= |old(X.p)|
  {
    hide *;
    var i, c: int := j, c0;
    ghost var goal: int := Val(X.p) + Weight(j) * c;
    while c != 0
      invariant 0 <= i <= |X.p| && 0 <= c <= 1 && |X.p| >= |old(X.p)|
      invariant Val(X.p) == goal - Weight(i) * c
      decreases if c == 0 then 0 else 1 + |X.p| - i
    {
      if i >= |X.p| {
        X.Grow(i + 1);
        assert X.p[i] == 0 by { ZerosCons(0); }
      }
      ghost var p := X.p;
      WrapAdd(X.p[i], c);
      X.p := X.p[i := (X.p[i] + c) % BASE];
      ValUpdate(p, i, X.p[i]);
      var c' := if X.p[i] < c then 1 else 0;
      WeightNext(i);
      RippleAlgebra(Weight(i), p[i], c, X.p[i], c', BASE);
      c := c';
      i := i + 1;
    }
  }

  lemma RippleAlgebra(w: int, x: int, c: int, y: int, c': int, base: int)
    requires y + base * c' == x + c
    ensures w * y - w * x + (w * base) * c' == w * c
  {}

  lemma AddAlgebra(lo: int, b: int, y: int, c: int, c': int, base: int, x: int, t: int, lq: int, lo': int)
    requires lo + b * c == lq + lo'
    requires y + base * c' == x + c + t
    ensures (lo + b * y) + (b * base) * c' == (lq + b * x) + (lo' + b * t)
  {}

  // ----- Unsigned subtraction -------------------------------------------------------------

  /** One limb of mpi_sub_hlp: two wrapping subtractions and their borrows. */
  lemma SubLimb(l: Limb, r: Limb, c: nat)
    requires c <= 1
    ensures var z := if l < c then 1 else 0; var t: Limb := (l - c) % BASE;
      var c' := (if t < r then 1 else 0) + z;
      c' <= 1 && (t - r) % BASE - BASE * c' == l - r - c
  {
    hide *;
    WrapSub(l, c);
    WrapSub((l - c) % BASE, r);
  }

  /** A wrapping subtraction and its borrow. */
  lemma WrapSub(x: Limb, y: nat)
    requires y < BASE
    ensures (x - y) % BASE - BASE * (if x < y then 1 else 0) == x - y
  {
    hide *;
    if x >= y {
      DivModSmall(x - y, BASE);
    } else {
      DivModUnique(x - y, BASE, -1, x - y + BASE);
    }
  }

  /** mpi_sub_hlp: the n low limbs of D become l - r, where D may hold l or r in place.
      The result is the borrow. */
  method SubHlp(D: Mpi, off: nat, n: nat, L: Mpi, loff: nat, R: Mpi) returns (c: nat)
    requires off + n <= |D.p| && loff + n <= |L.p| && n <= |R.p|
    requires D == L ==> off == loff
    requires D == R ==> off == 0
    modifies D`p
    ensures |D.p| == |old(D.p)| && c <= 1
    ensures D.p[..off] == old(D.p[..off]) && D.p[off + n..] == old(D.p[off + n..])
    ensures Val(D.p[off..off + n]) == old(Val(L.p[loff..loff + n])) - old(Val(R.p[..n])) + Weight(n) * c
  {
    hide *;
    ghost var q := D.p;
    ghost var l, r := L.p[loff..loff + n], R.p[..n];
    ghost var done: seq<Limb> := [];
    var i := 0;
    c := 0;
    StoredStart(q, off);
    ValEmpty();
    assert l[..0] == r[..0] == [];
    while i < n
      invariant 0 <= i <= n && |done| == i && c <= 1
      invariant D.p == Stored(q, off, done)
      invariant L != D ==> L.p == old(L.p)
      invariant R != D ==> R.p == old(R.p)
      invariant Val(done) == Val(l[..i]) - Val(r[..i]) + Weight(i) * c
    {
      StoredAt(q, off, done);
      assert L.p[loff + i] == l[i] && R.p[i] == r[i];
      SubLimb(l[i], r[i], c);
      var z := if L.p[loff + i] < c then 1 else 0;
      var t: Limb := (L.p[loff + i] - c) % BASE;
      var c' := (if t < R.p[i] then 1 else 0) + z;
      var d: Limb := (t - R.p[i]) % BASE;
      D.p := D.p[off + i := d];
      StoredStep(q, off, done, d);
      SubStep(done, d, l, r, i, c, c');
      done := done + [d];
      c := c';
      i := i + 1;
    }
    assert l[..n] == l && r[..n] == r;
    StoredSlices(q, off, done);
  }

  /** q with its limbs from off on replaced by the finished ones. */
  ghost function Stored(q: seq<Limb>, off: nat, done: seq<Limb>): (p: seq<Limb>)
    requires off + |done| <= |q|
    ensures |p| == |q|
  {
    q[..off] + done + q[off + |done|..]
  }

  lemma StoredStart(q: seq<Limb>, off: nat)
    requires off <= |q|
    ensures Stored(q, off, []) == q
  {}

  lemma StoredAt(q: seq<Limb>, off: nat, done: seq<Limb>)
    requires off + |done| < |q|
    ensures Stored(q, off, done)[off + |done|] == q[off + |done|]
  {}

  lemma StoredStep(q: seq<Limb>, off: nat, done: seq<Limb>, d: Limb)
    requires off + |done| < |q|
    ensures Stored(q, off, done)[off + |done| := d] == Stored(q, off, done + [d])
  {}

  lemma StoredSlices(q: seq<Limb>, off: nat, done: seq<Limb>)
    requires off + |done| <= |q|
    ensures var p := Stored(q, off, done); var k := off + |done|;
      p[..off] == q[..off] && p[off..k] == done && p[k..] == q[k..]
  {}

  lemma SubStep(done: seq<Limb>, d: Limb, l: seq<Limb>, r: seq<Limb>, i: nat, c: int, c': int)
    requires i == |done| && i < |l| && i < |r|
    requires Val(done) == Val(l[..i]) - Val(r[..i]) + Weight(i) * c
    requires d - BASE * c' == l[i] - r[i] - c
    ensures Val(done + [d]) == Val(l[..i + 1]) - Val(r[..i + 1]) + Weight(i + 1) * c'
  {
    hide *;
    ValAppend(done, [d]);
    ValOne(d);
    ValSnoc(l, i);
    ValSnoc(r, i);
    WeightNext(i);
    SubAlgebra(Val(l[..i]), Val(r[..i]), Weight(i), c, c', BASE, d, l[i], r[i]);
  }

  lemma SubAlgebra(vl: int, vr: int, w: int, c: int, c': int, base: int, d: int, x: int, y: int)
    requires d - base * c' == x - y - c
    ensures (vl - vr + w * c) + w * d == (vl + w * x) - (vr + w * y) + (w * base) * c'
  {}

  /** Take the borrow from the limbs at n and above; false when they are all zero. */
  method RippleBorrow(X: Mpi, n: nat) returns (ok: bool)
    requires n <= |X.p|
    modifies X`p
    ensures |X.p| == |old(X.p)|
    ensures ok <==> old(Val(X.p)) >= Weight(n)
    ensures ok ==> Val(X.p) == old(Val(X.p)) - Weight(n)
  {
    hide *;
    ghost var goal := Val(X.p) - Weight(n);
    var i := n;
    while i < |X.p| && X.p[i] == 0
      invariant n <= i <= |X.p| == |old(X.p)|
      invariant Val(X.p) - Weight(i) == goal
    {
      ghost var p := X.p;
      assert (0 - 1) % BASE == BASE - 1 by { DivModUnique(-1, BASE, -1, BASE - 1); }
      X.p := X.p[i := (X.p[i] - 1) % BASE];
      ValUpdate(p, i, X.p[i]);
      WeightNext(i);
      assert Weight(i) * (BASE - 1) - Weight(i) * 0 == Weight(i) * BASE - Weight(i);
      i := i + 1;
    }
    if i == |X.p| {
      ValBound(X.p);
      return false;
    }
    ghost var p := X.p;
    X.p := X.p[i := X.p[i] - 1];
    ValUpdate(p, i, X.p[i]);
    MulAddDist(Weight(i), p[i], 1);
    return true;
  }

  /** mbedtls_mpi_sub_abs: X = |A| - |B|; all three may be the same object */
  method SubAbs(X: Mpi, A: Mpi, B: Mpi) returns (ret: Status)
    modifies X
    ensures ret == (if old(Val(A.p)) >= old(Val(B.p)) then Ok else NegativeValue)
    ensures ret == Ok ==> Val(X.p) == old(Val(A.p)) - old(Val(B.p)) && X.s == 1
    ensures |X.p| >= |old(X.p)|
    ensures ret == Ok ==> |X.p| == if |old(X.p)| < |old(A.p)| then |old(A.p)| else |old(X.p)|
  {
    hide *;
    ghost var a, b := A.p, B.p;
    var n := SignificantLimbs(B.p);
    SigValue(b);
    if n > |A.p| {
      TooLong(a, b);
      return NegativeValue;
    }
    SubPrepare(X, A, B, n);
    ghost var x := X.p;
    var carry := SubHlp(X, 0, n, A, 0, B);
    SubTotal(X.p, x, a, b, n, carry);
    if carry != 0 {
      var ok := RippleBorrow(X, n);
      if !ok { return NegativeValue; }
    }
    X.s := 1;
    return Ok;
  }

  /** Set the high limbs of X to match A; the n low limbs stay, because X may be B. */
  method SubPrepare(X: Mpi, A: Mpi, B: Mpi, n: nat)
    requires n <= |A.p| && n <= |B.p|
    modifies X`p
    ensures |X.p| == if |old(X.p)| < |old(A.p)| then |old(A.p)| else |old(X.p)|
    ensures X.p[n..] == old(A.p)[n..] + Zeros(|X.p| - |old(A.p)|)
    ensures |A.p| >= n && A.p[..n] == old(A.p)[..n]
    ensures |B.p| >= n && B.p[..n] == old(B.p)[..n]
  {
    hide *;
    ghost var a, b := A.p, B.p;
    X.Grow(|A.p|);
    ghost var x := X.p;
    assert A == X ==> x == a + Zeros(0);
    if |A.p| > n {
      X.p := X.p[..n] + A.p[n..] + X.p[|A.p|..];
    }
    if |X.p| > |A.p| {
      X.p := X.p[..|A.p|] + Zeros(|X.p| - |A.p|);
    }
    SetupSteps(x, a, n);
    assert X.p == WithHigh(x, a, n);
    assert A == X ==> x == a by { GrownBy(x, a); }
    assert B == X ==> x[..n] == b[..n] by { GrownBy(x, b); }
  }

  /** x with its limbs from n on set to those of a, and to zero beyond them */
  ghost function WithHigh(x: seq<Limb>, a: seq<Limb>, n: nat): seq<Limb>
    requires n <= |a| <= |x|
  {
    x[..n] + a[n..] + Zeros(|x| - |a|)
  }

  lemma SetupSteps(x: seq<Limb>, a: seq<Limb>, n: nat)
    requires n <= |a| <= |x|
    ensures var p1 := if |a| > n then x[..n] + a[n..] + x[|a|..] else x;
      (if |x| > |a| then p1[..|a|] + Zeros(|x| - |a|) else p1) == WithHigh(x, a, n)
    ensures var p := WithHigh(x, a, n);
      |p| == |x| && p[..n] == x[..n] && p[n..] == a[n..] + Zeros(|x| - |a|)
  {
    assert |Zeros(0)| == 0;
  }

  lemma GrownBy(x: seq<Limb>, a: seq<Limb>)
    ensures forall k | x == a + Zeros(k) :: a <= x && (k == 0 ==> x == a)
  {}

  lemma SubTotal(p: seq<Limb>, q: seq<Limb>, a: seq<Limb>, b: seq<Limb>, n: nat, c: nat)
    requires n <= |a| <= |p| == |q| && n == Sig(b)
    requires p[n..] == a[n..] + Zeros(|q| - |a|)
    requires Val(p[..n]) == Val(a[..n]) - Val(b[..n]) + Weight(n) * c
    ensures Val(p) == Val(a) - Val(b) + Weight(n) * c
  {
    hide *;
    SigValue(b);
    ValSplit(p, n);
    ValSplit(a, n);
    ValPad(a[n..], Zeros(|q| - |a|));
  }

  lemma TooLong(a: seq<Limb>, b: seq<Limb>)
    requires Sig(b) > |a|
    ensures Val(b) > Val(a)
  {
    hide *;
    SigProperties(b);
    ValBound(a);
    WeightMono(|a|, Sig(b) - 1);
  }

  // ----- Signed addition and subtraction --------------------------------------------------

  /** mbedtls_mpi_add_mpi: X = A + B; all three may be the same object */
  method AddMpi(X: Mpi, A: Mpi, B: Mpi)
    modifies X
    ensures X.Value() == old(A.Value()) + old(B.Value())
    ensures |X.p| >= |old(X.p)|
  {
    hide Val, Weight, Sig;
    var s := A.s;
    if A.s * B.s < 0 {
      var cmp := CmpAbs(A, B);
      if cmp >= 0 {
        var ret := SubAbs(X, A, B);
        X.s := s;
      } else {
        var ret := SubAbs(X, B, A);
        X.s := 0 - s;
      }
    } else {
      AddAbs(X, A, B);
      X.s := s;
    }
  }

  /** mbedtls_mpi_sub_mpi: X = A - B; all three may be the same object */
  method SubMpi(X: Mpi, A: Mpi, B: Mpi)
    modifies X
    ensures X.Value() == old(A.Value()) - old(B.Value())
    ensures |X.p| >= |old(X.p)|
  {
    hide Val, Weight, Sig;
    var s := A.s;
    if A.s * B.s > 0 {
      var cmp := CmpAbs(A, B);
      if cmp >= 0 {
        var ret := SubAbs(X, A, B);
        X.s := s;
      } else {
        var ret := SubAbs(X, B, A);
        X.s := 0 - s;
      }
    } else {
      AddAbs(X, A, B);
      X.s := s;
    }
  }

  /** mbedtls_mpi_add_int: X = A + b */
  method AddInt(X: Mpi, A: Mpi, b: int)
    requires Abs(b) < BASE
    modifies X
    ensures X.Value() == old(A.Value()) + b
  {
    var B := FromInt(b);
    AddMpi(X, A, B);
  }

  /** mbedtls_mpi_sub_int: X = A - b */
  method SubInt(X: Mpi, A: Mpi, b: int)
    requires Abs(b) < BASE
    modifies X
    ensures X.Value() == old(A.Value()) - b
  {
    var B := FromInt(b);
    SubMpi(X, A, B);
  }
}
