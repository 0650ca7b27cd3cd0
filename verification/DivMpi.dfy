/** mbedtls_mpi_div_mpi: long division, and the modulo functions built on it. */
module DivMpis {
  import opened Arith
  import opened Limbs
  import opened Mpis
  import opened Shifts
  import opened AddSubs
  import opened Muls
  import opened IntDivs

  // ----- The quotient digit in plain integers ---------------------------------------------
  //
  // u is the running remainder, v the divisor moved up to the current digit, q the true digit
  // floor(u / v). U3 and V2 are the three top limbs of u and the two top limbs of v, both in
  // units of S.

  /** The estimate from the two top limbs of u and the top limb of v is never too small. */
  lemma EstimateNotBelow(u: nat, v: nat, q: nat, top: nat, yt: nat, w: nat, est: nat, base: nat)
    requires v * q <= u && u < (top + 1) * w && yt * w <= v && 0 < yt && 0 < w
    requires top < est * yt + yt
    ensures q <= est
  {
    if q >= est + 1 {
      MulLe(v, est + 1, q);
      MulLe(est + 1, yt * w, v);
      MulLe(w, top + 1, est * yt + yt);
      MulAssoc(est + 1, yt, w);
    }
  }

  /** A digit failing the three-by-two limb test is too large. */
  lemma FailsTest(u: nat, v: nat, q: nat, U3: nat, V2: nat, S: nat, est: nat)
    requires v * q <= u < (U3 + 1) * S && V2 * S <= v && 0 < S
    requires est * V2 > U3
    ensures q < est
  {
    if q >= est {
      MulLe(q, V2 * S, v);
      MulAssoc(q, V2, S);
      MulLe(V2, est, q);
      MulLe(S, U3 + 1, q * V2);
    }
  }

  /** A digit passing it is at most one too large. */
  lemma PassesTest(u: nat, v: nat, q: nat, U3: nat, V2: nat, S: nat, est: nat, base: nat)
    requires u < v * q + v && U3 * S <= u && v < (V2 + 1) * S && 0 < S
    requires V2 * S <= v && base <= V2 && est < base
    requires est * V2 <= U3
    ensures est <= q + 1
  {
    // est * v < est * V2 * S + est * S <= u + v
    MulLe(est, v, (V2 + 1) * S);
    PassAlgebra(est, V2, S);
    MulLe(S, est * V2, U3);
    MulLe(S, est + 1, V2);
    MulAddDist(S, est, 1);
    if est >= q + 2 {
      MulLe(v, q + 2, est);
      MulAddDist(v, q, 2);
    }
  }

  lemma PassAlgebra(est: int, V2: int, S: int)
    ensures est * ((V2 + 1) * S) == (est * V2) * S + S * est
  {}

  /** After subtracting est * v the remainder is right, or negative and right after one add-back. */
  lemma AddBackOnce(u: nat, v: nat, q: nat, est: nat)
    requires v * q <= u < v * q + v && q <= est <= q + 1
    ensures u - v * est < 0 <==> est == q + 1
    ensures est == q + 1 ==> u - v * est + v == u - v * q
    ensures est == q ==> 0 <= u - v * est < v
  {
    if est == q + 1 { MulAddDist(v, q, 1); }
  }

  // ----- Reading the top limbs ------------------------------------------------------------

  /** The limbs k .. m-1 of a number below Weight(m) bracket it in units of Weight(k). */
  lemma HighLimbs(p: seq<Limb>, k: nat, m: nat)
    requires k <= m <= |p| && Val(p) < Weight(m)
    ensures Val(p[k..m]) * Weight(k) <= Val(p) < (Val(p[k..m]) + 1) * Weight(k)
  {
    hide *;
    ValHighZero(p, m);
    ValSplit(p[..m], k);
    assert p[..m][..k] == p[..k] && p[..m][k..] == p[k..m];
    ValBound(p[..k]);
    assert |p[..k]| == k;
    Bracket(Val(p), Val(p[..k]), Weight(k), Val(p[k..m]));
  }

  lemma Bracket(v: int, lo: nat, w: int, h: int)
    requires v == lo + w * h && lo < w
    ensures h * w <= v < (h + 1) * w
  {}

  /** The two top limbs of the dividend. */
  lemma TopTwo(p: seq<Limb>, i: nat)
    requires 1 <= i < |p| && Val(p) < Weight(i + 1)
    ensures var top := p[i] * BASE + p[i - 1];
      top * Weight(i - 1) <= Val(p) < (top + 1) * Weight(i - 1)
  {
    hide *;
    HighLimbs(p, i - 1, i + 1);
    assert p[i - 1..i + 1] == [p[i - 1], p[i]];
    ValTwo(p[i - 1], p[i]);
  }

  /** The two top limbs of the divisor as the code sets them up in T1. */
  function DivisorTop(y: seq<Limb>, t: nat): (r: seq<Limb>)
    requires t < |y|
    ensures |r| == 2
  {
    [if t < 1 then 0 else y[t - 1], y[t]]
  }

  /** The three top limbs of the dividend as the code sets them up in T2. */
  function DividendTop(x: seq<Limb>, i: nat): (r: seq<Limb>)
    requires 1 <= i < |x|
    ensures |r| == 3
  {
    [if i < 2 then 0 else x[i - 2], x[i - 1], x[i]]
  }

  /** The limbs compared bracket remainder and divisor in units of S, both scaled by m. */
  ghost predicate InFrame(x: seq<Limb>, i: nat, y: seq<Limb>, t: nat, m: nat, S: nat)
    requires t < i < |x| && t < |y|
  {
    var U3, u := Val(DividendTop(x, i)), m * Val(x);
    var V2, v := Val(DivisorTop(y, t)), m * (Val(y) * Weight(i - t - 1));
    && m > 0 && S > 0
    && U3 * S <= u < (U3 + 1) * S
    && V2 * S <= v < (V2 + 1) * S && BASE <= V2
  }

  lemma DivisorTopValue(y: seq<Limb>, t: nat)
    requires t < |y| && y[t] > 0
    ensures Val(DivisorTop(y, t)) == (if t < 1 then 0 else y[t - 1]) + BASE * y[t]
    ensures BASE <= Val(DivisorTop(y, t))
  {
    hide Val;
    ValTwo(if t < 1 then 0 else y[t - 1], y[t]);
    MulLe(BASE, 1, y[t]);
  }

  /** One scale m for both numbers under which the limbs compared in the test bracket them. */
  lemma TestFrame(x: seq<Limb>, i: nat, y: seq<Limb>, t: nat) returns (m: nat, S: nat)
    requires t < i < |x| && t < |y| && y[t] > 0
    requires Val(x) < Weight(i + 1) && Val(y) < Weight(t + 1)
    ensures InFrame(x, i, y, t, m, S)
  {
    hide Val, Weight, DividendTop, DivisorTop;
    DivisorTopValue(y, t);
    if i >= 2 {
      m, S := 1, Weight(i - 2);
      DividendBracket(x, i);
      if t >= 1 {
        DivisorBracket(y, t);
        WeightAdd(t - 1, i - t - 1);
        ScaleBracket(Val(DivisorTop(y, t)), Val(y), Weight(t - 1), Weight(i - t - 1));
      } else {
        OneLimb(y, t);
        WeightNext(i - 2);
        OneLimbBracket(y[t], BASE, S);
      }
    } else {
      m, S := BASE, 1;
      ShortDividend(x, i);
      OneLimb(y, t);
      WeightZero();
    }
  }

  lemma OneLimbBracket(yt: int, base: int, S: int)
    requires 0 < S
    ensures (base * yt) * S == yt * (S * base) < (base * yt + 1) * S
  {}

  lemma ScaleBracket(a: int, v: int, w: int, z: int)
    requires a * w <= v < (a + 1) * w && z > 0
    ensures a * (w * z) <= v * z < (a + 1) * (w * z)
  {
    MulLe(z, a * w, v);
    MulLt(z, v, (a + 1) * w);
    MulAssoc(a, w, z);
    MulAssoc(a + 1, w, z);
  }

  lemma DividendBracket(x: seq<Limb>, i: nat)
    requires 2 <= i < |x| && Val(x) < Weight(i + 1)
    ensures var U3 := Val(DividendTop(x, i)); U3 * Weight(i - 2) <= Val(x) < (U3 + 1) * Weight(i - 2)
  {
    hide Val, Weight;
    HighLimbs(x, i - 2, i + 1);
    assert x[i - 2..i + 1] == DividendTop(x, i);
  }

  lemma DivisorBracket(y: seq<Limb>, t: nat)
    requires 1 <= t < |y| && Val(y) < Weight(t + 1)
    ensures var V2 := Val(DivisorTop(y, t)); V2 * Weight(t - 1) <= Val(y) < (V2 + 1) * Weight(t - 1)
  {
    hide Val, Weight;
    HighLimbs(y, t - 1, t + 1);
    assert y[t - 1..t + 1] == DivisorTop(y, t);
  }

  lemma OneLimb(y: seq<Limb>, t: nat)
    requires t == 0 < |y| && Val(y) < Weight(1)
    ensures Val(y) == y[0]
  {
    hide *;
    ValHighZero(y, 1);
    assert y[..1] == [y[0]];
    ValOne(y[0]);
  }

  lemma ShortDividend(x: seq<Limb>, i: nat)
    requires i == 1 < |x| && Val(x) < Weight(2)
    ensures Val(DividendTop(x, i)) == BASE * Val(x)
  {
    hide Val, Weight;
    ValHighZero(x, 2);
    assert x[..2] == [x[0], x[1]];
    ValTwo(x[0], x[1]);
    ValThree(0, x[0], x[1]);
  }

  /** The divisor as it stands under the digit at position j = i - t - 1. */
  ghost function Moved(y: seq<Limb>, j: nat): nat
  {
    MulNonNeg(Val(y), Weight(j));
    Val(y) * Weight(j)
  }

  /** q is the digit of the quotient of x by y at position j. */
  ghost predicate IsDigit(q: nat, x: seq<Limb>, y: seq<Limb>, j: nat)
  {
    Moved(y, j) * q <= Val(x) < Moved(y, j) * q + Moved(y, j)
  }

  /** What the limb test says about a candidate digit. */
  lemma TestMeaning(x: seq<Limb>, i: nat, y: seq<Limb>, t: nat, q: nat, est: Limb)
    requires t < i < |x| && t < |y| && y[t] > 0
    requires Val(x) < Weight(i + 1) && Val(y) < Weight(t + 1)
    requires IsDigit(q, x, y, i - t - 1) && q <= est
    ensures est * Val(DivisorTop(y, t)) > Val(DividendTop(x, i)) ==> q < est
    ensures est * Val(DivisorTop(y, t)) <= Val(DividendTop(x, i)) ==> est <= q + 1
  {
    var m, S := TestFrame(x, i, y, t);
    hide Val, Weight, DividendTop, DivisorTop;
    var u, v := Val(x), Moved(y, i - t - 1);
    ScaleDigit(m, u, v, q);
    MulNonNeg(m, u);
    MulNonNeg(m, v);
    var U3, V2 := Val(DividendTop(x, i)), Val(DivisorTop(y, t));
    if est * V2 > U3 {
      FailsTest(m * u, m * v, q, U3, V2, S, est);
    } else {
      PassesTest(m * u, m * v, q, U3, V2, S, est, BASE);
    }
  }

  lemma ScaleDigit(m: nat, u: nat, v: nat, q: nat)
    requires m > 0 && v * q <= u < v * q + v
    ensures (m * v) * q <= m * u < (m * v) * q + m * v
  {
    MulLe(m, v * q, u);
    MulLt(m, u, v * q + v);
    MulAddDist(m, v * q, v);
    MulAssoc(m, v, q);
  }

  /** The first estimate is not below the true digit. */
  lemma FirstEstimate(x: seq<Limb>, i: nat, y: seq<Limb>, t: nat, q: nat, est: Limb)
    requires t < i < |x| && t < |y| && y[t] > 0
    requires Val(x) < Weight(i + 1) && Val(y) < Weight(t + 1)
    requires Val(x) < Moved(y, i - t) && IsDigit(q, x, y, i - t - 1)
    requires if x[i] >= y[t] then est == BASE - 1
             else est * y[t] <= x[i] * BASE + x[i - 1] < est * y[t] + y[t]
    ensures q <= est
  {
    hide Val, Weight;
    var j := i - t - 1;
    var u, v := Val(x), Moved(y, j);
    WeightNext(j);
    if x[i] >= y[t] {
      MulAssoc(Val(y), Weight(j), BASE);
      if q >= BASE { MulLe(v, BASE, q); }
    } else {
      TopTwo(x, i);
      HighLimbs(y, t, t + 1);
      assert y[t..t + 1] == [y[t]];
      ValOne(y[t]);
      WeightAdd(t, j);
      ScaleBracket(y[t], Val(y), Weight(t), Weight(j));
      EstimateNotBelow(u, v, q, x[i] * BASE + x[i - 1], y[t], Weight(i - 1), est, BASE);
    }
  }

  // ----- One step of the division loop ----------------------------------------------------

  /** The estimate from the top limbs. */
  method EstimateDigit(X: Mpi, i: nat, Y: Mpi, t: nat, ghost q: nat) returns (est: Limb)
    requires t < i < |X.p| && t < |Y.p| && Y.p[t] > 0
    requires Val(X.p) < Weight(i + 1) && Val(Y.p) < Weight(t + 1)
    requires Val(X.p) < Moved(Y.p, i - t) && IsDigit(q, X.p, Y.p, i - t - 1)
    ensures q <= est
  {
    hide *;
    if X.p[i] >= Y.p[t] {
      est := BASE - 1;
    } else {
      var r;
      est, r := IntDivInt(X.p[i], X.p[i - 1], Y.p[t]);
    }
    FirstEstimate(X.p, i, Y.p, t, q, est);
  }

  /** T1 := the two top limbs of the divisor, times z */
  method LoadDivisorTop(T1: Mpi, Y: Mpi, t: nat, z: Limb)
    requires T1 != Y && |T1.p| >= 2 && t < |Y.p|
    modifies T1
    ensures T1.Value() == z * Val(DivisorTop(Y.p, t)) && |T1.p| >= |old(T1.p)|
  {
    hide *;
    AbsZero();
    T1.LSet(0);
    T1.p := T1.p[0 := if t < 1 then 0 else Y.p[t - 1]];
    T1.p := T1.p[1 := Y.p[t]];
    LowTwo(T1.p, Y.p, t);
    SignedOne(Val(T1.p));
    assert T1.Value() == Val(T1.p) by { T1.ValueIs(); }
    MulInt(T1, T1, z);
  }

  lemma LowTwo(p: seq<Limb>, y: seq<Limb>, t: nat)
    requires t < |y| && |p| >= 2 && (forall k :: 2 <= k < |p| ==> p[k] == 0)
    requires p[0] == (if t < 1 then 0 else y[t - 1]) && p[1] == y[t]
    ensures Val(p) == Val(DivisorTop(y, t))
  {
    hide Val;
    ZeroFrom(p, 2);
    ValTrim(p, 2);
    assert p[..2] == DivisorTop(y, t);
  }

  lemma SignedOne(v: nat)
    ensures Signed(1, v) == v
  {}

  /** Correct the estimate in Z.p[j] until it passes the three-by-two limb test. */
  method CorrectEstimate(X: Mpi, i: nat, Y: Mpi, t: nat, Z: Mpi, j: nat, T1: Mpi, T2: Mpi, ghost q: nat)
    requires X != Z && Y != Z && T1 != X && T1 != Y && T1 != Z && T2 != X && T2 != Y && T2 != Z && T1 != T2
    requires t < i < |X.p| && t < |Y.p| && Y.p[t] > 0 && j == i - t - 1 < |Z.p|
    requires Val(X.p) < Weight(i + 1) && Val(Y.p) < Weight(t + 1)
    requires IsDigit(q, X.p, Y.p, j) && q <= Z.p[j]
    requires |T1.p| >= 2 && T2.s == 1
    modifies Z`p, T1, T2`p
    ensures |Z.p| == |old(Z.p)| && Z.p == old(Z.p)[j := Z.p[j]]
    ensures q <= Z.p[j] <= q + 1
    ensures |T1.p| >= |old(T1.p)|
  {
    hide *;
    ghost var z, est := Z.p, Z.p[j];
    T2.p := DividendTop(X.p, i);
    Z.p := Z.p[j := Wrap(Z.p[j] as int + 1)];
    var again := true;
    while again
      invariant |Z.p| == |z| && Z.p == z[j := Z.p[j]]
      invariant |T1.p| >= |old(T1.p)| && T2.p == DividendTop(X.p, i)
      invariant q <= est < BASE
      invariant again ==> Z.p[j] == Wrap(est + 1)
      invariant !again ==> Z.p[j] == est && est <= q + 1
      decreases est, again
    {
      WrapBack(est);
      Z.p := Z.p[j := Wrap(Z.p[j] as int - 1)];
      LoadDivisorTop(T1, Y, t, Z.p[j]);
      var cmp := CmpMpi(T1, T2);
      again := cmp > 0;
      T2.ValueIs();
      SignOf(T1.Value() - T2.Value());
      TestMeaning(X.p, i, Y.p, t, q, est);
      if again {
        WrapBack(est - 1);
        est := est - 1;
      }
    }
  }

  lemma SignOf(d: int)
    ensures Sgn(d) > 0 <==> d > 0
    ensures Sgn(d) < 0 <==> d < 0
    ensures Sgn(d) == 0 <==> d == 0
  {}

  /** Incrementing past the word and decrementing again is harmless. */
  lemma WrapBack(x: int)
    requires 0 <= x < BASE
    ensures Wrap(Wrap(x + 1) - 1) == x
    ensures x + 1 < BASE ==> Wrap(x + 1) == x + 1
  {
    if x + 1 < BASE {
      DivModSmall(x + 1, BASE);
      DivModSmall(x, BASE);
    } else {
      DivModUnique(BASE, BASE, 1, 0);
      DivModUnique(-1, BASE, -1, BASE - 1);
    }
  }

  /** T1 := Y * z moved up by j limbs */
  method LoadProduct(T1: Mpi, Y: Mpi, z: Limb, j: nat)
    requires T1 != Y && Y.s == 1
    modifies T1
    ensures T1.Value() == Moved(Y.p, j) * z && |T1.p| >= |old(T1.p)|
  {
    hide *;
    MulInt(T1, Y, z);
    Y.ValueIs();
    T1.ValueIs();
    ghost var s, v := T1.s, Val(T1.p);
    ShiftUp(T1, j);
    MovedIs(Y.p, j);
    SignedOne(Val(Y.p));
    SignedScale(s, v, Weight(j));
    T1.ValueIs();
    assert Val(Y.p) * z * Weight(j) == Val(Y.p) * Weight(j) * z;
  }

  lemma MovedIs(y: seq<Limb>, j: nat)
    ensures Moved(y, j) as int == Val(y) * Weight(j)
  {}

  /** Shift by whole limbs. */
  method ShiftUp(X: Mpi, j: nat)
    modifies X
    ensures Val(X.p) as int == old(Val(X.p)) * Weight(j) && X.s == old(X.s)
    ensures |X.p| >= |old(X.p)|
  {
    hide *;
    MulNonNeg(biL, j);
    WeightIsP2(j);
    ghost var n := |X.p|;
    ghost var need := BitLen(Val(X.p)) + biL * j;
    if biL * n < need { GrownLength(n, need); }
    ShiftL(X, biL * j);
  }

  /** One step of the main loop: find the digit at position j, store it and reduce X by it. */
  method DivStep(X: Mpi, i: nat, Y: Mpi, t: nat, Z: Mpi, j: nat, T1: Mpi, T2: Mpi)
    requires X != Y && X != Z && Y != Z && T1 != X && T1 != Y && T1 != Z
    requires T2 != X && T2 != Y && T2 != Z && T1 != T2
    requires t < i < |X.p| && t < |Y.p| && Y.p[t] > 0 && j == i - t - 1 < |Z.p|
    requires Val(Y.p) < Weight(t + 1) && Val(Y.p) > 0 && Y.s == 1
    requires 0 <= X.Value() < Moved(Y.p, j + 1)
    requires |T1.p| >= 2 && T2.s == 1
    modifies X, Z`p, T1, T2`p
    ensures |Z.p| == |old(Z.p)| && Z.p == old(Z.p)[j := Z.p[j]]
    ensures |X.p| >= |old(X.p)| && |T1.p| >= |old(T1.p)|
    ensures 0 <= X.Value() < Moved(Y.p, j)
    ensures X.Value() == old(X.Value()) - Moved(Y.p, j) * Z.p[j]
  {
    hide *;
    ghost var x, u, v := X.p, Val(X.p), Moved(Y.p, j);
    X.ValueIs();
    MagnitudeOf(X.s, u);
    RemainderBound(u, Y.p, i, t);
    ghost var q := TrueDigitExists(x, Y.p, j);
    var est := EstimateDigit(X, i, Y, t, q);
    Z.p := Z.p[j := est];
    CorrectEstimate(X, i, Y, t, Z, j, T1, T2, q);
    ghost var e := Z.p[j];
    DigitBracket(q, x, Y.p, j);
    AddBackOnce(u, v, q, e);
    LoadProduct(T1, Y, Z.p[j], j);
    SubMpi(X, X, T1);
    AbsZero();
    var cmp := CmpInt(X, 0);
    SignOf(X.Value() - 0);
    if cmp < 0 {
      AddBack(X, Y, T1, j);
      Z.p := Z.p[j := Z.p[j] - 1];
      MulAddDist(v, e, 1);
    }
  }

  /** X += Y moved up by j limbs */
  method AddBack(X: Mpi, Y: Mpi, T1: Mpi, j: nat)
    requires X != Y && T1 != X && T1 != Y && Y.s == 1 && |Y.p| > 0
    modifies X, T1
    ensures X.Value() == old(X.Value()) + Moved(Y.p, j)
    ensures |X.p| >= |old(X.p)| && |T1.p| >= |old(T1.p)|
  {
    hide *;
    T1.Copy(Y);
    assert |T1.p| >= |old(T1.p)|;
    ShiftUp(T1, j);
    MovedIs(Y.p, j);
    T1.ValueIs();
    SignedOne(Val(T1.p));
    AddMpi(X, X, T1);
  }

  lemma MagnitudeOf(s: Sign, v: nat)
    requires Signed(s, v) >= 0
    ensures Signed(s, v) == v
  {}

  /** A remainder below the divisor at position i - t lies below Weight(i + 1). */
  lemma RemainderBound(u: nat, y: seq<Limb>, i: nat, t: nat)
    requires t < i && u < Moved(y, i - t) && Val(y) < Weight(t + 1)
    ensures u < Weight(i + 1)
  {
    hide *;
    MovedIs(y, i - t);
    WeightAdd(t + 1, i - t);
    MulLe(Weight(i - t), Val(y), Weight(t + 1));
  }

  lemma TrueDigitExists(x: seq<Limb>, y: seq<Limb>, j: nat) returns (q: nat)
    requires Val(y) > 0
    ensures IsDigit(q, x, y, j)
  {
    hide Val, Weight;
    var v := Moved(y, j);
    MulLe(Val(y), 1, Weight(j));
    DivNonNeg(Val(x), v);
    q := Val(x) / v;
    DivBounds(Val(x), v);
  }

  lemma DigitBracket(q: nat, x: seq<Limb>, y: seq<Limb>, j: nat)
    requires IsDigit(q, x, y, j)
    ensures Moved(y, j) * q <= Val(x) < Moved(y, j) * q + Moved(y, j)
  {}

  // ----- The whole division ---------------------------------------------------------------

  /** The main loop: one digit for every position from n - t - 1 down to 0. */
  method DivLoop(X: Mpi, n: nat, Y: Mpi, t: nat, Z: Mpi, T1: Mpi, T2: Mpi, ghost N: int)
    requires X != Y && X != Z && Y != Z && T1 != X && T1 != Y && T1 != Z
    requires T2 != X && T2 != Y && T2 != Z && T1 != T2
    requires t <= n < |X.p| && t < |Y.p| && Y.p[t] > 0 && n - t < |Z.p|
    requires Val(Y.p) < Weight(t + 1) && Val(Y.p) > 0 && Y.s == 1
    requires |T1.p| >= 2 && T2.s == 1
    requires 0 <= X.Value() < Moved(Y.p, n - t)
    requires forall k :: 0 <= k < n - t ==> Z.p[k] == 0
    requires Val(Z.p) * Val(Y.p) + X.Value() == N
    modifies X, Z`p, T1, T2`p
    ensures Val(Z.p) * Val(Y.p) + X.Value() == N && 0 <= X.Value() < Val(Y.p)
    ensures |Z.p| == |old(Z.p)|
  {
    hide *;
    var i := n;
    while i > t
      invariant t <= i <= n < |X.p| && |Z.p| == |old(Z.p)| && |T1.p| >= 2
      invariant 0 <= X.Value() < Moved(Y.p, i - t)
      invariant forall k :: 0 <= k < i - t ==> Z.p[k] == 0
      invariant Val(Z.p) * Val(Y.p) + X.Value() == N
    {
      ghost var z, x, j := Z.p, X.Value(), i - t - 1;
      DivStep(X, i, Y, t, Z, i - t - 1, T1, T2);
      ValUpdate(z, j, Z.p[j]);
      MovedIs(Y.p, j);
      StepAlgebra(Val(z), Val(Y.p), x, Weight(j), Z.p[j], z[j]);
      i := i - 1;
    }
    MovedIs(Y.p, 0);
    WeightZero();
  }

  lemma StepAlgebra(z: int, y: int, x: int, w: int, e: int, was: int)
    requires was == 0
    ensures (z + w * e - w * was) * y + (x - (y * w) * e) == z * y + x
  {}

  /** The loop before it: count how often Y, moved up to the top of X, can be subtracted. */
  method DivTop(X: Mpi, Y: Mpi, Z: Mpi, j: nat, ghost y: nat, ghost N: int)
    requires X != Y && X != Z && Y != Z && Y.s == 1 && j < |Z.p|
    requires AllZero(Z.p) && 0 <= X.Value() == N < Weight(j + 1) * y
    requires Val(Y.p) as int == y * Weight(j) && y > 0
    modifies X, Z`p
    ensures |X.p| >= |old(X.p)| && |Z.p| == |old(Z.p)|
    ensures forall k :: 0 <= k < j ==> Z.p[k] == 0
    ensures Val(Z.p) * y + X.Value() == N && 0 <= X.Value() < y * Weight(j)
  {
    hide *;
    ghost var v := Val(Y.p);
    Y.ValueIs();
    SignedOne(v);
    ZeroLimbs(Z.p);
    WeightNext(j);
    MulLt(Weight(j), 0, y);
    ghost var c := 0;
    var cmp := CmpMpi(X, Y);
    SignOf(X.Value() - Y.Value());
    while cmp >= 0
      invariant |X.p| >= |old(X.p)| && |Z.p| == |old(Z.p)|
      invariant 0 <= c < BASE && Z.p[j] == c
      invariant forall k :: 0 <= k < j ==> Z.p[k] == 0
      invariant Val(Z.p) as int == Weight(j) * c
      invariant X.Value() == N - v * c >= 0
      invariant cmp == Sgn(X.Value() - Y.Value())
      decreases X.Value()
    {
      ghost var z := Z.p;
      SignOf(X.Value() - Y.Value());
      CountRoom(N, y, Weight(j), BASE, c);
      Z.p := Z.p[j := Z.p[j] + 1];
      ValUpdate(z, j, Z.p[j]);
      MulAddDist(Weight(j), c, 1);
      MulAddDist(v, c, 1);
      c := c + 1;
      SubMpi(X, X, Y);
      cmp := CmpMpi(X, Y);
    }
    SignOf(X.Value() - Y.Value());
    assert (Weight(j) * c) * y == (y * Weight(j)) * c;
  }

  lemma ZeroLimbs(p: seq<Limb>)
    requires AllZero(p)
    ensures Val(p) == 0 && forall k :: 0 <= k < |p| ==> p[k] == 0
  {
    ValZero(p);
  }

  /** The count never reaches the base. */
  lemma CountRoom(N: int, y: nat, w: nat, base: nat, c: nat)
    requires N < (w * base) * y && N - (y * w) * c >= y * w && y > 0 && w > 0
    ensures c + 1 < base
  {
    MulAddDist(y * w, c, 1);
    assert (w * base) * y == (y * w) * base;
    MulLt(y, 0, w);
    MulCancelLt(y * w, c + 1, base);
  }

  // ----- Setting up -----------------------------------------------------------------------

  lemma LimbsOfLength(v: nat, p: seq<Limb>)
    requires Val(p) == v > 0
    ensures Sig(p) == LimbsForBits(BitLen(v))
  {
    hide *;
    var n, k := BitLen(v), Sig(p);
    SigProperties(p);
    BitLenBounds(v);
    WeightIsP2(k);
    WeightIsP2(k - 1);
    MulNonNeg(biL, k - 1);
    MulAddDist(biL, k, 1);
    // P2(biL * (k - 1)) <= v < P2(n) and P2(n - 1) <= v < P2(biL * k)
    if n <= biL * (k - 1) { P2Mono(n, biL * (k - 1)); }
    if biL * k <= n - 1 { P2Mono(biL * k, n - 1); }
    LimbsBetween(n, k);
  }

  lemma LimbsBetween(n: nat, k: nat)
    requires k > 0 && biL * (k - 1) < n <= biL * k
    ensures LimbsForBits(n) == k
  {
    if n == biL * k {
      DivModLow(n, biL, k, 0);
    } else {
      MulAddDist(biL, k, 1);
      DivModLow(n, biL, k - 1, n - biL * (k - 1));
    }
  }

  lemma LimbsMonotone(m: nat, n: nat)
    requires m <= n <= m + biL
    ensures LimbsForBits(m) <= LimbsForBits(n) <= LimbsForBits(m) + 1
  {}

  /** n limbs already hold the bits, or growing makes the count exact. */
  lemma FullLimbs(need: nat, n: nat)
    requires n <= LimbsForBits(need) <= n + 1
    ensures biL * n >= need ==> LimbsForBits(need) == n
  {
    LimbsForBitsSuffice(need);
    if LimbsForBits(need) == n + 1 { MulAddDist(biL, n, 1); }
  }

  /** No leading zero limb. */
  ghost predicate Exact(p: seq<Limb>)
  {
    |p| > 0 && Sig(p) == |p|
  }

  lemma ExactBounds(p: seq<Limb>)
    requires Exact(p)
    ensures |p| > 0 && Weight(|p| - 1) <= Val(p) < Weight(|p|)
  {
    SigProperties(p);
  }

  /** X := |A|, in exactly the significant limbs of A. */
  method CopyMagnitude(X: Mpi, A: Mpi)
    requires X != A && X.p == [] && Val(A.p) > 0
    modifies X
    ensures X.s == 1 && Val(X.p) == Val(A.p) && Exact(X.p) && |X.p| <= |A.p|
  {
    hide *;
    ghost var v := Val(A.p);
    SigProperties(A.p);
    X.Copy(A);
    X.s := 1;
    LimbsOfLength(v, A.p);
    LimbsOfLength(v, X.p);
    ExactIs(X.p);
  }

  lemma ExactIs(p: seq<Limb>)
    requires |p| > 0 && Sig(p) == |p|
    ensures Exact(p)
  {}

  lemma ExactSig(p: seq<Limb>)
    requires Exact(p)
    ensures Sig(p) == |p| > 0
  {}

  /** Normalising keeps the limb count exact. */
  method ShiftExact(X: Mpi, k: nat)
    requires k < biL && Exact(X.p)
    modifies X
    ensures Val(X.p) as int == old(Val(X.p)) * P2(k) && X.s == old(X.s)
    ensures Exact(X.p) && |X.p| <= |old(X.p)| + 1
  {
    hide *;
    ghost var v, n := Val(X.p), |X.p|;
    ghost var need := BitLen(v) + k;
    ExactSig(X.p);
    SigProperties(X.p);
    LimbsOfLength(v, X.p);
    BitLenShift(v, k);
    LimbsMonotone(BitLen(v), need);
    FullLimbs(need, n);
    ShiftL(X, k);
    LimbsOfLength(v * P2(k), X.p);
    ExactIs(X.p);
  }

  /** The quotient of the magnitudes in Z, and 2^k times the remainder in X. */
  method DivMagnitudes(A: Mpi, B: Mpi) returns (X: Mpi, Z: Mpi, k: nat)
    requires 0 < Val(B.p) <= Val(A.p)
    ensures fresh(X) && fresh(Z) && X != Z && Z.s == 1 && |Z.p| > 0
    ensures Val(Z.p) == Val(A.p) / Val(B.p)
    ensures Val(X.p) as int == Val(A.p) % Val(B.p) * P2(k)
  {
    hide *;
    ghost var va, vb := Val(A.p), Val(B.p);
    X := new Mpi();
    var Y := new Mpi();
    Z := new Mpi();
    var T1 := new Mpi();
    CopyMagnitude(X, A);
    CopyMagnitude(Y, B);
    Z.Grow(|A.p| + 2);
    AbsZero();
    Z.LSet(0);
    T1.Grow(|A.p| + 2);
    k := Y.Bitlen();
    k := k % biL;
    P2Zero();
    if k < biL - 1 {
      k := biL - 1 - k;
      ShiftExact(X, k);
      ShiftExact(Y, k);
    } else {
      k := 0;
    }
    MulLe(P2(k), vb, va);
    MulLt(P2(k), 0, vb);
    assert Val(X.p) as int == va * P2(k) && Val(Y.p) as int == vb * P2(k);
    RunDivision(X, Y, Z, T1);
    UnscaleQuotient(va, vb, P2(k), Val(Z.p), Val(X.p));
  }

  /** The two loops on normalised operands. */
  method RunDivision(X: Mpi, Y: Mpi, Z: Mpi, T1: Mpi)
    requires X != Y && X != Z && Y != Z && T1 != X && T1 != Y && T1 != Z
    requires X.s == 1 && Y.s == 1 && Exact(X.p) && Exact(Y.p) && Val(Y.p) <= Val(X.p)
    requires |Z.p| > |X.p| && Val(Z.p) == 0 && |T1.p| >= 2
    modifies X, Y, Z`p, T1
    ensures Val(X.p) < old(Val(Y.p)) && |Z.p| == |old(Z.p)|
    ensures Val(Z.p) * old(Val(Y.p)) + Val(X.p) == old(Val(X.p))
  {
    hide *;
    var T2 := new Mpi();
    ghost var x, y := Val(X.p), Val(Y.p);
    ExactBounds(X.p);
    ExactBounds(Y.p);
    var n, t := |X.p| - 1, |Y.p| - 1;
    TopPosition(x, y, n, t);
    X.ValueIs();
    SignedOne(x);
    ShiftUp(Y, n - t);
    ValZero(Z.p);
    WeightMono(0, t);
    WeightZero();
    DivTop(X, Y, Z, n - t, y, x);
    MulNonNeg(biL, n - t);
    WeightIsP2(n - t);
    DivModUnique(Val(Y.p), Weight(n - t), y, 0);
    ShiftR(Y, biL * (n - t));
    TopLimb(Y.p, t);
    MovedIs(Y.p, n - t);
    DivLoop(X, n, Y, t, Z, T1, T2, x);
    X.ValueIs();
    MagnitudeOf(X.s, Val(X.p));
  }

  lemma TopPosition(x: nat, y: nat, n: nat, t: nat)
    requires Weight(t) <= y <= x < Weight(n + 1)
    ensures t <= n && x < Weight(n - t + 1) * y
  {
    hide *;
    if t > n { WeightMono(n + 1, t); }
    WeightAdd(n - t + 1, t);
    MulLe(Weight(n - t + 1), Weight(t), y);
  }

  lemma TopLimb(p: seq<Limb>, t: nat)
    requires t < |p| && Weight(t) <= Val(p) < Weight(t + 1)
    ensures p[t] > 0
  {
    hide *;
    ValHighZero(p, t + 1);
    ValSnoc(p, t);
    ValBound(p[..t]);
    assert Weight(t) * 0 == 0;
  }

  lemma UnscaleQuotient(a: nat, b: nat, e: nat, z: nat, x: nat)
    requires b > 0 && e > 0 && z * (b * e) + x == a * e && x < b * e
    ensures z == a / b && x == a % b * e
  {
    var r := a - z * b;
    assert x == r * e;
    if r < 0 { MulLe(e, r, -1); }
    MulCancelLt(e, r, b);
    DivModUnique(a, b, z, r);
  }

  // ----- Signed division ------------------------------------------------------------------

  /** Division rounding towards zero. */
  ghost function TruncDiv(a: int, b: int): int
    requires b != 0
  {
    var q := Abs(a) / Abs(b);
    if (a < 0) == (b < 0) then q else -q
  }

  ghost function TruncRem(a: int, b: int): int
    requires b != 0
  {
    var r := Abs(a) % Abs(b);
    if a < 0 then -r else r
  }

  /** They are the only quotient and remainder with |r| < |b| and r zero or of the sign of a. */
  lemma TruncUnique(a: int, b: int, q: int, r: int)
    requires b != 0
    ensures q == TruncDiv(a, b) && r == TruncRem(a, b)
      <==> a == q * b + r && Abs(r) < Abs(b) && (r == 0 || (r < 0) == (a < 0))
  {
    var A, D := Abs(a), Abs(b);
    assert A == D * (A / D) + A % D;
    if a == q * b + r && Abs(r) < Abs(b) && (r == 0 || (r < 0) == (a < 0)) {
      TruncMagnitude(a, b, q, r);
    }
  }

  lemma TruncMagnitude(a: int, b: int, q: int, r: int)
    requires b != 0
    requires a == q * b + r && Abs(r) < Abs(b) && (r == 0 || (r < 0) == (a < 0))
    ensures q == TruncDiv(a, b) && r == TruncRem(a, b)
  {
    var q' := if b < 0 then -q else q;
    AbsProduct(q, b, q');
    TruncIs(a, b);
    hide *;
    if a >= 0 {
      DivModUnique(a, Abs(b), q', r);
    } else {
      NegatedProduct(a, q', Abs(b), r);
      DivModUnique(-a, Abs(b), -q', -r);
    }
  }

  lemma AbsProduct(q: int, b: int, q': int)
    requires q' == if b < 0 then -q else q
    ensures q * b == q' * Abs(b)
  {}

  lemma NegatedProduct(a: int, q: int, d: int, r: int)
    requires a == q * d + r
    ensures -a == -q * d + -r
  {}

  lemma TruncIs(a: int, b: int)
    requires b != 0
    ensures a >= 0 ==>
      Abs(a) == a && TruncDiv(a, b) == (if b < 0 then -(a / Abs(b)) else a / Abs(b)) && TruncRem(a, b) == a % Abs(b)
    ensures a < 0 ==> Abs(a) == -a && TruncDiv(a, b) == (if b < 0 then -a / Abs(b) else -(-a / Abs(b)))
    ensures a < 0 ==> TruncRem(a, b) == -(-a % Abs(b))
    ensures forall r: int :: Abs(r) < Abs(b) && r >= 0 ==> r < Abs(b)
    ensures forall r: int :: Abs(r) < Abs(b) && r < 0 ==> -r < Abs(b)
  {}

  lemma TruncOfSigns(s: Sign, t: Sign, a: nat, b: nat)
    requires b > 0
    ensures Signed(t, b) != 0
    ensures TruncDiv(Signed(s, a), Signed(t, b)) == Signed(s * t, a / b)
    ensures TruncRem(Signed(s, a), Signed(t, b)) == Signed(s, a % b)
    ensures Abs(Signed(t, b)) == b
  {
    DivModSmall(0, b);
  }

  /** The sign an operand still has after Q has been written. */
  ghost function SignAfter(Q: Mpi, A: Mpi): Sign
    reads A
  {
    if Q == A then 1 else A.s
  }

  /** Q := Z with the sign of the quotient, read from the operands after the copy */
  method StoreQuotient(Q: Mpi, Z: Mpi, A: Mpi, B: Mpi)
    requires Z != Q && Z != A && Z != B && Z.s == 1 && |Z.p| > 0
    modifies Q
    ensures Q.Value() == Signed(old(SignAfter(Q, A)) * old(SignAfter(Q, B)), Val(Z.p))
    ensures Q.s == old(SignAfter(Q, A)) * old(SignAfter(Q, B))
  {
    hide Val, Sig;
    Q.Copy(Z);
    Q.s := A.s * B.s;
  }

  /** R := the remainder with the sign s, and sign 1 for the value 0 */
  method StoreRemainder(R: Mpi, X: Mpi, s: Sign, ghost va: nat, ghost vb: nat, k: nat)
    requires R != X && vb > 0 && Val(X.p) as int == va % vb * P2(k)
    modifies R, X
    ensures R.Value() == Signed(s, va % vb)
    ensures R.Value() == 0 ==> R.s == 1
    ensures |R.p| >= |old(R.p)|
  {
    hide *;
    DivModUnique(Val(X.p), P2(k), va % vb, 0);
    ShiftR(X, k);
    X.s := s;
    X.ValueIs();
    R.Copy(X);
    AbsZero();
    var z := CmpInt(R, 0);
    SignOf(R.Value() - 0);
    if z == 0 {
      R.s := 1;
      R.ValueIs();
      SignedZero(s, va % vb, Val(R.p));
    }
  }

  lemma SignedZero(s: Sign, v: nat, w: nat)
    requires Signed(s, v) == 0 && v == w
    ensures Signed(1, w) == 0
  {}

  /** The quotient the code leaves. It reads the operands' signs again after writing Q, so an operand that is Q itself
      (qa: the dividend, qb: the divisor) counts as if it had none. */
  ghost function QuotientLeft(qa: bool, qb: bool, a: int, b: int): int
    requires b != 0
  {
    TruncDiv(if qa then Abs(a) else a, if qb then Abs(b) else b)
  }

  /** The remainder the code leaves. With the quotient written over the dividend it takes the divisor's sign, and a
      dividend smaller than the divisor is lost. */
  ghost function RemainderLeft(qa: bool, a: int, b: int): int
    requires b != 0
  {
    if !qa then TruncRem(a, b)
    else if Abs(a) < Abs(b) then 0
    else TruncRem(if b < 0 then -(Abs(a) as int) else Abs(a), b)
  }

  /** mbedtls_mpi_div_mpi. Either result may be left out; Q and R may each be A or B. */
  method DivMpi(Q: Mpi?, R: Mpi?, A: Mpi, B: Mpi) returns (ret: Status)
    requires Q != null ==> Q != R
    modifies Q, R
    ensures ret == if old(B.Value()) == 0 then DivisionByZero else Ok
    ensures ret != Ok && Q != null ==> Q.Value() == old(Q.Value())
    ensures ret != Ok && R != null ==> R.Value() == old(R.Value())
    ensures ret == Ok && Q != null ==> Q.Value() == QuotientLeft(Q == A, Q == B, old(A.Value()), old(B.Value()))
    ensures ret == Ok && R != null ==> R.Value() == RemainderLeft(Q == A, old(A.Value()), old(B.Value()))
    ensures R != null ==> |R.p| >= |old(R.p)|
  {
    hide Val, Weight, Sig, TruncDiv, TruncRem;
    ghost var sa, sb, va, vb := A.s, B.s, Val(A.p), Val(B.p);
    var zero := CmpInt(B, 0);
    if zero == 0 {
      return DivisionByZero;
    }
    TruncOfSigns(sa, sb, va, vb);
    var cmp := CmpAbs(A, B);
    if cmp < 0 {
      SmallDividend(va, vb);
      SmallLeft(Q == A, Q == B, A.Value(), B.Value());
      if Q != null { Q.LSet(0); }
      if R != null { R.Copy(A); }
      return Ok;
    }
    var X, Z, k := DivMagnitudes(A, B);
    LeftOfSigns(Q == A, Q == B, sa, sb, va, vb);
    if Q != null { StoreQuotient(Q, Z, A, B); }
    if R != null { StoreRemainder(R, X, A.s, va, vb, k); }
    return Ok;
  }

  /** What is left in terms of signs and magnitudes, the dividend not smaller than the divisor */
  lemma LeftOfSigns(qa: bool, qb: bool, sa: Sign, sb: Sign, va: nat, vb: nat)
    requires va >= vb > 0 && (qa && qb ==> va == vb && sa == sb)
    ensures Signed(sb, vb) != 0
    ensures QuotientLeft(qa, qb, Signed(sa, va), Signed(sb, vb))
         == Signed((if qa then 1 else sa) * (if qb then 1 else sb), va / vb)
    ensures RemainderLeft(qa, Signed(sa, va), Signed(sb, vb))
         == Signed(if !qa then sa else if qb then 1 else sb, va % vb)
  {
    TruncOfSigns(sa, sb, va, vb);
    TruncOfSigns(sb, sb, va, vb);
    TruncOfSigns(if qa then 1 else sa, if qb then 1 else sb, va, vb);
    if va == vb { DivModUnique(va, vb, 1, 0); }
    hide TruncDiv, TruncRem;
  }

  lemma SmallLeft(qa: bool, qb: bool, a: int, b: int)
    requires b != 0 && Abs(a) < Abs(b)
    ensures QuotientLeft(qa, qb, a, b) == 0 && RemainderLeft(qa, a, b) == if qa then 0 else a
  {
    SmallDividend(Abs(a), Abs(b));
    hide TruncDiv, TruncRem;
  }

  lemma SmallDividend(va: nat, vb: nat)
    requires va < vb
    ensures forall a, b | Abs(a) == va && Abs(b) == vb :: TruncDiv(a, b) == 0 && TruncRem(a, b) == a
  {
    DivModSmall(va, vb);
  }

  /** What is left as a signed quotient and remainder of the magnitudes, one line for each way the objects coincide */
  lemma LeftOfMagnitudes(qa: bool, qb: bool, a: int, b: int, q: int, r: int)
    requires b != 0 && (qa && qb ==> a == b) && q == Abs(a) / Abs(b) && r == Abs(a) % Abs(b)
    ensures Abs(a) == Abs(b) * q + r && 0 <= r < Abs(b) && 0 <= q
    ensures q == 0 <==> Abs(a) < Abs(b)
    ensures QuotientLeft(qa, qb, a, b) == if (a < 0 && !qa) == (b < 0 && !qb) then q else -q
    ensures RemainderLeft(qa, a, b) ==
      if !qa then (if a < 0 then -r else r) else if Abs(a) < Abs(b) then 0 else if b < 0 then -r else r
  {
    SizeOfQuotient(Abs(a), Abs(b));
  }

  lemma SizeOfQuotient(va: nat, vb: nat)
    requires vb > 0
    ensures va == vb * (va / vb) + va % vb && 0 <= va % vb < vb && 0 <= va / vb
    ensures va / vb == 0 <==> va < vb
  {
    DivNonNeg(va, vb);
    if va < vb { DivModSmall(va, vb); }
  }

  /** A = Q * B + R holds always when Q is neither operand or both, and exactly under these conditions when Q is one. */
  lemma DivisionHoldsIff(qa: bool, qb: bool, a: int, b: int)
    requires b != 0 && (qa && qb ==> a == b)
    ensures a == QuotientLeft(qa, qb, a, b) * b + RemainderLeft(qa, a, b) <==>
      if qa && !qb then
        (if Abs(a) < Abs(b) then a == 0 else a >= 0 && (b > 0 || Abs(a) % Abs(b) == 0))
      else if qb && !qa then b > 0 || Abs(a) < Abs(b)
      else true
  {
    hide QuotientLeft, RemainderLeft, TruncDiv, TruncRem;
    var q, r := Abs(a) / Abs(b), Abs(a) % Abs(b);
    LeftOfMagnitudes(qa, qb, a, b, q, r);
    if qa && qb { SameOperands(Abs(a), q, r); }
    DivisionAlgebra(b, q);
  }

  lemma SameOperands(v: nat, q: int, r: int)
    requires v > 0 && v == v * q + r && 0 <= r < v
    ensures q == 1 && r == 0
  {
    DivModUnique(v, v, 1, 0);
    DivModLow(v, v, q, r);
  }

  lemma DivisionAlgebra(b: int, q: int)
    ensures b > 0 ==> Abs(b) * q == q * b && -q * b == -(q * b)
    ensures b < 0 ==> Abs(b) * q == -q * b && q * b == -(-q * b)
    ensures b != 0 && q > 0 ==> Abs(b) * q >= Abs(b)
  {
    if b != 0 && q > 0 { MulLe(Abs(b), 1, q); }
  }

  /** Inputs where it fails: a small dividend, a negative one and a negative divisor for Q = A, a negative divisor
      for Q = B. */
  lemma DivisionFails()
    ensures 5 != QuotientLeft(true, false, 5, 7) * 7 + RemainderLeft(true, 5, 7)
    ensures -7 != QuotientLeft(true, false, -7, 2) * 2 + RemainderLeft(true, -7, 2)
    ensures 7 != QuotientLeft(true, false, 7, -2) * -2 + RemainderLeft(true, 7, -2)
    ensures 7 != QuotientLeft(false, true, 7, -5) * -5 + RemainderLeft(false, 7, -5)
  {}

  /** The quotient is the truncating one exactly when the dividend is the smaller or the signs lost cancel, */
  lemma QuotientLeftIff(qa: bool, qb: bool, a: int, b: int)
    requires b != 0
    ensures QuotientLeft(qa, qb, a, b) == TruncDiv(a, b) <==> Abs(a) < Abs(b) || (qa && a < 0) == (qb && b < 0)
  {
    SizeOfQuotient(Abs(a), Abs(b));
  }

  /** and the remainder is exactly when Q is not the dividend, or nothing is lost or the signs agree. */
  lemma RemainderLeftIff(qa: bool, a: int, b: int)
    requires b != 0
    ensures RemainderLeft(qa, a, b) == TruncRem(a, b) <==>
      !qa || (if Abs(a) < Abs(b) then a == 0 else Abs(a) % Abs(b) == 0 || (a < 0) == (b < 0))
  {
    SizeOfQuotient(Abs(a), Abs(b));
    if Abs(a) < Abs(b) { DivModSmall(Abs(a), Abs(b)); }
  }

  /** With Q neither operand the pair is that of truncating division. */
  lemma NothingLost(a: int, b: int)
    requires b != 0
    ensures QuotientLeft(false, false, a, b) == TruncDiv(a, b) && RemainderLeft(false, a, b) == TruncRem(a, b)
  {}

  /** mbedtls_mpi_div_int: A = Q * b + R */
  method DivInt(Q: Mpi?, R: Mpi?, A: Mpi, b: int) returns (ret: Status)
    requires Abs(b) < BASE
    requires Q != null ==> Q != R
    modifies Q, R
    ensures ret == if b == 0 then DivisionByZero else Ok
    ensures ret != Ok && Q != null ==> Q.Value() == old(Q.Value())
    ensures ret != Ok && R != null ==> R.Value() == old(R.Value())
    ensures ret == Ok && Q != null ==> Q.Value() == QuotientLeft(Q == A, false, old(A.Value()), b)
    ensures ret == Ok && R != null ==> R.Value() == RemainderLeft(Q == A, old(A.Value()), b)
  {
    var B := FromInt(b);
    ret := DivMpi(Q, R, A, B);
  }

  // ----- Modulo ---------------------------------------------------------------------------

  lemma TruncRemMod(a: int, b: int)
    requires b > 0
    ensures -b < TruncRem(a, b) < b && TruncRem(a, b) % b == a % b
  {
    var r := TruncRem(a, b);
    var q := Abs(a) / b;
    assert Abs(a) == b * q + Abs(a) % b;
    if a < 0 { CongFrom(r, a, q, b); } else { CongFrom(r, a, -q, b); }
  }

  /** mbedtls_mpi_mod_mpi: R = A mod B, always in [0, B). R may be A; were it B, the second loop
      would not end. */
  method ModMpi(R: Mpi, A: Mpi, B: Mpi) returns (ret: Status)
    requires R != B
    modifies R
    ensures ret == if B.Value() < 0 then NegativeValue else if B.Value() == 0 then DivisionByZero else Ok
    ensures ret == Ok ==> R.Value() == old(A.Value()) % B.Value()
    ensures |R.p| >= |old(R.p)|
  {
    hide *;
    ghost var a, b := A.Value(), B.Value();
    AbsZero();
    var cmp := CmpInt(B, 0);
    SignOf(B.Value() - 0);
    if cmp < 0 {
      return NegativeValue;
    }
    ret := DivMpi(null, R, A, B);
    if b != 0 { NothingLost(a, b); }
    if ret != Ok { return; }
    TruncRemMod(a, b);
    assert R.Value() % b == a % b;
    cmp := CmpInt(R, 0);
    SignOf(R.Value() - 0);
    while cmp < 0
      invariant -b < R.Value() < b && R.Value() % b == a % b
      invariant cmp < 0 <==> R.Value() < 0
      invariant |R.p| >= |old(R.p)|
      decreases 0 - R.Value()
    {
      CongFrom(R.Value() + b, R.Value(), 1, b);
      CongIs(R.Value() + b, R.Value(), b);
      AddMpi(R, R, B);
      cmp := CmpInt(R, 0);
      SignOf(R.Value() - 0);
    }
    cmp := CmpMpi(R, B);
    SignOf(R.Value() - B.Value());
    ghost var bound := R.Value() + 2 * b;
    while cmp >= 0
      invariant 0 <= R.Value() <= bound && R.Value() % b == a % b
      invariant cmp >= 0 <==> R.Value() >= b
      invariant |R.p| >= |old(R.p)|
      decreases bound
    {
      bound := bound - b;
      CongFrom(R.Value() - b, R.Value(), -1, b);
      CongIs(R.Value() - b, R.Value(), b);
      SubMpi(R, R, B);
      cmp := CmpMpi(R, B);
      SignOf(R.Value() - B.Value());
    }
    DivModSmall(R.Value(), b);
  }

  lemma CongIs(a: int, b: int, m: int)
    requires 0 < m && Cong(a, b, m)
    ensures a % m == b % m
  {}

  /** One half word of the remainder loop, which loses the top half of y. */
  ghost function HalfFolded(y: nat, half: nat, b: nat): nat
    requires b > 0
  {
    (y * RADIX % BASE + half) % b
  }

  /** What the remainder loop makes of the limbs, from the top down. */
  ghost function Folded(p: seq<Limb>, b: nat): nat
    requires b > 0
  {
    if p == [] then 0
    else
      RadixSquared();
      DivBounds(p[0], RADIX);
      HalfFolded(HalfFolded(Folded(p[1..], b), p[0] / RADIX, b), p[0] % RADIX, b)
  }

  /** The remainder returned: that of the magnitude, or its complement for a negative number. */
  ghost function IntResidue(s: Sign, p: seq<Limb>, b: nat): int
    requires b > 0
  {
    var y := Folded(p, b);
    if s < 0 && y != 0 then b - y else y
  }

  /** Nothing is lost below half a word, and what is lost is no matter when b divides the base. */
  ghost predicate Foldable(b: nat)
  {
    b > 0 && (b <= RADIX || BASE % b == 0)
  }

  lemma HalfExact(y: nat, half: nat, b: nat, v: nat)
    requires Foldable(b) && y == v % b
    ensures HalfFolded(y, half, b) == (v * RADIX + half) % b
  {
    assert y < b;
    hide *;
    FoldableIs(b);
    FoldMod(y, half, b, v, RADIX);
    HalfFoldedIs(y, half, b);
    if b <= RADIX {
      RadixSquared();
      MulLe(RADIX, y + 1, RADIX);
      MulAddDist(RADIX, y, 1);
      DivModSmall(y * RADIX, BASE);
    } else {
      LostMultiple(y * RADIX, half, BASE, b);
    }
  }

  lemma FoldableIs(b: nat)
    ensures Foldable(b) <==> b > 0 && (b <= RADIX || BASE % b == 0)
  {}

  /** A multiple of b that is lost does not matter. */
  lemma LostMultiple(x: int, h: int, m: int, b: int)
    requires b > 0 && m > 0 && m % b == 0
    ensures (x % m + h) % b == (x + h) % b
  {
    var k, q, t := m / b, x / m, x % m;
    assert m == b * k && x == m * q + t;
    hide *;
    MulAssoc(b, k, q);
    CongFrom(x + h, t + h, k * q, b);
    CongIs(x + h, t + h, b);
  }

  lemma HalfFoldedIs(y: nat, half: nat, b: nat)
    requires b > 0
    ensures HalfFolded(y, half, b) == (y * RADIX % BASE + half) % b
  {}

  lemma FoldMod(y: int, half: int, b: int, v: int, R: int)
    requires 0 < b && y == v % b
    ensures (y * R + half) % b == (v * R + half) % b
  {
    CongMod(v, b);
    CongMul(v % b, v, R, R, b);
    CongAdd(v % b * R, v * R, half, half, b);
  }

  lemma {:induction false} FoldedExact(p: seq<Limb>, b: nat)
    requires Foldable(b)
    ensures Folded(p, b) == Val(p) % b
  {
    if p == [] {
      DivModSmall(0, b);
    } else {
      FoldedExact(p[1..], b);
      var v := Val(p[1..]);
      hide *;
      FoldedHead(p, b);
      RadixSquared();
      DivBounds(p[0], RADIX);
      MulNonNeg(v, RADIX);
      HalfExact(Folded(p[1..], b), p[0] / RADIX, b, v);
      HalfExact(HalfFolded(Folded(p[1..], b), p[0] / RADIX, b), p[0] % RADIX, b, v * RADIX + p[0] / RADIX);
      FoldAlgebra(v, p[0], RADIX);
      ValHead(p, 0);
      assert p[0..] == p;
    }
  }

  lemma FoldedHead(p: seq<Limb>, b: nat)
    requires p != [] && b > 0
    ensures p[0] / RADIX >= 0 && p[0] % RADIX >= 0
    ensures Folded(p, b) == HalfFolded(HalfFolded(Folded(p[1..], b), p[0] / RADIX, b), p[0] % RADIX, b)
  {
    DivBounds(p[0], RADIX);
  }

  /** The remainder is right for every number exactly when the divisor is at most half a word or divides the base:
      otherwise the base itself, the limbs [0, 1], is taken for a multiple of b. */
  lemma IntResidueIff(b: nat)
    requires 0 < b
    ensures Foldable(b) <==> forall s: Sign, p: seq<Limb> :: IntResidue(s, p, b) == Signed(s, Val(p)) % b
  {
    if Foldable(b) {
      forall s: Sign, p: seq<Limb> ensures IntResidue(s, p, b) == Signed(s, Val(p)) % b {
        FoldedExact(p, b);
        NegativeMod(s, Val(p), b);
      }
    } else {
      IntResidueFails(b);
    }
  }

  lemma IntResidueFails(b: nat)
    requires b > RADIX && BASE % b != 0
    ensures Val([0, 1]) == BASE && IntResidue(1, [0, 1], b) == 0 != Signed(1, BASE) % b
  {
    LimbsOfBase();
    hide *;
    RadixBelow();
    FoldedEmpty(b);
    assert [1][1..] == [] && [0, 1][1..] == [1];
    FoldedHead([1], b);
    FoldedHead([0, 1], b);
    DivModSmall(0, RADIX);
    DivModSmall(1, RADIX);
    FoldsOfBase(b);
    IntResidueIs(1, [0, 1], b);
    SignedOne(BASE);
  }

  lemma LimbsOfBase()
    ensures Val([0, 1]) == BASE
  {
    ValHead([0, 1], 0);
    ValOne(1);
    assert [0, 1][0..] == [0, 1] && [0, 1][1..] == [1];
  }

  /** The half words 0, 1, 0, 0 in turn */
  lemma FoldsOfBase(b: nat)
    requires b > RADIX
    ensures HalfFolded(0, 0, b) == 0 && HalfFolded(0, 1, b) == 1
    ensures HalfFolded(1, 0, b) == RADIX && HalfFolded(RADIX, 0, b) == 0
  {
    hide *;
    RadixSquared();
    RadixBelow();
    HalfFoldedIs(0, 0, b);
    HalfFoldedIs(0, 1, b);
    HalfFoldedIs(1, 0, b);
    HalfFoldedIs(RADIX, 0, b);
    DivModSmall(0, BASE);
    DivModSmall(RADIX, BASE);
    DivModUnique(BASE, BASE, 1, 0);
    DivModSmall(0, b);
    DivModSmall(1, b);
    DivModSmall(RADIX, b);
  }

  /** One half word of the loop */
  method FoldHalf(y: Limb, half: nat, b: Limb) returns (y': Limb)
    requires 0 < b && half < RADIX
    ensures y' == HalfFolded(y, half, b)
  {
    hide *;
    ShiftInHalf(y, half);
    var w: Limb := Or(Shl(y, biH), half);
    HalfFoldedIs(y, half, b);
    var z := w / b;
    assert w == b * z + w % b;
    y' := w - z * b;
  }

  /** y << biH leaves room for the half word. */
  lemma ShiftInHalf(y: Limb, half: nat)
    requires half < RADIX
    ensures Or(Shl(y, biH), half) == y * RADIX % BASE + half < BASE
  {
    hide *;
    RadixSquared();
    BaseIsP2();
    ShiftDefinitions(y, biH);
    var q, r := y / RADIX, y % RADIX;
    assert y == RADIX * q + r;
    MulLe(RADIX, r + 1, RADIX);
    ShiftAlgebra(y, q, r, RADIX);
    DivModLow(y * RADIX, BASE, q, r * RADIX);
    DivModUnique(r * RADIX, RADIX, r, 0);
    OrDisjoint(Shl(y, biH), half, biH);
  }

  lemma ShiftAlgebra(y: int, q: int, r: int, R: int)
    requires y == R * q + r
    ensures y * R == r * R + (R * R) * q
  {}

  /** mbedtls_mpi_mod_int: r = A mod b, for every A whenever b is at most half a word or divides the base */
  method ModInt(A: Mpi, b: int) returns (ret: Status, r: Limb)
    requires b < BASE
    ensures ret == if b == 0 then DivisionByZero else if b < 0 then NegativeValue else Ok
    ensures ret == Ok ==> r == IntResidue(A.s, A.p, b)
    ensures ret == Ok && Foldable(b) ==> r == A.Value() % b
  {
    hide *;
    r := 0;
    if b == 0 { return DivisionByZero, 0; }
    if b < 0 { return NegativeValue, 0; }
    ret := Ok;
    A.ValueIs();
    if b == 2 { SmallFoldable(b); }
    IntResidueIs(A.s, A.p, b);
    if Foldable(b) {
      FoldedExact(A.p, b);
      NegativeMod(A.s, Val(A.p), b);
    }
    if b == 1 || |A.p| == 0 {
      TrivialFold(A.p, b);
      return;
    }
    if b == 2 {
      AndOne(A.p[0]);
      ValEven(A.p);
      return Ok, And(A.p[0], 1);
    }
    r := FoldLimbs(A, b);
    FoldedBelow(A.p, b);
    if A.s < 0 && r != 0 {
      r := b - r;
    }
  }

  lemma SmallFoldable(b: nat)
    requires 0 < b <= RADIX
    ensures Foldable(b)
  {}

  lemma IntResidueIs(s: Sign, p: seq<Limb>, b: nat)
    requires b > 0
    ensures IntResidue(s, p, b) == if s < 0 && Folded(p, b) != 0 then b - Folded(p, b) else Folded(p, b)
  {}

  lemma FoldedBelow(p: seq<Limb>, b: nat)
    requires b > 0
    ensures Folded(p, b) < b
  {}

  lemma RadixBelow()
    ensures RADIX < BASE
  {
    RadixSquared();
    MulLe(RADIX, 2, RADIX);
  }

  lemma TrivialFold(p: seq<Limb>, b: nat)
    requires b == 1 || (b > 0 && |p| == 0)
    ensures Folded(p, b) == 0
  {}

  lemma NegativeMod(s: Sign, v: nat, b: int)
    requires b > 0
    ensures Signed(s, v) % b == if s < 0 && v % b != 0 then b - v % b else v % b
    ensures b == 2 ==> Signed(s, v) % b == v % b
  {
    if s < 0 {
      var x: int, q, r := 0 - v, v / b, v % b;
      assert v == b * q + r;
      if r == 0 { DivModUnique(x, b, -q, 0); } else { DivModUnique(x, b, -q - 1, b - r); }
    }
  }

  method FoldLimbs(A: Mpi, b: Limb) returns (y: Limb)
    requires 0 < b
    ensures y == Folded(A.p, b)
  {
    hide *;
    var i := |A.p|;
    y := 0;
    assert A.p[i..] == [];
    FoldedEmpty(b);
    while i > 0
      invariant 0 <= i <= |A.p| && y == Folded(A.p[i..], b)
    {
      var x := A.p[i - 1];
      Halves(x);
      FoldedHead(A.p[i - 1..], b);
      assert A.p[i - 1..][1..] == A.p[i..];
      HighHalf(x);
      y := FoldHalf(y, Shr(x, biH), b);
      x := Shl(x, biH);
      y := FoldHalf(y, Shr(x, biH), b);
      i := i - 1;
    }
    assert A.p[0..] == A.p;
  }

  lemma FoldedEmpty(b: nat)
    requires b > 0
    ensures Folded([], b) == 0
  {}

  lemma HighHalf(x: Limb)
    ensures Shr(x, biH) == x / RADIX && Shr(Shl(x, biH), biH) == x % RADIX
  {
    Halves(x);
  }

  lemma FoldAlgebra(v: int, x: nat, R: nat)
    requires R > 0
    ensures (v * R + x / R) * R + x % R == x + (R * R) * v
  {
    assert x == R * (x / R) + x % R;
  }
}
