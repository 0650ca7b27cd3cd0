/** mbedtls_mpi_gcd: the binary greatest common divisor. */
module Gcds {
  import opened Arith
  import opened Limbs
  import opened Mpis
  import opened Shifts
  import opened AddSubs
  import opened DivMpis

  function Min(i: nat, j: nat): nat { if j < i then j else i }

  // ----- Powers of two and the gcd --------------------------------------------------------

  /** Powers of two on two odd numbers: the common ones come out. */
  lemma {:induction false} GcdPowers(g: nat, a: nat, b: nat, i: nat, j: nat)
    requires a % 2 == 1 && b % 2 == 1 && IsGcd(g, a, b)
    ensures IsGcd(P2(Min(i, j)) * g, P2(i) * a, P2(j) * b)
    decreases i + j
  {
    hide *;
    P2Zero();
    if i > 0 && j > 0 {
      GcdPowers(g, a, b, i - 1, j - 1);
      P2Succ(i - 1);
      P2Succ(j - 1);
      MinStep(i, j);
      P2Succ(Min(i, j) - 1);
      GcdDouble(P2(Min(i - 1, j - 1)) * g, P2(i - 1) * a, P2(j - 1) * b);
      MulAssoc(2, P2(Min(i - 1, j - 1)), g);
      MulAssoc(2, P2(i - 1), a);
      MulAssoc(2, P2(j - 1), b);
    } else if i > 0 {
      GcdPowers(g, a, b, i - 1, j);
      P2Succ(i - 1);
      MinStep(i, j);
      GcdHalve(P2(Min(i - 1, j)) * g, P2(i - 1) * a, P2(j) * b);
      MulAssoc(2, P2(i - 1), a);
    } else if j > 0 {
      GcdPowers(g, a, b, i, j - 1);
      P2Succ(j - 1);
      MinStep(i, j);
      GcdSymmetric(P2(Min(i, j - 1)) * g, P2(i) * a, P2(j - 1) * b);
      GcdHalve(P2(Min(i, j - 1)) * g, P2(j - 1) * b, P2(i) * a);
      GcdSymmetric(P2(Min(i, j - 1)) * g, 2 * (P2(j - 1) * b), P2(i) * a);
      MulAssoc(2, P2(j - 1), b);
    } else {
      MinStep(i, j);
    }
  }

  lemma MinStep(i: nat, j: nat)
    ensures i > 0 && j > 0 ==> Min(i, j) > 0 && Min(i - 1, j - 1) == Min(i, j) - 1
    ensures j == 0 ==> Min(i, j) == 0 && (i > 0 ==> Min(i - 1, j) == 0)
    ensures i == 0 ==> Min(i, j) == 0 && (j > 0 ==> Min(i, j - 1) == 0)
  {}

  /** v is its odd part times two to its number of trailing zeros. */
  lemma OddPart(v: nat, k: nat)
    requires IsLsb(k, v)
    ensures 0 <= v / P2(k) <= v && v / P2(k) % 2 == 1 && v == P2(k) * (v / P2(k)) && v > 0
  {
    hide P2;
    var q := v / P2(k);
    assert v == P2(k) * q;
    DivNonNeg(v, P2(k));
    MulLe(q, 1, P2(k));
  }

  /** gcd(x, y) has the power of two of the smaller number of trailing zeros, and the odd factor g. */
  ghost predicate HasOddGcd(x: nat, y: nat, i: nat, j: nat, g: nat)
  {
    IsLsb(i, x) && IsLsb(j, y) && IsGcd(P2(Min(i, j)) * g, x, y)
  }

  /** Removing the trailing zeros leaves g as the gcd. */
  lemma GcdOddParts(x: nat, y: nat, i: nat, j: nat, g: nat)
    requires HasOddGcd(x, y, i, j, g)
    ensures 0 <= x / P2(i) && 0 <= y / P2(j)
    ensures IsGcd(g, x / P2(i), y / P2(j))
  {
    hide P2, IsGcd, IsLsb, Min;
    OddPart(x, i);
    OddPart(y, j);
    var h := GcdExists(x / P2(i), y / P2(j));
    GcdPowers(h, x / P2(i), y / P2(j), i, j);
    GcdUnique(P2(Min(i, j)) * g, P2(Min(i, j)) * h, x, y);
    MulCancelEq(P2(Min(i, j)), g, h);
  }

  /** The odd factor of the gcd of two positive numbers. */
  lemma OddGcdExists(x: nat, y: nat, i: nat, j: nat) returns (g: nat)
    requires IsLsb(i, x) && IsLsb(j, y)
    ensures HasOddGcd(x, y, i, j, g)
  {
    hide P2, IsGcd, IsLsb, Min;
    OddPart(x, i);
    OddPart(y, j);
    g := GcdExists(x / P2(i), y / P2(j));
    GcdPowers(g, x / P2(i), y / P2(j), i, j);
  }

  /** The difference of two odd numbers, halved, has the same gcd with the smaller one. */
  lemma HalfDifference(a: nat, b: nat, g: nat)
    requires a % 2 == 1 && b % 2 == 1 && b <= a && IsGcd(g, a, b)
    ensures IsGcd(g, (a - b) / 2, b)
  {
    hide IsGcd;
    var d := (a - b) / 2;
    var h := GcdExists(d, b);
    GcdHalve(h, d, b);
    GcdShift(g, a, b, -1);
    assert a + b * -1 == 2 * d;
    GcdUnique(g, h, 2 * d, b);
  }

  // ----- The loop -------------------------------------------------------------------------

  /** Where the loop stands: x is 0 and y is the odd gcd, or both are positive and share it. */
  ghost predicate GcdState(x: nat, y: nat, g: nat)
  {
    y > 0 && if x == 0 then y == g else exists i, j :: HasOddGcd(x, y, i, j, g)
  }

  /** One odd number is left: no power of two is common any more. */
  lemma StateFromOdd(x: nat, y: nat, g: nat)
    requires y % 2 == 1 && IsGcd(g, x, y)
    ensures GcdState(x, y, g)
  {
    hide IsGcd, P2;
    P2Zero();
    if x == 0 {
      GcdZero(y);
      GcdUnique(g, y, 0, y);
    } else {
      var i := LsbExists(x);
      assert IsLsb(0, y);
      assert Min(i, 0) == 0;
      assert HasOddGcd(x, y, i, 0, g);
    }
  }

  lemma StateFromOddFirst(x: nat, y: nat, g: nat)
    requires x % 2 == 1 && y > 0 && IsGcd(g, x, y)
    ensures GcdState(x, y, g)
  {
    hide IsGcd, P2;
    P2Zero();
    var j := LsbExists(y);
    assert IsLsb(0, x);
    assert Min(0, j) == 0;
    assert HasOddGcd(x, y, 0, j, g);
  }

  lemma {:induction false} LsbExists(x: nat) returns (i: nat)
    requires x > 0
    ensures IsLsb(i, x)
  {
    if x % 2 == 1 {
      i := 0;
      P2Zero();
    } else {
      var k := LsbExists(x / 2);
      i := k + 1;
      hide P2;
      P2Succ(k);
      DivDiv(x, 2, P2(k));
    }
  }

  lemma LsbUnique(i: nat, j: nat, x: nat)
    requires IsLsb(i, x) && IsLsb(j, x)
    ensures i == j
  {
    if i < j {
      LsbBelow(i, j, x);
    } else if j < i {
      LsbBelow(j, i, x);
    }
  }

  lemma LsbBelow(i: nat, j: nat, x: nat)
    requires i < j && x % P2(j) == 0
    ensures x / P2(i) % 2 == 0
  {
    hide P2;
    P2Add(i + 1, j - i - 1);
    P2Succ(i);
    var k := x / P2(j);
    assert x == P2(j) * k;
    MulAssoc(2 * P2(i), P2(j - i - 1), k);
    var e := P2(j - i - 1) * k;
    assert x == (2 * e) * P2(i) + 0;
    DivModUnique(x, P2(i), 2 * e, 0);
  }

  /** The state names the trailing zeros that the code counts. */
  lemma StateLsb(x: nat, y: nat, g: nat, i: nat, j: nat)
    requires GcdState(x, y, g) && x > 0 && IsLsb(i, x) && IsLsb(j, y)
    ensures HasOddGcd(x, y, i, j, g)
  {
    hide IsLsb, IsGcd, P2;
    var i', j' :| HasOddGcd(x, y, i', j', g);
    LsbUnique(i, i', x);
    LsbUnique(j, j', y);
  }

  lemma StatePositive(x: nat, y: nat, g: nat)
    requires GcdState(x, y, g)
    ensures y > 0 && (x == 0 ==> y == g)
  {}

  /** One turn on plain numbers. */
  lemma GcdTurn(x: nat, y: nat, i: nat, j: nat, g: nat)
    requires GcdState(x, y, g) && x > 0 && IsLsb(i, x) && IsLsb(j, y)
    ensures var a, b := x / P2(i), y / P2(j);
      && 0 < a <= x && 0 < b <= y
      && (a >= b ==> (a - b) / 2 >= 0 && GcdState((a - b) / 2, b, g))
      && (a < b ==> (b - a) / 2 > 0 && GcdState(a, (b - a) / 2, g))
  {
    hide *;
    StateLsb(x, y, g, i, j);
    OddPart(x, i);
    OddPart(y, j);
    GcdOddParts(x, y, i, j, g);
    var a, b := x / P2(i), y / P2(j);
    if a >= b {
      HalfDifference(a, b, g);
      StateFromOdd((a - b) / 2, b, g);
    } else {
      GcdSymmetric(g, a, b);
      HalfDifference(b, a, g);
      GcdSymmetric(g, (b - a) / 2, a);
      StateFromOddFirst(a, (b - a) / 2, g);
    }
  }

  /** The loop of mbedtls_mpi_gcd */
  method GcdLoop(TA: Mpi, TB: Mpi, ghost g: nat)
    requires TA != TB && TA.s == 1 && TB.s == 1 && GcdState(Val(TA.p), Val(TB.p), g)
    modifies TA, TB
    ensures Val(TB.p) == g && TB.s == 1
  {
    hide *;
    AbsZero();
    P2Zero();
    P2Succ(0);
    var cmp := CmpInt(TA, 0);
    TA.ValueIs();
    SignOf(TA.Value() - 0);
    while cmp != 0
      invariant TA.s == 1 && TB.s == 1 && GcdState(Val(TA.p), Val(TB.p), g)
      invariant cmp != 0 <==> Val(TA.p) != 0
      decreases Val(TA.p) + Val(TB.p)
    {
      ghost var x, y := Val(TA.p), Val(TB.p);
      StatePositive(x, y, g);
      var i := TA.Lsb();
      ShiftR(TA, i);
      var j := TB.Lsb();
      ShiftR(TB, j);
      GcdTurn(x, y, i, j, g);
      TA.ValueIs();
      TB.ValueIs();
      var c := CmpMpi(TA, TB);
      SignOf(TA.Value() - TB.Value());
      if c >= 0 {
        var ret := SubAbs(TA, TA, TB);
        ShiftR(TA, 1);
      } else {
        var ret := SubAbs(TB, TB, TA);
        ShiftR(TB, 1);
      }
      cmp := CmpInt(TA, 0);
      TA.ValueIs();
      SignOf(TA.Value() - 0);
    }
    StatePositive(Val(TA.p), Val(TB.p), g);
  }

  /** The state on entry to the loop; lz is the common power of two. */
  lemma StartState(a: nat, b: nat, i: nat, j: nat) returns (g: nat)
    requires b > 0 && IsLsb(j, b) && if a == 0 then i == 0 else IsLsb(i, a)
    ensures GcdState(a, b, g) && IsGcd(P2(Min(i, j)) * g, a, b)
  {
    hide IsGcd, IsLsb, P2, Min;
    if a == 0 {
      g := b;
      GcdZero(b);
      MinStep(i, j);
      P2Zero();
      assert P2(0) * g == g;
    } else {
      g := OddGcdExists(a, b, i, j);
    }
  }

  lemma GcdOfSigns(g: int, s: Sign, t: Sign, a: nat, b: nat)
    requires IsGcd(g, a, b)
    ensures IsGcd(g, Signed(s, a), Signed(t, b))
  {
    hide IsGcd;
    if s != 1 { GcdNegate(g, a, b); }
    GcdSymmetric(g, Signed(s, a), b);
    if t != 1 { GcdNegate(g, b, Signed(s, a)); }
    GcdSymmetric(g, Signed(t, b), Signed(s, a));
  }

  /** An even low bit and no trailing zeros: the number is 0. */
  lemma ZeroTest(v: nat, k: nat)
    requires v == 0 ==> k == 0
    requires v != 0 ==> IsLsb(k, v)
    ensures k == 0 && v / P2(0) % 2 == 0 <==> v == 0
  {
    P2Zero();
  }

  /** mbedtls_mpi_gcd: G = gcd(A, B) for B not 0, and A itself for B = 0. G may be A or B. */
  method Gcd(G: Mpi, A: Mpi, B: Mpi)
    modifies G
    ensures old(B.Value()) != 0 ==> IsGcd(G.Value(), old(A.Value()), old(B.Value()))
    ensures old(B.Value()) == 0 ==> G.Value() == old(A.Value())
  {
    hide *;
    ghost var a, b, s, t := Val(A.p), Val(B.p), A.s, B.s;
    A.ValueIs();
    B.ValueIs();
    SignedZeroOnly(t, b);
    var TA := new Mpi();
    var TB := new Mpi();
    TA.Copy(A);
    TB.Copy(B);
    var lz := TA.Lsb();
    var lzt := TB.Lsb();
    ghost var i, j := lz, lzt;
    var bit := TB.GetBit(0);
    ZeroTest(b, lzt);
    if lzt == 0 && bit == 0 {
      G.Copy(A);
      return;
    }
    if lzt < lz { lz := lzt; }
    TA.s, TB.s := 1, 1;
    MinIs(i, j);
    ghost var g := StartState(a, b, i, j);
    GcdOfSigns(P2(lz) * g, s, t, a, b);
    GcdLoop(TA, TB, g);
    ShiftL(TB, lz);
    TB.ValueIs();
    assert g * P2(lz) == P2(lz) * g;
    G.Copy(TB);
  }

  lemma SignedZeroOnly(s: Sign, v: nat)
    ensures Signed(s, v) == 0 <==> v == 0
  {}

  lemma MinIs(i: nat, j: nat)
    ensures Min(i, j) == if j < i then j else i
  {}

  /** What Gcd returns is the gcd exactly when B is not 0 or A is not negative. */
  lemma ResultIsGcd(g: int, a: int, b: int)
    requires if b != 0 then IsGcd(g, a, b) else g == a
    ensures IsGcd(g, a, b) <==> b != 0 || a >= 0
  {
    hide IsGcd;
    if b == 0 && a >= 0 {
      GcdZero(a);
      GcdSymmetric(a, 0, a);
    }
    if b == 0 && a < 0 { NotNegative(a, b); }
  }

  /** An input where it is not: for A = -5 and B = 0 the function leaves -5, and the divisor is 5. */
  lemma ResultFails()
    ensures !IsGcd(-5, -5, 0) && IsGcd(5, -5, 0)
  {
    NotNegative(-5, 0);
    GcdZero(5);
    GcdSymmetric(5, 0, 5);
    GcdNegate(5, 5, 0);
  }

  lemma NotNegative(g: int, b: int)
    requires g < 0
    ensures !IsGcd(g, g, b)
  {}
}
