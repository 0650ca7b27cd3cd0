/** mbedtls_mpi_inv_mod: the modular inverse by the binary extended Euclidean algorithm. */
module InvMods {
  import opened Arith
  import opened Limbs
  import opened Mpis
  import opened Shifts
  import opened AddSubs
  import opened DivMpis
  import opened Gcds

  // ----- Parities -------------------------------------------------------------------------

  /** Coprime numbers are not both even. */
  lemma NotBothEven(a: int, b: int)
    requires IsGcd(1, a, b)
    ensures a % 2 != 0 || b % 2 != 0
  {
    if a % 2 == 0 && b % 2 == 0 {
      DividesMod(2, a);
      DividesMod(2, b);
      assert Divides(2, 1);
      DividesMod(2, 1);
    }
  }

  /** When the combination is even but a coefficient is odd, the fix makes both even. */
  lemma ParityFix(u1: int, u2: int, a: int, b: int, t: int)
    requires u1 * a + u2 * b == t && t % 2 == 0 && (a % 2 != 0 || b % 2 != 0)
    ensures u1 % 2 != 0 || u2 % 2 != 0 ==> (u1 + b) % 2 == 0 && (u2 - a) % 2 == 0
  {
    ParityOfProduct(u1, a);
    ParityOfProduct(u2, b);
    ParityCases(u1, u2, a, b, u1 * a, u2 * b);
  }

  lemma ParityCases(u1: int, u2: int, a: int, b: int, x: int, y: int)
    requires x % 2 == u1 % 2 * (a % 2) && y % 2 == u2 % 2 * (b % 2)
    requires (x + y) % 2 == 0 && (a % 2 != 0 || b % 2 != 0)
    ensures u1 % 2 != 0 || u2 % 2 != 0 ==> (u1 + b) % 2 == 0 && (u2 - a) % 2 == 0
  {
    ParityOfSum(x, y);
    var p, q, r, s := u1 % 2, u2 % 2, a % 2, b % 2;
    assert p == 0 || p == 1;
    assert q == 0 || q == 1;
    assert r == 0 || r == 1;
    assert s == 0 || s == 1;
  }

  lemma ParityOfProduct(x: int, y: int)
    ensures x * y % 2 == x % 2 * (y % 2)
  {
    var p, q, r, s := x / 2, y / 2, x % 2, y % 2;
    assert x == 2 * p + r && y == 2 * q + s;
    ProductExpands(p, q, r, s);
    DivModUnique(x * y, 2, 2 * (p * q) + p * s + q * r, r * s);
  }

  lemma ProductExpands(p: int, q: int, r: int, s: int)
    ensures (2 * p + r) * (2 * q + s) == (2 * (p * q) + p * s + q * r) * 2 + r * s
  {}

  lemma ParityOfSum(x: int, y: int)
    ensures (x + y) % 2 == 0 <==> x % 2 == y % 2
  {}

  /** The combination u1 * a + u2 * b stands for t. */
  ghost predicate Combines(u1: int, u2: int, a: int, b: int, t: int)
  {
    u1 * a + u2 * b == t
  }

  lemma CombinesHalf(u1: int, u2: int, a: int, b: int, t: int)
    requires Combines(2 * u1, 2 * u2, a, b, 2 * t)
    ensures Combines(u1, u2, a, b, t)
  {
    MulAssoc(2, u1, a);
    MulAssoc(2, u2, b);
  }

  lemma CombinesShift(u1: int, u2: int, a: int, b: int, t: int)
    requires Combines(u1, u2, a, b, t)
    ensures Combines(u1 + b, u2 - a, a, b, t)
  {}

  lemma CombinesMinus(u1: int, u2: int, v1: int, v2: int, a: int, b: int, t: int, w: int)
    requires Combines(u1, u2, a, b, t) && Combines(v1, v2, a, b, w)
    ensures Combines(u1 - v1, u2 - v2, a, b, t - w)
  {}

  /** Halving one of two coprime numbers keeps them coprime. */
  lemma CoprimeHalf(x: int, y: int)
    requires IsGcd(1, 2 * x, y)
    ensures IsGcd(1, x, y)
  {
    forall d
      ensures (Divides(d, x) && Divides(d, y)) <==> Divides(d, 1)
    {
      if Divides(d, x) { DividesLinear(d, x, x, 2, 0); }
      if Divides(d, 1) {
        DividesBy(1, x, x);
        DividesTrans(d, 1, x);
      }
    }
  }

  lemma CoprimeMinus(x: int, y: int)
    requires IsGcd(1, x, y)
    ensures IsGcd(1, x - y, y) && IsGcd(1, x, y - x)
  {
    hide IsGcd;
    GcdShift(1, x, y, -1);
    GcdSymmetric(1, x, y);
    GcdShift(1, y, x, -1);
    GcdSymmetric(1, y - x, x);
    assert x + y * -1 == x - y && y + x * -1 == y - x;
  }

  // ----- Halving an MPI -------------------------------------------------------------------

  lemma HalfSigned(s: Sign, s': Sign, v: nat)
    requires v % 2 == 0 && (s' == s || (s' == 1 && v / 2 == 0))
    ensures Signed(s, v) == 2 * Signed(s', v / 2)
  {}

  lemma SignedParity(s: Sign, v: nat)
    ensures Signed(s, v) % 2 == v % 2
  {}

  /** shift_r by one halves an even value exactly, whatever its sign. */
  method HalveExact(X: Mpi)
    requires X.Value() % 2 == 0
    modifies X
    ensures old(X.Value()) == 2 * X.Value()
    ensures |X.p| >= |old(X.p)|
  {
    hide *;
    ghost var s, v := X.s, Val(X.p);
    X.ValueIs();
    SignedParity(s, v);
    P2Succ(0);
    P2Zero();
    ShiftR(X, 1);
    X.ValueIs();
    HalfSigned(s, X.s, v);
  }

  method IsOdd(X: Mpi) returns (odd: bool)
    requires |X.p| > 0
    ensures odd <==> X.Value() % 2 == 1
  {
    hide *;
    X.ValueIs();
    SignedParity(X.s, Val(X.p));
    ValEven(X.p);
    AndOne(X.p[0]);
    odd := And(X.p[0], 1) != 0;
  }

  /** One inner loop: T is made odd, the combination C1 * TA + C2 * TB == T following it. */
  method MakeOdd(T: Mpi, C1: Mpi, C2: Mpi, TA: Mpi, TB: Mpi, ghost other: int)
    requires T != C1 && T != C2 && C1 != C2 && TA != T && TA != C1 && TA != C2 && TB != T && TB != C1 && TB != C2
    requires |T.p| > 0 && |C1.p| > 0 && |C2.p| > 0 && T.Value() > 0
    requires Combines(C1.Value(), C2.Value(), TA.Value(), TB.Value(), T.Value())
    requires IsGcd(1, TA.Value(), TB.Value()) && IsGcd(1, T.Value(), other)
    modifies T, C1, C2
    ensures |T.p| > 0 && |C1.p| > 0 && |C2.p| > 0
    ensures 0 < T.Value() <= old(T.Value()) && T.Value() % 2 == 1
    ensures Combines(C1.Value(), C2.Value(), TA.Value(), TB.Value(), T.Value())
    ensures IsGcd(1, T.Value(), other)
  {
    hide *;
    ghost var a, b := TA.Value(), TB.Value();
    NotBothEven(a, b);
    var odd := IsOdd(T);
    while !odd
      invariant |T.p| > 0 && |C1.p| > 0 && |C2.p| > 0
      invariant 0 < T.Value() <= old(T.Value()) && (odd <==> T.Value() % 2 == 1)
      invariant Combines(C1.Value(), C2.Value(), a, b, T.Value())
      invariant IsGcd(1, T.Value(), other)
      decreases T.Value()
    {
      ghost var t := T.Value();
      HalveExact(T);
      CoprimeHalf(T.Value(), other);
      FixAndHalve(C1, C2, TA, TB, T.Value());
      odd := IsOdd(T);
    }
  }

  /** The parity fix and the two shifts. */
  method FixAndHalve(C1: Mpi, C2: Mpi, TA: Mpi, TB: Mpi, ghost t: int)
    requires C1 != C2 && TA != C1 && TA != C2 && TB != C1 && TB != C2
    requires |C1.p| > 0 && |C2.p| > 0
    requires Combines(C1.Value(), C2.Value(), TA.Value(), TB.Value(), 2 * t)
    requires TA.Value() % 2 != 0 || TB.Value() % 2 != 0
    modifies C1, C2
    ensures |C1.p| > 0 && |C2.p| > 0
    ensures Combines(C1.Value(), C2.Value(), TA.Value(), TB.Value(), t)
  {
    hide *;
    ghost var a, b := TA.Value(), TB.Value();
    CombinesIs(C1.Value(), C2.Value(), a, b, 2 * t);
    ParityFix(C1.Value(), C2.Value(), a, b, 2 * t);
    var odd1 := IsOdd(C1);
    var odd2 := IsOdd(C2);
    if odd1 || odd2 {
      CombinesShift(C1.Value(), C2.Value(), a, b, 2 * t);
      AddMpi(C1, C1, TB);
      SubMpi(C2, C2, TA);
    }
    HalveExact(C1);
    HalveExact(C2);
    CombinesHalf(C1.Value(), C2.Value(), a, b, t);
  }

  lemma CombinesIs(u1: int, u2: int, a: int, b: int, t: int)
    ensures Combines(u1, u2, a, b, t) <==> u1 * a + u2 * b == t
  {}

  // ----- The main loop --------------------------------------------------------------------

  /** The six working numbers are separate objects. */
  ghost predicate Apart(TU: Mpi, U1: Mpi, U2: Mpi, TV: Mpi, V1: Mpi, V2: Mpi, TA: Mpi, TB: Mpi)
  {
    && TU != U1 && TU != U2 && TU != TV && TU != V1 && TU != V2 && U1 != U2 && U1 != TV && U1 != V1 && U1 != V2
    && U2 != TV && U2 != V1 && U2 != V2 && TV != V1 && TV != V2 && V1 != V2
    && TA !in [TU, U1, U2, TV, V1, V2] && TB !in [TU, U1, U2, TV, V1, V2]
  }

  /** The loop invariant. */
  ghost predicate Euclid(TU: Mpi, U1: Mpi, U2: Mpi, TV: Mpi, V1: Mpi, V2: Mpi, a: int, b: int)
    reads TU, U1, U2, TV, V1, V2
  {
    && |U1.p| > 0 && |U2.p| > 0 && |V1.p| > 0 && |V2.p| > 0 && |TU.p| > 0 && |TV.p| > 0
    && TU.Value() >= 0 && TV.Value() > 0 && IsGcd(1, TU.Value(), TV.Value())
    && Combines(U1.Value(), U2.Value(), a, b, TU.Value())
    && Combines(V1.Value(), V2.Value(), a, b, TV.Value())
  }

  lemma EuclidIs(TU: Mpi, U1: Mpi, U2: Mpi, TV: Mpi, V1: Mpi, V2: Mpi, a: int, b: int)
    ensures Euclid(TU, U1, U2, TV, V1, V2, a, b) <==>
      && |U1.p| > 0 && |U2.p| > 0 && |V1.p| > 0 && |V2.p| > 0 && |TU.p| > 0 && |TV.p| > 0
      && TU.Value() >= 0 && TV.Value() > 0 && IsGcd(1, TU.Value(), TV.Value())
      && Combines(U1.Value(), U2.Value(), a, b, TU.Value())
      && Combines(V1.Value(), V2.Value(), a, b, TV.Value())
  {}

  /** The body of the do loop. */
  method EuclidTurn(TU: Mpi, U1: Mpi, U2: Mpi, TV: Mpi, V1: Mpi, V2: Mpi, TA: Mpi, TB: Mpi)
    requires Apart(TU, U1, U2, TV, V1, V2, TA, TB)
    requires Euclid(TU, U1, U2, TV, V1, V2, TA.Value(), TB.Value()) && TU.Value() > 0
    requires IsGcd(1, TA.Value(), TB.Value())
    modifies TU, U1, U2, TV, V1, V2
    ensures Euclid(TU, U1, U2, TV, V1, V2, TA.Value(), TB.Value())
    ensures TU.Value() + TV.Value() < old(TU.Value() + TV.Value())
  {
    hide *;
    hide Apart;
    ApartIs(TU, U1, U2, TV, V1, V2, TA, TB);
    ghost var a, b := TA.Value(), TB.Value();
    EuclidIs(TU, U1, U2, TV, V1, V2, a, b);
    MakeOdd(TU, U1, U2, TA, TB, TV.Value());
    GcdSymmetric(1, TU.Value(), TV.Value());
    MakeOdd(TV, V1, V2, TA, TB, TU.Value());
    GcdSymmetric(1, TV.Value(), TU.Value());
    CoprimeMinus(TU.Value(), TV.Value());
    CombinesMinus(U1.Value(), U2.Value(), V1.Value(), V2.Value(), a, b, TU.Value(), TV.Value());
    CombinesMinus(V1.Value(), V2.Value(), U1.Value(), U2.Value(), a, b, TV.Value(), TU.Value());
    var cmp := CmpMpi(TU, TV);
    SignOf(TU.Value() - TV.Value());
    if cmp >= 0 {
      SubMpi(TU, TU, TV);
      SubMpi(U1, U1, V1);
      SubMpi(U2, U2, V2);
    } else {
      SubMpi(TV, TV, TU);
      SubMpi(V1, V1, U1);
      SubMpi(V2, V2, U2);
    }
    EuclidIs(TU, U1, U2, TV, V1, V2, a, b);
  }

  lemma ApartIs(TU: Mpi, U1: Mpi, U2: Mpi, TV: Mpi, V1: Mpi, V2: Mpi, TA: Mpi, TB: Mpi)
    requires Apart(TU, U1, U2, TV, V1, V2, TA, TB)
    ensures TU != U1 && TU != U2 && TU != TV && TU != V1 && TU != V2 && U1 != U2 && U1 != TV && U1 != V1 && U1 != V2
    ensures U2 != TV && U2 != V1 && U2 != V2 && TV != V1 && TV != V2 && V1 != V2
    ensures TA != TU && TA != U1 && TA != U2 && TA != TV && TA != V1 && TA != V2
    ensures TB != TU && TB != U1 && TB != U2 && TB != TV && TB != V1 && TB != V2
  {
    assert TU in [TU, U1, U2, TV, V1, V2] && U1 in [TU, U1, U2, TV, V1, V2] && U2 in [TU, U1, U2, TV, V1, V2];
    assert TV in [TU, U1, U2, TV, V1, V2] && V1 in [TU, U1, U2, TV, V1, V2] && V2 in [TU, U1, U2, TV, V1, V2];
  }

  /** The do loop: it ends with the combination for 1. */
  method EuclidLoop(TU: Mpi, U1: Mpi, U2: Mpi, TV: Mpi, V1: Mpi, V2: Mpi, TA: Mpi, TB: Mpi)
    requires Apart(TU, U1, U2, TV, V1, V2, TA, TB)
    requires Euclid(TU, U1, U2, TV, V1, V2, TA.Value(), TB.Value()) && TU.Value() > 0
    requires IsGcd(1, TA.Value(), TB.Value())
    modifies TU, U1, U2, TV, V1, V2
    ensures Combines(V1.Value(), V2.Value(), TA.Value(), TB.Value(), 1)
  {
    hide *;
    AbsZero();
    ApartIs(TU, U1, U2, TV, V1, V2, TA, TB);
    EuclidIs(TU, U1, U2, TV, V1, V2, TA.Value(), TB.Value());
    var more := true;
    while more
      invariant Euclid(TU, U1, U2, TV, V1, V2, TA.Value(), TB.Value())
      invariant TU.Value() + TV.Value() > 0 && TU.Value() >= 0
      invariant more <==> TU.Value() != 0
      decreases TU.Value() + TV.Value()
    {
      EuclidTurn(TU, U1, U2, TV, V1, V2, TA, TB);
      EuclidIs(TU, U1, U2, TV, V1, V2, TA.Value(), TB.Value());
      var cmp := CmpInt(TU, 0);
      SignOf(TU.Value() - 0);
      more := cmp != 0;
    }
    EuclidIs(TU, U1, U2, TV, V1, V2, TA.Value(), TB.Value());
    GcdZero(TV.Value());
    GcdUnique(1, TV.Value(), 0, TV.Value());
  }

  /** The last two loops: bring V1 into the range 0..N-1. */
  method Normalise(V1: Mpi, N: Mpi)
    requires V1 != N && N.Value() > 0
    modifies V1
    ensures 0 <= V1.Value() < N.Value() && Cong(V1.Value(), old(V1.Value()), N.Value())
  {
    hide *;
    AbsZero();
    ghost var v, n := V1.Value(), N.Value();
    CongSelf(v, n);
    var cmp := CmpInt(V1, 0);
    SignOf(V1.Value() - 0);
    while cmp < 0
      invariant Cong(V1.Value(), v, n) && (cmp < 0 <==> V1.Value() < 0)
      decreases 0 - V1.Value()
    {
      CongFrom(V1.Value() + n, V1.Value(), 1, n);
      CongTrans(V1.Value() + n, V1.Value(), v, n);
      AddMpi(V1, V1, N);
      cmp := CmpInt(V1, 0);
      SignOf(V1.Value() - 0);
    }
    cmp := CmpMpi(V1, N);
    SignOf(V1.Value() - n);
    while cmp >= 0
      invariant Cong(V1.Value(), v, n) && 0 <= V1.Value() && (cmp >= 0 <==> V1.Value() >= n)
      decreases V1.Value()
    {
      CongFrom(V1.Value() - n, V1.Value(), -1, n);
      CongTrans(V1.Value() - n, V1.Value(), v, n);
      SubMpi(V1, V1, N);
      cmp := CmpMpi(V1, N);
      SignOf(V1.Value() - n);
    }
  }

  /** x is the inverse of a modulo n in the range 1..n-1. */
  ghost predicate IsInverse(x: int, a: int, n: int)
  {
    1 < n && 0 < x < n && Cong(x * a, 1, n)
  }

  /** The combination for 1 gives the inverse. */
  lemma InverseFromCombination(v1: int, v2: int, a: int, ta: int, n: int, x: int)
    requires 1 < n && ta == a % n && Combines(v1, v2, ta, n, 1) && 0 <= x < n && Cong(x, v1, n)
    ensures IsInverse(x, a, n)
  {
    hide *;
    CombinesIs(v1, v2, ta, n, 1);
    CongFrom(v1 * ta, 1, 0 - v2, n) by { assert v1 * ta == 1 + (0 - v2) * n; }
    CongMod(a, n);
    CongSym(ta, a, n);
    CongMul(x, v1, a, ta, n);
    CongTrans(x * a, v1 * ta, 1, n);
    if x == 0 {
      assert x * a == 0;
      CongSmall(0, 1, n);
    }
    InverseIs(x, a, n);
  }

  lemma InverseIs(x: int, a: int, n: int)
    ensures IsInverse(x, a, n) <==> 1 < n && 0 < x < n && Cong(x * a, 1, n)
  {}

  /** Reducing modulo n keeps coprimality, and a unit is not 0 modulo n. */
  lemma CoprimeResidue(a: int, n: int)
    requires 1 < n && IsGcd(1, a, n)
    ensures IsGcd(1, a % n, n) && 0 < a % n
  {
    hide IsGcd;
    var q := a / n;
    assert a == q * n + a % n;
    GcdShift(1, a, n, -q);
    assert a + n * -q == a % n;
    if a % n == 0 {
      GcdZero(n);
      GcdUnique(1, n, 0, n);
    }
  }

  /** There is an inverse exactly when the function can succeed. */
  lemma InverseIffCoprime(a: int, n: int)
    requires 1 < n
    ensures (exists x :: IsInverse(x, a, n)) <==> IsGcd(1, a, n)
  {
    hide IsGcd, Cong;
    UnitIffCoprime(a, n);
    if IsGcd(1, a, n) {
      var y :| Cong(a * y, 1, n);
      var x := y % n;
      DivModBounds(y, n);
      CongMod(y, n);
      CongSelf(a, n);
      CongMul(x, y, a, a, n);
      CongTrans(x * a, y * a, 1, n);
      if x == 0 { CongSmall(0, 1, n); }
      assert IsInverse(x, a, n);
    }
    if x :| IsInverse(x, a, n) {
      assert Cong(a * x, 1, n);
    }
  }

  lemma DivModBounds(y: int, n: int)
    requires 0 < n
    ensures 0 <= y % n < n
  {}

  /** mbedtls_mpi_inv_mod: X = A^-1 mod N. X may be A or N. */
  method InvMod(X: Mpi, A: Mpi, N: Mpi) returns (ret: Status)
    modifies X
    ensures ret == if old(N.Value()) <= 1 then BadInputData
                   else if IsGcd(1, old(A.Value()), old(N.Value())) then Ok else NotAcceptable
    ensures ret == Ok ==> IsInverse(X.Value(), old(A.Value()), old(N.Value()))
    ensures ret != Ok ==> X.Value() == old(X.Value())
  {
    hide *;
    ghost var a, n := A.Value(), N.Value();
    AbsOne();
    var cmp := CmpInt(N, 1);
    SignOf(N.Value() - 1);
    if cmp <= 0 { return BadInputData; }
    var G := new Mpi();
    Gcd(G, A, N);
    cmp := CmpInt(G, 1);
    SignOf(G.Value() - 1);
    if cmp != 0 {
      if IsGcd(1, a, n) { GcdUnique(1, G.Value(), a, n); }
      return NotAcceptable;
    }
    CoprimeResidue(a, n);
    var V1 := InverseCoefficient(A, N);
    X.Copy(V1);
    return Ok;
  }

  lemma AbsOne()
    ensures Abs(1) == 1 && Abs(0) == 0
  {}

  /** The computation for coprime arguments. */
  method InverseCoefficient(A: Mpi, N: Mpi) returns (V1: Mpi)
    requires N.Value() > 1 && IsGcd(1, A.Value(), N.Value())
    ensures fresh(V1) && IsInverse(V1.Value(), A.Value(), N.Value())
  {
    hide *;
    ghost var a, n := A.Value(), N.Value();
    CoprimeResidue(a, n);
    var TA := new Mpi();
    var ret := ModMpi(TA, A, N);
    var TB := new Mpi();
    TB.Copy(N);
    ghost var v2;
    V1, v2 := ExtendedEuclid(TA, TB);
    ghost var v1 := V1.Value();
    Normalise(V1, N);
    InverseFromCombination(v1, v2, a, a % n, n, V1.Value());
  }

  /** Set up the working numbers and run the loop. */
  method ExtendedEuclid(TA: Mpi, TB: Mpi) returns (V1: Mpi, ghost v2: int)
    requires TA.Value() > 0 && TB.Value() > 0 && IsGcd(1, TA.Value(), TB.Value())
    ensures fresh(V1) && Combines(V1.Value(), v2, TA.Value(), TB.Value(), 1)
  {
    hide *;
    ghost var a, b := TA.Value(), TB.Value();
    var TU := new Mpi();
    TU.Copy(TA);
    HasLimbs(TU);
    var TV := new Mpi();
    TV.Copy(TB);
    HasLimbs(TV);
    AbsOne();
    var U1 := NewInt(1);
    var U2 := NewInt(0);
    V1 := NewInt(0);
    var V2 := NewInt(1);
    CombinesIs(1, 0, a, b, a);
    CombinesIs(0, 1, a, b, b);
    EuclidIs(TU, U1, U2, TV, V1, V2, a, b);
    FreshApart(TU, U1, U2, TV, V1, V2, TA, TB);
    EuclidLoop(TU, U1, U2, TV, V1, V2, TA, TB);
    v2 := V2.Value();
  }

  method NewInt(z: int) returns (X: Mpi)
    requires Abs(z) < BASE
    ensures fresh(X) && X.Value() == z && |X.p| > 0
  {
    hide *;
    X := new Mpi();
    X.LSet(z);
  }

  lemma HasLimbs(X: Mpi)
    ensures X.Value() > 0 ==> |X.p| > 0
  {
    ValEmpty();
  }

  lemma FreshApart(TU: Mpi, U1: Mpi, U2: Mpi, TV: Mpi, V1: Mpi, V2: Mpi, TA: Mpi, TB: Mpi)
    requires TU != U1 && TU != U2 && TU != TV && TU != V1 && TU != V2 && U1 != U2 && U1 != TV && U1 != V1 && U1 != V2
    requires U2 != TV && U2 != V1 && U2 != V2 && TV != V1 && TV != V2 && V1 != V2
    requires TA != TU && TA != U1 && TA != U2 && TA != TV && TA != V1 && TA != V2
    requires TB != TU && TB != U1 && TB != U2 && TB != TV && TB != V1 && TB != V2
    ensures Apart(TU, U1, U2, TV, V1, V2, TA, TB)
  {}
}
