/** Integer facts the multi-precision code rests on: powers, division with remainder,
    congruence, divisibility and greatest common divisors. */
module Arith {

  // ----- Multiplication, one fact at a time ---------------------------------------------

  lemma MulLe(a: int, x: int, y: int)
    requires 0 <= a && x <= y
    ensures a * x <= a * y
    ensures x * a <= y * a
  {}

  lemma MulLt(a: int, x: int, y: int)
    requires 0 < a && x < y
    ensures a * x < a * y
    ensures x * a < y * a
  {}

  lemma MulCancelLe(a: int, x: int, y: int)
    requires 0 < a && a * x <= a * y
    ensures x <= y
  {
    if y < x { MulLt(a, y, x); }
  }

  lemma MulCancelLt(a: int, x: int, y: int)
    requires 0 < a && a * x < a * y
    ensures x < y
  {
    if y <= x { MulLe(a, y, x); }
  }

  lemma MulCancelEq(a: int, x: int, y: int)
    requires a != 0 && a * x == a * y
    ensures x == y
  {
    if x < y {
      if a > 0 { MulLt(a, x, y); } else { MulLt(-a, x, y); }
    } else if y < x {
      if a > 0 { MulLt(a, y, x); } else { MulLt(-a, y, x); }
    }
  }

  lemma MulNonNeg(a: int, b: int)
    requires 0 <= a && 0 <= b
    ensures 0 <= a * b
  {}

  lemma MulAssoc(a: int, b: int, c: int)
    ensures a * (b * c) == (a * b) * c
  {}

  lemma MulAddDist(a: int, b: int, c: int)
    ensures a * (b + c) == a * b + a * c
    ensures a * (b - c) == a * b - a * c
  {}

  lemma MulSwap(a: int, b: int, x: int, y: int)
    ensures (a * b) * (x * y) == (a * x) * (b * y)
  {
    MulAssoc(a * b, x, y);
    MulAssoc(a, b, x);
    MulAssoc(a, x, b);
    MulAssoc(a * x, b, y);
  }

  // ----- Division with remainder --------------------------------------------------------

  /** Euclid's division is unique. */
  lemma DivModUnique(x: int, d: int, q: int, r: int)
    requires 0 <= r < d
    requires x == q * d + r
    ensures x / d == q && x % d == r
  {
    var q', r' := x / d, x % d;
    assert x == d * q' + r';
    assert d * (q' - q) == r - r';
    if q' - q >= 1 {
      MulLe(d, 1, q' - q);
    } else if q' - q <= -1 {
      MulLe(d, q' - q, -1);
    }
    assert q' == q;
    assert r' == r;
  }

  lemma DivModLow(x: int, d: int, q: int, r: int)
    requires 0 <= r < d
    requires x == r + d * q
    ensures x / d == q && x % d == r
  {
    DivModUnique(x, d, q, r);
  }

  lemma DivModSmall(x: int, d: int)
    requires 0 <= x < d
    ensures x / d == 0 && x % d == x
  {
    DivModUnique(x, d, 0, x);
  }

  lemma DivNonNeg(x: int, d: int)
    requires 0 <= x && 0 < d
    ensures 0 <= x / d
  {}

  lemma DivBounds(x: int, d: int)
    requires 0 < d
    ensures d * (x / d) <= x < d * (x / d) + d
  {
    assert x == d * (x / d) + x % d;
  }

  /** Dividing in two steps is dividing once by the product. */
  lemma DivDiv(x: int, a: int, b: int)
    requires 0 < a && 0 < b
    ensures 0 < a * b
    ensures x / a / b == x / (a * b)
    ensures x % (a * b) == x % a + a * (x / a % b)
  {
    var q, r := x / a, x % a;
    var q2, r2 := q / b, q % b;
    assert x == a * q + r;
    assert q == b * q2 + r2;
    MulLe(a, 1, b);
    MulLe(a, r2 + 1, b);
    MulNonNeg(a, r2);
    assert a * (r2 + 1) == a * r2 + a;
    assert x == q2 * (a * b) + (r + a * r2) by {
      assert a * q == a * (b * q2) + a * r2;
      assert a * (b * q2) == q2 * (a * b);
    }
    DivModUnique(x, a * b, q2, r + a * r2);
  }

  /** Digits of mixed weight: lo below b, then r below d, then the rest. */
  lemma TwoDigits(b: int, lo: int, d: int, r: int, high: int)
    requires 0 <= lo < b && 0 <= r < d
    ensures lo + b * (r + d * high) == (lo + b * r) + (b * d) * high
    ensures 0 <= lo + b * r < b * d
  {
    MulAddDist(b, r, d * high);
    MulAssoc(b, d, high);
    MulLe(b, r + 1, d);
    MulAddDist(b, r, 1);
    MulNonNeg(b, r);
  }

  lemma EvenAbove(x: int, h: int, y: int)
    ensures (x + (2 * h) * y) % 2 == x % 2
  {
    MulAssoc(2, h, y);
  }

  // ----- Powers -------------------------------------------------------------------------

  function Pow(b: int, e: nat): int
  {
    if e == 0 then 1 else b * Pow(b, e - 1)
  }

  lemma {:induction false} PowPos(b: int, e: nat)
    requires 0 < b
    ensures 0 < Pow(b, e)
  {
    if e > 0 {
      PowPos(b, e - 1);
      MulLt(b, 0, Pow(b, e - 1));
    }
  }

  lemma {:induction false} PowAdd(b: int, x: nat, y: nat)
    ensures Pow(b, x + y) == Pow(b, x) * Pow(b, y)
  {
    if x > 0 {
      PowAdd(b, x - 1, y);
      assert Pow(b, x + y) == b * Pow(b, x - 1 + y);
      assert b * (Pow(b, x - 1) * Pow(b, y)) == (b * Pow(b, x - 1)) * Pow(b, y);
    }
  }

  lemma {:induction false} PowMono(b: int, x: nat, y: nat)
    requires 1 <= b && x <= y
    ensures 1 <= Pow(b, x) <= Pow(b, y)
  {
    PowPos(b, x);
    if x < y {
      PowMono(b, x, y - 1);
      MulLe(Pow(b, y - 1), 1, b);
    }
  }

  /** two to the k */
  function P2(k: nat): (r: nat)
    ensures r > 0
  {
    if k == 0 then 1 else 2 * P2(k - 1)
  }

  lemma P2Zero()
    ensures P2(0) == 1
  {}

  lemma {:induction false} P2IsPow(k: nat)
    ensures P2(k) == Pow(2, k)
  {
    if k > 0 { P2IsPow(k - 1); }
  }

  lemma P2Add(x: nat, y: nat)
    ensures P2(x + y) == P2(x) * P2(y)
  {
    PowAdd(2, x, y);
    P2IsPow(x);
    P2IsPow(y);
    P2IsPow(x + y);
  }

  lemma {:induction false} P2Mono(x: nat, y: nat)
    requires x <= y
    ensures P2(x) <= P2(y)
    ensures x < y ==> P2(x) < P2(y)
  {
    if x < y { P2Mono(x, y - 1); }
  }

  // ----- Congruence ---------------------------------------------------------------------

  /** a and b leave the same remainder modulo m. */
  ghost predicate Cong(a: int, b: int, m: int)
    requires 0 < m
  {
    a % m == b % m
  }

  lemma CongFrom(a: int, b: int, k: int, m: int)
    requires 0 < m
    requires a == b + k * m
    ensures Cong(a, b, m)
  {
    var q, r := b / m, b % m;
    assert b == m * q + r;
    assert a == (q + k) * m + r;
    DivModUnique(a, m, q + k, r);
  }

  lemma CongTo(a: int, b: int, m: int) returns (k: int)
    requires 0 < m
    requires Cong(a, b, m)
    ensures a == b + k * m
  {
    assert a == m * (a / m) + a % m;
    assert b == m * (b / m) + b % m;
    k := a / m - b / m;
  }

  lemma CongSelf(a: int, m: int)
    requires 0 < m
    ensures Cong(a, a, m)
  {}

  lemma CongSym(a: int, b: int, m: int)
    requires 0 < m && Cong(a, b, m)
    ensures Cong(b, a, m)
  {}

  lemma CongTrans(a: int, b: int, c: int, m: int)
    requires 0 < m && Cong(a, b, m) && Cong(b, c, m)
    ensures Cong(a, c, m)
  {}

  lemma CongMod(a: int, m: int)
    requires 0 < m
    ensures Cong(a % m, a, m)
  {
    assert a == m * (a / m) + a % m;
    CongFrom(a, a % m, a / m, m);
  }

  lemma CongAdd(a: int, b: int, c: int, d: int, m: int)
    requires 0 < m && Cong(a, b, m) && Cong(c, d, m)
    ensures Cong(a + c, b + d, m)
    ensures Cong(a - c, b - d, m)
  {
    var k := CongTo(a, b, m);
    var l := CongTo(c, d, m);
    CongFrom(a + c, b + d, k + l, m);
    CongFrom(a - c, b - d, k - l, m);
  }

  lemma CongMul(a: int, b: int, c: int, d: int, m: int)
    requires 0 < m && Cong(a, b, m) && Cong(c, d, m)
    ensures Cong(a * c, b * d, m)
  {
    var k := CongTo(a, b, m);
    var l := CongTo(c, d, m);
    assert a * c == b * d + (b * l + k * c) * m by {
      assert a * c == b * c + (k * m) * c;
      assert b * c == b * d + b * (l * m);
      assert (k * m) * c == (k * c) * m;
      assert b * (l * m) == (b * l) * m;
    }
    CongFrom(a * c, b * d, b * l + k * c, m);
  }

  /** Congruent numbers in the same residue range are equal. */
  lemma CongSmall(a: int, b: int, m: int)
    requires 0 <= a < m && 0 <= b < m && Cong(a, b, m)
    ensures a == b
  {
    DivModSmall(a, m);
    DivModSmall(b, m);
  }

  /** A factor with an inverse modulo m may be cancelled. */
  lemma CongCancel(a: int, b: int, c: int, inv: int, m: int)
    requires 0 < m
    requires Cong(c * inv, 1, m)
    requires Cong(a * c, b * c, m)
    ensures Cong(a, b, m)
  {
    CongMul(a * c, b * c, inv, inv, m);
    CongMul(a, a, c * inv, 1, m);
    CongMul(b, b, c * inv, 1, m);
    assert a * c * inv == a * (c * inv);
    assert b * c * inv == b * (c * inv);
  }

  // ----- Divisibility and greatest common divisors ---------------------------------------

  ghost predicate Divides(d: int, a: int)
  {
    exists k :: a == d * k
  }

  lemma DividesBy(d: int, a: int, k: int)
    requires a == d * k
    ensures Divides(d, a)
  {}

  lemma DividesZero(d: int)
    ensures Divides(d, 0)
  {
    DividesBy(d, 0, 0);
  }

  lemma DividesLinear(d: int, a: int, b: int, x: int, y: int)
    requires Divides(d, a) && Divides(d, b)
    ensures Divides(d, a * x + b * y)
  {
    var k :| a == d * k;
    var l :| b == d * l;
    assert a * x == d * (k * x);
    assert b * y == d * (l * y);
    DividesBy(d, a * x + b * y, k * x + l * y);
  }

  lemma DividesTrans(d: int, a: int, b: int)
    requires Divides(d, a) && Divides(a, b)
    ensures Divides(d, b)
  {
    var k :| a == d * k;
    var l :| b == a * l;
    assert b == d * (k * l);
  }

  lemma DividesMod(d: int, a: int)
    requires 0 < d
    ensures Divides(d, a) <==> a % d == 0
  {
    if Divides(d, a) {
      var k :| a == d * k;
      DivModUnique(a, d, k, 0);
    }
    if a % d == 0 {
      assert a == d * (a / d);
    }
  }

  lemma DividesLe(d: int, a: int)
    requires 0 < a && Divides(d, a)
    ensures d <= a
  {
    var k :| a == d * k;
    if a < d {
      if k >= 1 { MulLe(d, 1, k); } else { MulLe(d, k, 0); }
    }
  }

  /** g is the greatest common divisor of a and b: its divisors are exactly their common divisors. */
  ghost predicate IsGcd(g: int, a: int, b: int)
  {
    0 <= g && forall d :: (Divides(d, a) && Divides(d, b)) <==> Divides(d, g)
  }

  lemma GcdUnique(g: int, h: int, a: int, b: int)
    requires IsGcd(g, a, b) && IsGcd(h, a, b)
    ensures g == h
  {
    assert Divides(g, g) by { DividesBy(g, g, 1); }
    assert Divides(h, h) by { DividesBy(h, h, 1); }
    assert Divides(g, h) && Divides(h, g);
    if g == 0 {
      var k :| h == g * k;
    } else if h == 0 {
      var k :| g == h * k;
    } else {
      DividesLe(g, h);
      DividesLe(h, g);
    }
  }

  lemma GcdZero(a: int)
    requires 0 <= a
    ensures IsGcd(a, 0, a)
  {
    forall d ensures (Divides(d, 0) && Divides(d, a)) <==> Divides(d, a) { DividesZero(d); }
  }

  lemma GcdSymmetric(g: int, a: int, b: int)
    requires IsGcd(g, a, b)
    ensures IsGcd(g, b, a)
  {}

  /** Adding a multiple of one argument to the other changes nothing. */
  lemma GcdShift(g: int, a: int, b: int, k: int)
    requires IsGcd(g, a, b)
    ensures IsGcd(g, a + b * k, b)
  {
    forall d
      ensures (Divides(d, a + b * k) && Divides(d, b)) <==> Divides(d, g)
    {
      if Divides(d, b) {
        if Divides(d, a) { DividesLinear(d, a, b, 1, k); }
        if Divides(d, a + b * k) {
          DividesLinear(d, a + b * k, b, 1, -k);
          assert (a + b * k) * 1 + b * -k == a;
        }
      }
    }
  }

  lemma GcdNegate(g: int, a: int, b: int)
    requires IsGcd(g, a, b)
    ensures IsGcd(g, -a, b)
  {
    forall d
      ensures Divides(d, -a) <==> Divides(d, a)
    {
      if Divides(d, a) { DividesLinear(d, a, a, -1, 0); }
      if Divides(d, -a) { DividesLinear(d, -a, -a, -1, 0); }
    }
  }

  lemma DividesDouble(d: int, g: int, a: int)
    requires Divides(g, a) && Divides(d, 2 * g)
    ensures Divides(d, 2 * a)
  {
    var k :| a == g * k;
    MulAssoc(2, g, k);
    DividesBy(2 * g, 2 * a, k);
    DividesTrans(d, 2 * g, 2 * a);
  }

  /** A factor of two on both sides comes out of the gcd. */
  lemma GcdDouble(g: int, a: int, b: int)
    requires IsGcd(g, a, b)
    ensures IsGcd(2 * g, 2 * a, 2 * b)
  {
    var x, y := Bezout(g, a, b);
    assert Divides(g, g) by { DividesBy(g, g, 1); }
    forall d
      ensures (Divides(d, 2 * a) && Divides(d, 2 * b)) <==> Divides(d, 2 * g)
    {
      if Divides(d, 2 * a) && Divides(d, 2 * b) {
        DividesLinear(d, 2 * a, 2 * b, x, y);
        MulAssoc(2, a, x);
        MulAssoc(2, b, y);
      }
      if Divides(d, 2 * g) {
        DividesDouble(d, g, a);
        DividesDouble(d, g, b);
      }
    }
  }

  /** A factor of two on one side only is not common when the other side is odd. */
  lemma GcdHalve(g: int, a: int, b: int)
    requires b % 2 == 1
    requires IsGcd(g, a, b)
    ensures IsGcd(g, 2 * a, b)
  {
    forall d
      ensures (Divides(d, 2 * a) && Divides(d, b)) <==> Divides(d, g)
    {
      if Divides(d, g) {
        DividesLinear(d, a, a, 2, 0);
        assert a * 2 + a * 0 == 2 * a;
      }
      if Divides(d, 2 * a) && Divides(d, b) { HalfDivided(d, a, b); }
    }
  }

  /** a = a * b - (b - 1) / 2 * (2 * a) for odd b */
  lemma HalfDivided(d: int, a: int, b: int)
    requires b % 2 == 1 && Divides(d, 2 * a) && Divides(d, b)
    ensures Divides(d, a)
  {
    var h := b / 2;
    assert b == 2 * h + 1;
    DividesLinear(d, 2 * a, b, -h, a);
    hide Divides;
    OddCombination(a, b, h);
  }

  lemma OddCombination(a: int, b: int, h: int)
    requires b == 2 * h + 1
    ensures (2 * a) * -h + b * a == a
  {}

  ghost function Abs(a: int): nat
  {
    if a < 0 then -a else a
  }

  /** Bezout: a gcd is an integer combination of its arguments. */
  lemma {:induction false} Bezout(g: int, a: int, b: int) returns (x: int, y: int)
    requires IsGcd(g, a, b)
    ensures a * x + b * y == g
    decreases Abs(b)
  {
    if b == 0 {
      assert IsGcd(Abs(a), a, 0) by {
        GcdZero(Abs(a));
        GcdSymmetric(Abs(a), 0, Abs(a));
        if a < 0 { GcdNegate(Abs(a), Abs(a), 0); }
      }
      GcdUnique(g, Abs(a), a, 0);
      x, y := if a < 0 then -1 else 1, 0;
    } else {
      var q, r := a / b, a % b;
      assert a == b * q + r;
      GcdShift(g, a, b, -q);
      assert a + b * -q == r;
      GcdSymmetric(g, r, b);
      var x', y' := Bezout(g, b, r);
      x, y := y', x' - q * y';
      assert a * y' + b * (x' - q * y') == b * x' + (a - b * q) * y';
    }
  }

  /** Every pair of integers has a gcd. */
  lemma {:induction false} GcdExists(a: int, b: int) returns (g: nat)
    ensures IsGcd(g, a, b)
    decreases Abs(b)
  {
    if b == 0 {
      g := Abs(a);
      GcdZero(g);
      GcdSymmetric(g, 0, g);
      if a < 0 { GcdNegate(g, g, 0); }
    } else {
      var q, r := a / b, a % b;
      g := GcdExists(b, r);
      GcdSymmetric(g, b, r);
      GcdShift(g, r, b, q);
      assert r + b * q == a;
    }
  }

  lemma GcdSome(a: int, b: int)
    ensures exists g: nat :: IsGcd(g, a, b)
  {
    var g := GcdExists(a, b);
  }

  /** The greatest common divisor */
  ghost function GcdOf(a: int, b: int): (g: nat)
    ensures IsGcd(g, a, b)
  {
    GcdSome(a, b);
    var g: nat :| IsGcd(g, a, b);
    g
  }

  /** What n has in common with a may be taken out of both before asking whether n divides a * m. */
  lemma DividesCofactor(n: nat, a: int, m: int)
    requires n > 0
    ensures var g := GcdOf(a, n);
      g > 0 && n / g > 0 && (Divides(n, a * m) <==> Divides(n / g, m))
  {
    var g := GcdOf(a, n);
    DividesBy(g, g, 1);
    assert Divides(g, a) && Divides(g, n);
    var a' := Cofactor(g, a);
    var n' := Cofactor(g, n);
    CofactorPositive(n, g, n');
    DivModUnique(n, g, n', 0);
    var x, y := Bezout(g, a, n);
    hide *;
    CofactorBezout(g, a', n', x, y);
    if Divides(n', m) { CofactorBack(n, a, m, g, a', n'); }
    if Divides(n, a * m) { CofactorOut(n, a, m, g, a', n', x, y); }
  }

  lemma Cofactor(d: int, a: int) returns (k: int)
    requires Divides(d, a)
    ensures a == d * k
  {
    k :| a == d * k;
  }

  lemma CofactorPositive(n: nat, g: nat, n': int)
    requires n > 0 && n == g * n'
    ensures g > 0 && n' > 0
  {
    if g > 0 && n' <= 0 { MulLe(g, n', 0); }
  }

  lemma CofactorBezout(g: int, a': int, n': int, x: int, y: int)
    requires g > 0 && (g * a') * x + (g * n') * y == g
    ensures a' * x + n' * y == 1
  {
    MulAssoc(g, a', x);
    MulAssoc(g, n', y);
    MulAddDist(g, a' * x, n' * y);
    MulCancelEq(g, a' * x + n' * y, 1);
  }

  lemma CofactorBack(n: int, a: int, m: int, g: int, a': int, n': int)
    requires a == g * a' && n == g * n' && Divides(n', m)
    ensures Divides(n, a * m)
  {
    var k :| m == n' * k;
    assert (g * a') * (n' * k) == (g * n') * (a' * k) by { MulSwap(g, a', n', k); }
    DividesBy(n, a * m, a' * k);
  }

  lemma CofactorOut(n: int, a: int, m: int, g: int, a': int, n': int, x: int, y: int)
    requires g > 0 && a == g * a' && n == g * n' && a' * x + n' * y == 1 && Divides(n, a * m)
    ensures Divides(n', m)
  {
    var k :| a * m == n * k;
    MulAssoc(g, a', m);
    MulAssoc(g, n', k);
    MulCancelEq(g, a' * m, n' * k);
    CofactorAlgebra(a', n', x, y, m, k);
    DividesBy(n', m, k * x + m * y);
  }

  lemma CofactorAlgebra(a': int, n': int, x: int, y: int, m: int, k: int)
    requires a' * x + n' * y == 1 && a' * m == n' * k
    ensures m == n' * (k * x + m * y)
  {
    assert m * (a' * x + n' * y) == (a' * m) * x + n' * (m * y);
    assert (n' * k) * x == n' * (k * x);
  }

  /** Numbers with an inverse modulo n are exactly those coprime to n. */
  lemma UnitIffCoprime(a: int, n: int)
    requires 1 < n
    ensures IsGcd(1, a, n) <==> exists x :: Cong(a * x, 1, n)
  {
    if IsGcd(1, a, n) {
      var x, y := Bezout(1, a, n);
      CongFrom(a * x, 1, -y, n);
    }
    if exists x :: Cong(a * x, 1, n) {
      var x :| Cong(a * x, 1, n);
      var k := CongTo(a * x, 1, n);
      forall d
        ensures (Divides(d, a) && Divides(d, n)) <==> Divides(d, 1)
      {
        if Divides(d, a) && Divides(d, n) {
          DividesLinear(d, a, n, x, -k);
          assert a * x + n * -k == 1;
        }
        if Divides(d, 1) {
          assert Divides(1, a) by { DividesBy(1, a, a); }
          assert Divides(1, n) by { DividesBy(1, n, n); }
          DividesTrans(d, 1, a);
          DividesTrans(d, 1, n);
        }
      }
    }
  }
}
