/** Primes: Euclid's lemma, Fermat's little theorem, square roots of one. */
module Primes {
  import opened Arith

  ghost predicate IsPrime(p: int)
  {
    1 < p && forall d :: 0 < d && Divides(d, p) ==> d == 1 || d == p
  }

  /** A prime that divides a product divides one of the factors. */
  lemma EuclidsLemma(p: int, a: int, b: int)
    requires IsPrime(p) && Divides(p, a * b)
    ensures Divides(p, a) || Divides(p, b)
  {
    var g := GcdExists(a, p);
    DividesBy(g, g, 1);
    assert Divides(g, a) && Divides(g, p);
    NotByZero(p);
    if g != p {
      assert g == 1;
      var x, y := Bezout(1, a, p);
      DividesBy(p, p * (y * b), y * b);
      DividesLinear(p, a * b, p * (y * b), x, 1);
      EuclidAlgebra(a, b, p, x, y);
    }
  }

  lemma NotByZero(p: int)
    requires p != 0
    ensures !Divides(0, p)
  {}

  lemma EuclidAlgebra(a: int, b: int, p: int, x: int, y: int)
    requires a * x + p * y == 1
    ensures (a * b) * x + (p * (y * b)) * 1 == b
  {
    assert (a * b) * x + p * (y * b) == (a * x + p * y) * b;
  }

  /** A prime divides no smaller positive number. */
  lemma NotBelow(p: int, k: int)
    requires IsPrime(p) && 0 < k < p
    ensures !Divides(p, k)
  {
    if Divides(p, k) { DividesLe(p, k); }
  }

  // ----- Binomial coefficients ------------------------------------------------------------

  function Choose(n: nat, k: nat): nat
  {
    if k == 0 then 1 else if n == 0 then 0 else Choose(n - 1, k - 1) + Choose(n - 1, k)
  }

  lemma {:induction false} ChooseBeyond(n: nat, k: nat)
    requires n < k
    ensures Choose(n, k) == 0
  {
    if n > 0 {
      ChooseBeyond(n - 1, k - 1);
      ChooseBeyond(n - 1, k);
    }
  }

  lemma {:induction false} ChooseAll(n: nat)
    ensures Choose(n, n) == 1
  {
    if n > 0 {
      ChooseAll(n - 1);
      ChooseBeyond(n - 1, n);
    }
  }

  lemma Pascal(n: nat, k: nat)
    requires n > 0 && k > 0
    ensures Choose(n, k) == Choose(n - 1, k - 1) + Choose(n - 1, k)
    ensures Choose(n, 0) == 1
  {}

  /** k * C(n, k) == n * C(n-1, k-1) */
  lemma {:induction false} Absorb(n: nat, k: nat)
    requires n > 0 && k > 0
    ensures k * Choose(n, k) == n * Choose(n - 1, k - 1)
  {
    if n == 1 {
      if k > 1 {
        ChooseBeyond(1, k);
        ChooseBeyond(0, k - 1);
      } else {
        ChooseAll(1);
        ChooseAll(0);
      }
    } else if k == 1 {
      Absorb(n - 1, 1);
      ChooseOne(n);
    } else {
      Absorb(n - 1, k);
      Absorb(n - 1, k - 1);
      Pascal(n, k);
      Pascal(n - 1, k - 1);
      hide Choose;
      AbsorbAlgebra(n, k, Choose(n - 1, k), Choose(n - 1, k - 1), Choose(n - 2, k - 1), Choose(n - 2, k - 2));
    }
  }

  lemma {:induction false} ChooseOne(n: nat)
    ensures Choose(n, 1) == n && Choose(n, 0) == 1
  {
    if n > 0 { ChooseOne(n - 1); }
  }

  lemma AbsorbAlgebra(n: int, k: int, a: int, b: int, c: int, d: int)
    requires k * a == (n - 1) * c && (k - 1) * b == (n - 1) * d && b == d + c
    ensures k * (b + a) == n * b
  {
    assert (n - 1) * b == (n - 1) * d + (n - 1) * c;
  }

  /** A prime divides its inner binomial coefficients. */
  lemma PrimeDividesChoose(p: nat, k: nat)
    requires IsPrime(p) && 0 < k < p
    ensures Divides(p, Choose(p, k))
  {
    hide Choose;
    Absorb(p, k);
    DividesBy(p, k * Choose(p, k), Choose(p - 1, k - 1));
    EuclidsLemma(p, k, Choose(p, k));
    NotBelow(p, k);
  }

  /** The terms 0 .. k of the expansion of (1 + a)^n */
  function Expansion(n: nat, k: nat, a: int): int
  {
    Choose(n, k) * Pow(a, k) + if k == 0 then 0 else Expansion(n, k - 1, a)
  }

  lemma ExpansionZero(n: nat, a: int)
    ensures Expansion(n, 0, a) == 1
  {}

  lemma ExpansionNext(n: nat, k: nat, a: int)
    requires k > 0
    ensures Expansion(n, k, a) == Choose(n, k) * Pow(a, k) + Expansion(n, k - 1, a)
  {}

  lemma {:induction false} ExpansionPascal(n: nat, k: nat, a: int)
    requires k > 0
    ensures Expansion(n + 1, k, a) == Expansion(n, k, a) + a * Expansion(n, k - 1, a)
  {
    hide *;
    ExpansionNext(n + 1, k, a);
    ExpansionNext(n, k, a);
    Pascal(n + 1, k);
    PowStep(a, k);
    PascalAlgebra(a, Choose(n, k - 1), Choose(n, k), Pow(a, k - 1), Pow(a, k));
    if k == 1 {
      ExpansionZero(n + 1, a);
      ExpansionZero(n, a);
      ChooseZero(n, a);
    } else {
      ExpansionPascal(n, k - 1, a);
      ExpansionNext(n, k - 1, a);
      MulAddDist(a, Choose(n, k - 1) * Pow(a, k - 1), Expansion(n, k - 2, a));
    }
  }

  lemma ChooseZero(n: nat, a: int)
    ensures Choose(n, 0) == 1 && Pow(a, 0) == 1
  {}

  lemma PowStep(a: int, k: nat)
    requires k > 0
    ensures Pow(a, k) == a * Pow(a, k - 1)
  {}

  lemma PascalAlgebra(a: int, c: int, d: int, q: int, r: int)
    requires r == a * q
    ensures (c + d) * r == d * r + a * (c * q)
  {}

  /** The binomial theorem for 1 + a */
  lemma {:induction false} Binomial(n: nat, a: int)
    ensures Expansion(n, n, a) == Pow(1 + a, n)
  {
    if n == 0 {
      ExpansionZero(0, a);
    } else {
      Binomial(n - 1, a);
      ExpansionPascal(n - 1, n, a);
      ExpansionNext(n - 1, n, a);
      ChooseBeyond(n - 1, n);
      PowStep(1 + a, n);
      hide *;
      assert 0 * Pow(a, n) == 0;
      assert (1 + a) * Pow(1 + a, n - 1) == Pow(1 + a, n - 1) + a * Pow(1 + a, n - 1);
    }
  }

  /** Modulo a prime only the outer terms survive. */
  lemma {:induction false} InnerTermsVanish(p: nat, k: nat, a: int)
    requires IsPrime(p) && k < p
    ensures Cong(Expansion(p, k, a), 1, p)
  {
    if k == 0 {
      ExpansionZero(p, a);
      CongSelf(1, p);
    } else {
      InnerTermsVanish(p, k - 1, a);
      ExpansionNext(p, k, a);
      PrimeDividesChoose(p, k);
      var m :| Choose(p, k) == p * m;
      hide *;
      MulAssoc(p, m, Pow(a, k));
      CongFrom(Choose(p, k) * Pow(a, k), 0, m * Pow(a, k), p) by { VanishAlgebra(p, m, Pow(a, k)); }
      CongAdd(Choose(p, k) * Pow(a, k), 0, Expansion(p, k - 1, a), 1, p);
    }
  }

  lemma VanishAlgebra(p: int, m: int, q: int)
    ensures (p * m) * q == 0 + (m * q) * p
  {}

  /** Fermat's little theorem: a^p == a modulo p */
  lemma {:induction false} Fermat(p: nat, a: nat)
    requires IsPrime(p)
    ensures Cong(Pow(a, p), a, p)
  {
    if a == 0 {
      PowStep(0, p);
      CongSelf(0, p);
    } else {
      Fermat(p, a - 1);
      Binomial(p, a - 1);
      ExpansionNext(p, p, a - 1);
      InnerTermsVanish(p, p - 1, a - 1);
      ChooseAll(p);
      hide *;
      CongAdd(Pow(a - 1, p), a - 1, Expansion(p, p - 1, a - 1), 1, p);
    }
  }

  /** a^(p-1) == 1 modulo p for a below p */
  lemma FermatUnit(p: nat, a: nat)
    requires IsPrime(p) && 0 < a < p
    ensures Cong(Pow(a, p - 1), 1, p)
  {
    Fermat(p, a);
    PowStep(a, p);
    hide Pow, Cong;
    NotBelow(p, a);
    var q := Pow(a, p - 1);
    var k := CongTo(a * q, a, p);
    DividesBy(p, a * (q - 1), k) by { assert a * (q - 1) == a * q - a; }
    EuclidsLemma(p, a, q - 1);
    var m :| q - 1 == p * m;
    CongFrom(q, 1, m, p);
  }

  /** A prime modulus has only the square roots 1 and -1 of 1. */
  lemma SquareRoots(p: nat, y: int)
    requires IsPrime(p) && Cong(y * y, 1, p)
    ensures Cong(y, 1, p) || Cong(y, -1, p)
  {
    hide Cong;
    var k := CongTo(y * y, 1, p);
    DividesBy(p, (y - 1) * (y + 1), k) by { assert (y - 1) * (y + 1) == y * y - 1; }
    EuclidsLemma(p, y - 1, y + 1);
    if Divides(p, y - 1) {
      var m :| y - 1 == p * m;
      CongFrom(y, 1, m, p);
    } else {
      var m :| y + 1 == p * m;
      CongFrom(y, -1, m, p);
    }
  }

  // ----- Strong probable primes -----------------------------------------------------------

  /** The number a^(r * 2^j), the j-th one the Miller-Rabin round looks at */
  ghost function Tower(a: int, r: nat, j: nat): int
  {
    MulNonNeg(r, P2(j));
    Pow(a, r * P2(j))
  }

  lemma TowerStep(a: int, r: nat, j: nat)
    ensures Tower(a, r, j + 1) == Tower(a, r, j) * Tower(a, r, j)
  {
    assert P2(j + 1) == 2 * P2(j);
    hide P2, Pow;
    MulNonNeg(r, P2(j));
    assert r * P2(j + 1) == r * P2(j) + r * P2(j);
    PowAdd(a, r * P2(j), r * P2(j));
  }

  lemma TowerZero(a: int, r: nat)
    ensures Tower(a, r, 0) == Pow(a, r)
  {
    P2Zero();
  }

  /** n passes the Miller-Rabin test to the base a, where n - 1 = r * 2^s (Handbook of Applied
      Cryptography 4.20): a^r is 1, or some a^(r * 2^j) with j < s is -1. */
  ghost predicate StrongProbablePrime(a: int, n: int, r: nat, s: nat)
    requires n > 0
  {
    Cong(Pow(a, r), 1, n) || exists j: nat :: j < s && Cong(Tower(a, r, j), -1, n)
  }

  /** Going down from a^(r * 2^j) == 1 by square roots. */
  lemma {:induction false} DescendTower(p: nat, a: int, r: nat, s: nat, j: nat)
    requires IsPrime(p) && j <= s && Cong(Tower(a, r, j), 1, p)
    ensures StrongProbablePrime(a, p, r, s)
  {
    if j == 0 {
      TowerZero(a, r);
    } else {
      TowerStep(a, r, j - 1);
      SquareRoots(p, Tower(a, r, j - 1));
      if Cong(Tower(a, r, j - 1), 1, p) {
        DescendTower(p, a, r, s, j - 1);
      }
    }
  }

  /** Every prime passes, to every base. */
  lemma PrimePasses(p: nat, a: nat, r: nat, s: nat)
    requires IsPrime(p) && 0 < a < p && p - 1 == r * P2(s)
    ensures StrongProbablePrime(a, p, r, s)
  {
    FermatUnit(p, a);
    DescendTower(p, a, r, s, s);
  }
}
