/** Primality tests: trial division by the small primes and the Miller-Rabin rounds. */
module MillerRabins {
  import opened Arith
  import opened Limbs
  import opened Mpis
  import opened Shifts
  import opened AddSubs
  import opened Muls
  import opened DivMpis
  import opened Monts
  import opened ExpMods
  import opened Primes
  import opened SmallPrimes
  import Gcds
  import BinaryIO

  // ----- One round ------------------------------------------------------------------------

  /** What comparing the residue of y with n - 1 and with 1 says about y. */
  lemma ResidueTests(y: int, n: int)
    requires n > 2
    ensures y % n == n - 1 <==> Cong(y, -1, n)
    ensures y % n == 1 <==> Cong(y, 1, n)
    ensures 0 <= y % n < n
  {
    DivModUnique(-1, n, -1, n - 1);
    DivModSmall(1, n);
  }

  lemma OneIsNotMinusOne(y: int, n: int)
    requires n > 2 && Cong(y, 1, n)
    ensures !Cong(y, -1, n)
  {
    hide Cong;
    ResidueTests(y, n);
  }

  /** Once the tower reaches 1 it stays there. */
  lemma {:induction false} OnesStay(a: int, r: nat, j: nat, i: nat, n: int)
    requires n > 2 && Cong(Tower(a, r, j), 1, n) && j <= i
    ensures Cong(Tower(a, r, i), 1, n)
  {
    if j < i {
      OnesStay(a, r, j, i - 1, n);
      hide *;
      TowerStep(a, r, i - 1);
      CongMul(Tower(a, r, i - 1), 1, Tower(a, r, i - 1), 1, n);
    }
  }

  /** None of the first k numbers of the tower is -1. */
  ghost predicate NoMinusOne(a: int, r: nat, k: nat, n: int)
    requires n > 0
  {
    forall i: nat :: i < k ==> !Cong(Tower(a, r, i), -1, n)
  }

  lemma NoMinusOneNext(a: int, r: nat, k: nat, n: int)
    requires n > 0 && NoMinusOne(a, r, k, n) && !Cong(Tower(a, r, k), -1, n)
    ensures NoMinusOne(a, r, k + 1, n)
  {}

  lemma NoMinusOneStart(a: int, r: nat, n: int)
    requires n > 0
    ensures NoMinusOne(a, r, 0, n)
  {}

  /** The three ways the loop ends. */
  lemma FailsAtEnd(a: int, n: int, r: nat, s: nat)
    requires n > 2 && NoMinusOne(a, r, s, n) && !Cong(Pow(a, r), 1, n)
    ensures !StrongProbablePrime(a, n, r, s)
  {}

  lemma FailsAtOne(a: int, n: int, r: nat, s: nat, j: nat)
    requires n > 2 && NoMinusOne(a, r, j, n) && !Cong(Pow(a, r), 1, n) && Cong(Tower(a, r, j), 1, n)
    ensures !StrongProbablePrime(a, n, r, s)
  {
    forall i: nat | i < s ensures !Cong(Tower(a, r, i), -1, n) {
      if i >= j {
        OnesStay(a, r, j, i, n);
        OneIsNotMinusOne(Tower(a, r, i), n);
      }
    }
  }

  lemma PassesAt(a: int, n: int, r: nat, s: nat, j: nat)
    requires n > 2 && j < s && Cong(Tower(a, r, j), -1, n)
    ensures StrongProbablePrime(a, n, r, s)
  {}

  lemma PassesAtOnce(a: int, n: int, r: nat, s: nat)
    requires n > 2 && Cong(Pow(a, r), 1, n)
    ensures StrongProbablePrime(a, n, r, s)
  {}

  /** The squaring loop of a round, from A = a^r mod X not 1 or -1: the verdict */
  method SquareLoop(A: Mpi, X: Mpi, W: Mpi, s: nat, ghost a: int, ghost r: nat) returns (ok: bool)
    requires A != X && A != W && s > 0 && X.Value() > 2 && W.Value() == X.Value() - 1
    requires A.Value() == Tower(a, r, 0) % X.Value()
    requires !Cong(Tower(a, r, 0), -1, X.Value()) && !Cong(Pow(a, r), 1, X.Value())
    modifies A
    ensures ok <==> StrongProbablePrime(a, X.Value(), r, s)
  {
    hide *;
    AbsSmall();
    ghost var n := X.Value();
    var T := new Mpi();
    var j := 1;
    NoMinusOneStart(a, r, n);
    ResidueTests(Tower(a, r, 0), n);
    var cmp := CmpMpi(A, W);
    SignOf(A.Value() - W.Value());
    while j < s && cmp != 0
      invariant 1 <= j <= s
      invariant A.Value() == Tower(a, r, j - 1) % n && (cmp == 0 <==> A.Value() == W.Value())
      invariant NoMinusOne(a, r, j - 1, n)
    {
      ResidueTests(Tower(a, r, j - 1), n);
      NoMinusOneNext(a, r, j - 1, n);
      MulMpi(T, A, A);
      var ret := ModMpi(A, T, X);
      SquareResidue(a, r, j - 1, n);
      ResidueTests(Tower(a, r, j), n);
      var one := CmpInt(A, 1);
      SignOf(A.Value() - 1);
      if one == 0 {
        FailsAtOne(a, n, r, s, j);
        return false;
      }
      j := j + 1;
      cmp := CmpMpi(A, W);
      SignOf(A.Value() - W.Value());
    }
    ResidueTests(Tower(a, r, j - 1), n);
    var one := CmpInt(A, 1);
    SignOf(A.Value() - 1);
    ok := !(cmp != 0 || one == 0);
    if cmp == 0 {
      PassesAt(a, n, r, s, j - 1);
    } else {
      NoMinusOneNext(a, r, j - 1, n);
      FailsAtEnd(a, n, r, s);
    }
  }

  lemma AbsSmall()
    ensures Abs(1) == 1 && Abs(0) == 0
  {}

  lemma SquareResidue(a: int, r: nat, j: nat, n: int)
    requires n > 0
    ensures (Tower(a, r, j) % n) * (Tower(a, r, j) % n) % n == Tower(a, r, j + 1) % n
  {
    hide *;
    var y := Tower(a, r, j);
    TowerStep(a, r, j);
    CongMod(y, n);
    CongMul(y % n, y, y % n, y, n);
    CongIs((y % n) * (y % n), y * y, n);
  }

  /** Within the size limit the exponentiation of a round succeeds. */
  lemma RoundAccepted(r: nat, n: nat)
    requires n > 2 && n % 2 == 1 && r < n
    ensures Accepted(r, n) <==> BitLen(n) <= MAX_BITS
  {
    hide BitLen;
    BitLenMono(r, n);
  }

  lemma BitLenMono(x: nat, y: nat)
    requires x <= y
    ensures BitLen(x) <= BitLen(y)
  {
    BitLenProperty(x);
    BitLenProperty(y);
    hide BitLen, P2;
    if BitLen(x) > BitLen(y) {
      P2Mono(BitLen(y), BitLen(x) - 1);
    }
  }

  lemma PositiveSign(s: Sign, v: nat)
    requires Signed(s, v) > 0
    ensures s == 1
  {}

  lemma PlainResult(a: int, e: nat, n: nat)
    requires n > 0
    ensures ExpModResult(1, a, e, n) == Pow(a, e) % n
  {}

  /** One round for the base in A: X passes or fails, or X is too long for the exponentiation. */
  method Round(A: Mpi, X: Mpi, W: Mpi, R: Mpi, s: nat, RR: Mpi) returns (ret: Status)
    requires A != X && A != W && A != R && A != RR && RR != X && RR != W && RR != R && R != X
    requires X.Value() > 2 && X.Value() % 2 == 1 && s > 0
    requires W.Value() == X.Value() - 1 && 0 <= R.Value() < X.Value() && 0 < A.Value()
    requires Precomputed(RR, X)
    modifies A, RR
    ensures ret != BadInputData ==> Precomputed(RR, X)
    ensures ret == if BitLen(X.Value()) > MAX_BITS then BadInputData
                   else if StrongProbablePrime(old(A.Value()), X.Value(), R.Value(), s) then Ok else NotAcceptable
  {
    hide *;
    AbsSmall();
    ghost var a, r, n := A.Value(), R.Value(), X.Value();
    RoundAccepted(r, n);
    A.ValueIs();
    X.ValueIs();
    PositiveSign(A.s, Val(A.p));
    PositiveSign(X.s, Val(X.p));
    ret := ExpMod(A, A, R, X, RR);
    if ret != Ok { return; }
    PrecomputedIs(RR, X);
    PlainResult(a, r, n);
    TowerZero(a, r);
    ResidueTests(Tower(a, r, 0), n);
    var minusOne := CmpMpi(A, W);
    SignOf(A.Value() - W.Value());
    var one := CmpInt(A, 1);
    SignOf(A.Value() - 1);
    if minusOne == 0 || one == 0 {
      if one == 0 { PassesAtOnce(a, n, r, s); } else { PassesAt(a, n, r, s, 0); }
      return Ok;
    }
    var ok := SquareLoop(A, X, W, s, a, r);
    ret := if ok then Ok else NotAcceptable;
  }

  lemma PrecomputedIs(prec: Mpi, N: Mpi)
    requires N.Value() > 0 && prec.Value() == RadixSquare(|N.p|, N.Value())
    ensures Precomputed(prec, N)
  {}

  // ----- mpi_miller_rabin -----------------------------------------------------------------

  /** n - 1 = r * 2^s with r odd */
  ghost predicate Split(n: int, r: nat, s: nat)
  {
    s > 0 && r % 2 == 1 && 0 < r < n && n - 1 == r * P2(s)
  }

  lemma SplitIs(n: int, r: nat, s: nat)
    requires n > 2 && n % 2 == 1 && IsLsb(s, n - 1) && r == (n - 1) / P2(s)
    ensures Split(n, r, s)
  {
    var w := n - 1;
    if s == 0 { P2Zero(); }
    hide P2;
    assert w == P2(s) * r;
    if r >= n { MulLe(r, 1, P2(s)); }
  }

  lemma SplitParts(n: int, r: nat, s: nat)
    requires Split(n, r, s)
    ensures s > 0 && r % 2 == 1 && 0 < r < n && n - 1 == r * P2(s)
  {}

  ghost predicate BasesInRange(bases: seq<nat>, n: int)
  {
    forall i :: 0 <= i < |bases| ==> 1 < bases[i] < n - 1
  }

  /** n passes for all the bases before k. */
  ghost predicate AllPass(bases: seq<nat>, k: nat, n: int, r: nat, s: nat)
    requires n > 0
  {
    k <= |bases| && forall i :: 0 <= i < k ==> StrongProbablePrime(bases[i], n, r, s)
  }

  /** W = X - 1 = R * 2^s */
  method Decompose(X: Mpi) returns (W: Mpi, R: Mpi, s: nat)
    requires X.Value() > 2 && X.Value() % 2 == 1
    ensures fresh(W) && fresh(R) && W != R && W.Value() == X.Value() - 1
    ensures R.Value() >= 0 && Split(X.Value(), R.Value(), s)
  {
    hide *;
    ghost var n := X.Value();
    AbsSmall();
    W := new Mpi();
    SubInt(W, X, 1);
    W.ValueIs();
    PositiveSign(W.s, Val(W.p));
    s := W.Lsb();
    R := new Mpi();
    R.Copy(W);
    R.ValueIs();
    PositiveSign(R.s, Val(R.p));
    ShiftR(R, s);
    R.ValueIs();
    DivNonNeg(n - 1, P2(s));
    SplitIs(n, (n - 1) / P2(s), s);
  }

  /** n passes for all the bases. */
  ghost predicate Passes(bases: seq<nat>, n: int)
    requires n > 0
  {
    exists r: nat, s: nat :: Split(n, r, s) && AllPass(bases, |bases|, n, r, s)
  }

  lemma SplitLsb(n: int, r: nat, s: nat)
    requires Split(n, r, s)
    ensures n > 1 && IsLsb(s, n - 1) && r == (n - 1) / P2(s)
  {
    DivModUnique(n - 1, P2(s), r, 0);
    hide P2;
  }

  /** There is only one way to write n - 1 as an odd number times a power of two. */
  lemma SplitUnique(n: int, r: nat, s: nat, r': nat, s': nat)
    requires Split(n, r, s) && Split(n, r', s')
    ensures r == r' && s == s'
  {
    hide *;
    SplitLsb(n, r, s);
    SplitLsb(n, r', s');
    Gcds.LsbUnique(s, s', n - 1);
  }

  lemma PassesIs(bases: seq<nat>, n: int, r: nat, s: nat)
    requires n > 0 && Split(n, r, s)
    ensures Passes(bases, n) <==> AllPass(bases, |bases|, n, r, s)
  {
    hide Split, AllPass;
    if Passes(bases, n) {
      var r', s' :| Split(n, r', s') && AllPass(bases, |bases|, n, r', s');
      SplitUnique(n, r, s, r', s');
    }
  }

  // ----- Drawing the bases ----------------------------------------------------------------

  /** A draw with more than k bits keeps the low k - 1 of them. */
  ghost function Masked(v: nat, k: nat): nat
    requires k > 0
  {
    if BitLen(v) > k then v % P2(k - 1) else v
  }

  /** The base a draw gives */
  ghost function Candidate(drawn: seq<Byte>, n: nat): nat
    requires n > 1
  {
    BitLenBounds(n - 1);
    Masked(BinaryIO.Big(drawn), BitLen(n - 1))
  }

  /** A shortened draw is never too large. */
  lemma MaskedBelow(v: nat, n: nat)
    requires n > 1
    ensures BitLen(n - 1) > 0 && (BitLen(v) > BitLen(n - 1) ==> Masked(v, BitLen(n - 1)) < P2(BitLen(n - 1) - 1) < n)
  {
    BitLenBounds(n - 1);
    var d := P2(BitLen(n - 1) - 1);
    hide BitLen, P2;
    assert v % d < d;
  }

  /** and a draw that is short enough is taken as it is; a shortened one keeps its low bits. */
  lemma MaskedBits(v: nat, k: nat, i: nat)
    requires k > 0
    ensures HasBit(Masked(v, k), i) <==> HasBit(v, i) && (BitLen(v) > k ==> i < k - 1)
  {
    if BitLen(v) > k { LowBits(v, k - 1, i); }
  }

  lemma {:induction false} LowBits(v: nat, k: nat, i: nat)
    ensures HasBit(v % P2(k), i) <==> HasBit(v, i) && i < k
  {
    if k == 0 {
      P2Zero();
      NoBits(i);
    } else {
      LowHalf(v, P2(k - 1));
      if i > 0 { LowBits(v / 2, k - 1, i - 1); }
    }
  }

  lemma LowHalf(v: nat, d: nat)
    requires d > 0
    ensures v % (2 * d) % 2 == v % 2 && v % (2 * d) / 2 == v / 2 % d
  {
    var q, h, l := v / 2 / d, v / 2 % d, v % 2;
    assert v / 2 == d * q + h;
    DivModLow(v, 2 * d, q, 2 * h + l);
  }

  ghost predicate Usable(drawn: seq<Byte>, n: nat)
    requires n > 1
  {
    1 < Candidate(drawn, n) < n - 1
  }

  /** How a round's draws end: with a base, or with the 32nd draw, or with an error of the generator, which is
      where the sequence of draws stops. */
  datatype Sampling = Base(a: nat, next: nat) | GivenUp | NoDraw

  ghost function Sampled(draws: seq<seq<Byte>>, at: nat, count: nat, n: nat): Sampling
    requires at <= |draws| && n > 1
    decreases |draws| - at
  {
    if at == |draws| then NoDraw
    else if count > 30 then GivenUp
    else if Usable(draws[at], n) then Base(Candidate(draws[at], n), at + 1)
    else Sampled(draws, at + 1, count + 1, n)
  }

  /** 31 draws in a row from at on are useless, and there is one more. */
  ghost predicate GivesUp(draws: seq<seq<Byte>>, at: nat, n: nat)
  {
    n > 1 && at + 31 < |draws| && forall j :: at <= j < at + 31 ==> !Usable(draws[j], n)
  }

  /** A round gives up exactly there, and otherwise takes the first useful draw. */
  lemma {:induction false} SampledIff(draws: seq<seq<Byte>>, at: nat, count: nat, n: nat)
    requires at <= |draws| && n > 1 && count <= 31
    ensures var end := at + 31 - count;
      var r := Sampled(draws, at, count, n);
      && (r.GivenUp? <==> end < |draws| && forall j :: at <= j < end ==> !Usable(draws[j], n))
      && (r.Base? ==>
          && at < r.next <= |draws| && r.next <= end && 1 < r.a < n - 1
          && r.a == Candidate(draws[r.next - 1], n)
          && forall j :: at <= j < r.next - 1 ==> !Usable(draws[j], n))
      && (r.NoDraw? ==> |draws| <= end && forall j :: at <= j < |draws| ==> !Usable(draws[j], n))
    decreases |draws| - at
  {
    if at < |draws| && count <= 30 && !Usable(draws[at], n) {
      SampledIff(draws, at + 1, count + 1, n);
    }
  }

  lemma SampledIs(draws: seq<seq<Byte>>, at: nat, count: nat, n: nat)
    requires at <= |draws| && n > 1
    ensures at == |draws| ==> Sampled(draws, at, count, n) == NoDraw
    ensures at < |draws| && count > 30 ==> Sampled(draws, at, count, n) == GivenUp
    ensures at < |draws| && count <= 30 && 1 < Candidate(draws[at], n) < n - 1 ==>
      Sampled(draws, at, count, n) == Base(Candidate(draws[at], n), at + 1)
    ensures at < |draws| && count <= 30 && !(1 < Candidate(draws[at], n) < n - 1) ==>
      Sampled(draws, at, count, n) == Sampled(draws, at + 1, count + 1, n)
  {}

  /** The bases of all rounds, whatever the test says of them, and how the last round ends. */
  datatype Supply = Supply(bases: seq<nat>, last: Status)

  ghost function Supplied(draws: seq<seq<Byte>>, at: nat, rounds: nat, n: nat): Supply
    requires at <= |draws| && n > 1
    decreases rounds
  {
    SampledIff(draws, at, 0, n);
    if rounds == 0 then Supply([], Ok)
    else match Sampled(draws, at, 0, n)
      case NoDraw => Supply([], RngFailed)
      case GivenUp => Supply([], NotAcceptable)
      case Base(a, next) =>
        var rest := Supplied(draws, next, rounds - 1, n);
        Supply([a] + rest.bases, rest.last)
  }

  lemma SuppliedStep(draws: seq<seq<Byte>>, at: nat, rounds: nat, n: nat)
    requires at <= |draws| && n > 1 && rounds > 0
    ensures match Sampled(draws, at, 0, n)
      case NoDraw => Supplied(draws, at, rounds, n) == Supply([], RngFailed)
      case GivenUp => Supplied(draws, at, rounds, n) == Supply([], NotAcceptable)
      case Base(a, next) =>
        && next <= |draws|
        && Supplied(draws, at, rounds, n).bases == [a] + Supplied(draws, next, rounds - 1, n).bases
        && Supplied(draws, at, rounds, n).last == Supplied(draws, next, rounds - 1, n).last
  {
    SampledIff(draws, at, 0, n);
  }

  lemma SuppliedNone(draws: seq<seq<Byte>>, at: nat, n: nat)
    requires at <= |draws| && n > 1
    ensures Supplied(draws, at, 0, n) == Supply([], Ok)
  {}

  /** All bases are in range, there is one for every round unless a round ended otherwise, and a round that gave up
      had 31 useless draws. */
  lemma {:induction false} SuppliedMeaning(draws: seq<seq<Byte>>, at: nat, rounds: nat, n: nat)
    requires at <= |draws| && n > 1
    ensures var all := Supplied(draws, at, rounds, n);
      && BasesInRange(all.bases, n) && |all.bases| <= rounds
      && (all.last == Ok <==> |all.bases| == rounds)
      && all.last in {Ok, NotAcceptable, RngFailed}
      && (all.last == NotAcceptable ==> exists k :: GivesUp(draws, k, n))
    decreases rounds
  {
    if rounds > 0 {
      SampledIff(draws, at, 0, n);
      var r := Sampled(draws, at, 0, n);
      if r.Base? {
        SuppliedMeaning(draws, r.next, rounds - 1, n);
      } else if r.GivenUp? {
        assert GivesUp(draws, at, n);
      }
    }
  }

  /** What the rounds say of n, given their bases */
  ghost function Outcome(all: Supply, n: nat): Status
    requires n > 0
  {
    if |all.bases| > 0 && BitLen(n) > MAX_BITS then BadInputData
    else if Passes(all.bases, n) then all.last
    else NotAcceptable
  }

  lemma OutcomeIs(all: Supply, n: nat, r: nat, s: nat)
    requires n > 0 && Split(n, r, s)
    ensures Outcome(all, n) ==
      if |all.bases| > 0 && BitLen(n) > MAX_BITS then BadInputData
      else if AllPass(all.bases, |all.bases|, n, r, s) then all.last else NotAcceptable
  {
    PassesIs(all.bases, n, r, s);
    hide Passes, AllPass, Split, BitLen;
  }

  /** Every draw has the size of X; one that has to be shortened has its top bit in the top limb of X - 1, for the
      shift of the mask is undefined otherwise. */
  ghost predicate DrawsFit(draws: seq<seq<Byte>>, limbs: nat, n: nat)
    requires n > 0
  {
    forall i :: 0 <= i < |draws| ==>
      && |draws[i]| == limbs * ciL
      && (BitLen(BinaryIO.Big(draws[i])) > BitLen(n - 1) ==> biL * (limbs - 1) < BitLen(n - 1))
  }

  lemma DrawFits(draws: seq<seq<Byte>>, i: nat, limbs: nat, n: nat)
    requires n > 0 && DrawsFit(draws, limbs, n) && i < |draws|
    ensures |draws[i]| == limbs * ciL
    ensures BitLen(BinaryIO.Big(draws[i])) > BitLen(n - 1) ==> biL * (limbs - 1) < BitLen(n - 1)
  {}

  /** Masking the top limb keeps the low bits of the number. */
  lemma MaskTop(p: seq<Limb>, t: nat)
    requires |p| > 0 && t < biL
    ensures Shl(1, t) >= 1
    ensures And(p[|p| - 1], Shl(1, t) - 1) < BASE
    ensures Val(p[|p| - 1 := And(p[|p| - 1], Shl(1, t) - 1)]) == Val(p) % P2(biL * (|p| - 1) + t)
  {
    hide *;
    var k, x, d := |p| - 1, p[|p| - 1], P2(t);
    var lo, w, h, l := Val(p[..k]), Weight(k), x / d, x % d;
    ShlOne(t);
    AndMask(x, t);
    DivBounds(x, d);
    assert p[..k + 1] == p;
    ValSnoc(p, k);
    ValBound(p[..k]);
    ValUpdate(p, k, l);
    WeightIsP2(k);
    P2Add(biL * k, t);
    TwoDigits(w, lo, d, l, h);
    DivModLow(Val(p), w * d, h, lo + w * l);
  }

  lemma ShlOne(t: nat)
    requires t < biL
    ensures Shl(1, t) == P2(t) >= 1
  {
    hide *;
    ShiftDefinitions(1, t);
    BaseSplit(0);
    P2Zero();
    P2Mono(0, t);
    P2Mono(t + 1, biL);
    P2Succ(t);
    DivModLow(P2(t), BASE, 0, P2(t));
  }

  /** One draw: filled at random, and shortened when it has more bits than W */
  method DrawBase(A: Mpi, X: Mpi, W: Mpi, drawn: seq<Byte>, ghost n: nat)
    requires A != X && A != W && n > 1 && W.Value() == n - 1 && Val(W.p) == n - 1
    requires |drawn| == |X.p| * ciL
    requires BitLen(BinaryIO.Big(drawn)) > BitLen(n - 1) ==> biL * (|X.p| - 1) < BitLen(n - 1)
    modifies A
    ensures A.Value() == Candidate(drawn, n)
  {
    hide *;
    CandidateIs(drawn, n);
    LimbCount(|X.p|);
    BinaryIO.FillRandom(A, drawn);
    var j := A.Bitlen();
    var k := W.Bitlen();
    A.ValueIs();
    if j > k {
      LongDraw(A.p, k);
      var t := k - (|A.p| - 1) * biL - 1;
      MaskTop(A.p, t);
      A.p := A.p[|A.p| - 1 := And(A.p[|A.p| - 1], Shl(1, t) - 1)];
      A.ValueIs();
    }
  }

  lemma CandidateIs(drawn: seq<Byte>, n: nat)
    requires n > 1
    ensures BitLen(n - 1) > 0
    ensures var v, k := BinaryIO.Big(drawn), BitLen(n - 1);
      Candidate(drawn, n) == if BitLen(v) > k then v % P2(k - 1) else v
  {
    BitLenBounds(n - 1);
  }

  lemma LimbCount(limbs: nat)
    ensures BinaryIO.CharsToLimbs(limbs * ciL) == limbs
  {
    LimbBytes();
    var c := BinaryIO.CharsToLimbs(limbs * ciL);
    if c < limbs { MulLe(ciL, c + 1, limbs); }
    if c > limbs { MulLe(ciL, limbs + 1, c); }
  }

  /** The mask of a draw that is too long is within the top limb. */
  lemma LongDraw(p: seq<Limb>, k: nat)
    requires BitLen(Val(p)) > k && biL * (|p| - 1) < k
    ensures |p| > 0 && 0 <= k - (|p| - 1) * biL - 1 < biL
  {
    hide *;
    ValBound(p);
    WeightIsP2(|p|);
    BitLenLe(Val(p), biL * |p|);
  }

  lemma BitLenLe(v: nat, m: nat)
    requires v < P2(m)
    ensures BitLen(v) <= m
  {
    if v > 0 {
      BitLenBounds(v);
      hide *;
      if BitLen(v) > m { P2Mono(m, BitLen(v) - 1); }
    } else {
      BitLenProperty(v);
    }
  }

  /** The sampling loop of a round */
  method Sample(A: Mpi, X: Mpi, W: Mpi, draws: seq<seq<Byte>>, at: nat) returns (ret: Status, next: nat)
    requires A != X && A != W && X.Value() > 3 && W.Value() == X.Value() - 1
    requires DrawsFit(draws, |X.p|, X.Value()) && at <= |draws|
    modifies A
    ensures at <= next <= |draws|
    ensures match Sampled(draws, at, 0, X.Value())
      case NoDraw => ret == RngFailed
      case GivenUp => ret == NotAcceptable
      case Base(a, k) => ret == Ok && next == k && A.Value() == a && 1 < a < X.Value() - 1
  {
    hide *;
    ghost var n: nat := X.Value();
    W.ValueIs();
    PositiveSign(W.s, Val(W.p));
    AbsSmall();
    next := at;
    var count, again := 0, true;
    while again
      invariant at <= next <= |draws|
      invariant if again then Sampled(draws, next, count, n) == Sampled(draws, at, 0, n)
                else 1 < A.Value() < n - 1 && Sampled(draws, at, 0, n) == Base(A.Value(), next)
      decreases again, |draws| - next
    {
      SampledIs(draws, next, count, n);
      if next == |draws| { return RngFailed, next; }
      DrawFits(draws, next, |X.p|, n);
      DrawBase(A, X, W, draws[next], n);
      next := next + 1;
      if count > 30 { return NotAcceptable, next; }
      count := count + 1;
      var high := CmpMpi(A, W);
      SignOf(A.Value() - W.Value());
      var low := CmpInt(A, 1);
      SignOf(A.Value() - 1);
      again := high >= 0 || low <= 0;
    }
    return Ok, next;
  }

  /** mpi_miller_rabin: every base must pass, and then the rounds must not have run out of bases. */
  method MillerRabin(X: Mpi, rounds: nat, draws: seq<seq<Byte>>) returns (ret: Status)
    requires X.Value() > 3 && X.Value() % 2 == 1 && DrawsFit(draws, |X.p|, X.Value())
    ensures ret == Outcome(Supplied(draws, 0, rounds, X.Value()), X.Value())
    ensures ret == NotAcceptable && IsPrime(X.Value()) ==> exists at :: GivesUp(draws, at, X.Value())
  {
    hide *;
    var W, R, k := Decompose(X);
    ghost var n: nat, r, s := X.Value(), R.Value(), k;
    ghost var all := Supplied(draws, 0, rounds, n);
    SplitParts(n, r, s);
    OutcomeIs(all, n, r, s);
    if IsPrime(n) { PrimeRejected(draws, rounds, n, r, s); }
    var RR := new Mpi();
    var A := new Mpi();
    NothingYet(RR, X);
    ghost var done: seq<nat> := [];
    NonePassedYet(done, n, r, s);
    var i, at := 0, 0;
    assert all.bases == done + Supplied(draws, at, rounds - i, n).bases;
    while i < rounds
      invariant 0 <= i <= rounds && 0 <= at <= |draws| && Precomputed(RR, X)
      invariant |done| > 0 ==> BitLen(n) <= MAX_BITS
      invariant W.Value() == X.Value() - 1 && R.Value() == r
      invariant AllPass(done, |done|, n, r, s)
      invariant all.bases == done + Supplied(draws, at, rounds - i, n).bases
      invariant all.last == Supplied(draws, at, rounds - i, n).last
    {
      SuppliedStep(draws, at, rounds - i, n);
      ret, at := Sample(A, X, W, draws, at);
      if ret != Ok {
        assert all.bases == done;
        return;
      }
      ghost var a: nat := A.Value();
      ghost var rest := Supplied(draws, at, rounds - i - 1, n);
      assert all.bases == (done + [a]) + rest.bases;
      ret := Round(A, X, W, R, k, RR);
      if ret != Ok {
        if ret != BadInputData { OneFails(all.bases, |done|, n, r, s); }
        return;
      }
      OneMorePasses(done, a, n, r, s);
      done := done + [a];
      i := i + 1;
    }
    SuppliedNone(draws, at, n);
    assert all.bases == done;
    return Ok;
  }

  lemma NothingYet(RR: Mpi, X: Mpi)
    requires RR.p == []
    ensures Precomputed(RR, X)
  {}

  lemma NonePassedYet(bases: seq<nat>, n: int, r: nat, s: nat)
    requires n > 0 && bases == []
    ensures AllPass(bases, |bases|, n, r, s)
  {}

  lemma OneFails(bases: seq<nat>, i: nat, n: int, r: nat, s: nat)
    requires n > 0 && i < |bases| && !StrongProbablePrime(bases[i], n, r, s)
    ensures !AllPass(bases, |bases|, n, r, s)
  {}

  lemma OneMorePasses(bases: seq<nat>, a: nat, n: int, r: nat, s: nat)
    requires n > 0 && AllPass(bases, |bases|, n, r, s) && StrongProbablePrime(a, n, r, s)
    ensures AllPass(bases + [a], |bases + [a]|, n, r, s)
  {}

  /** A prime passes every round, whatever the bases. */
  lemma PrimePassesAll(bases: seq<nat>, n: int, r: nat, s: nat)
    requires IsPrime(n) && Split(n, r, s) && BasesInRange(bases, n)
    ensures AllPass(bases, |bases|, n, r, s)
  {
    forall i | 0 <= i < |bases| ensures StrongProbablePrime(bases[i], n, r, s) {
      PrimePasses(n, bases[i], r, s);
    }
  }

  /** So a prime is accepted exactly when every round found a base, and rejected exactly when one gave up. */
  lemma PrimeOutcome(draws: seq<seq<Byte>>, rounds: nat, n: nat)
    requires IsPrime(n) && n > 3 && n % 2 == 1 && BitLen(n) <= MAX_BITS
    ensures var all := Supplied(draws, 0, rounds, n);
      && (Outcome(all, n) == Ok <==> |all.bases| == rounds)
      && (Outcome(all, n) == NotAcceptable <==> all.last == NotAcceptable)
  {
    var all := Supplied(draws, 0, rounds, n);
    SuppliedMeaning(draws, 0, rounds, n);
    var s := Gcds.LsbExists(n - 1);
    DivNonNeg(n - 1, P2(s));
    SplitIs(n, (n - 1) / P2(s), s);
    hide *;
    PrimePassesAll(all.bases, n, (n - 1) / P2(s), s);
    OutcomeIs(all, n, (n - 1) / P2(s), s);
  }

  lemma PrimeRejected(draws: seq<seq<Byte>>, rounds: nat, n: nat, r: nat, s: nat)
    requires IsPrime(n) && n > 3 && Split(n, r, s)
    ensures Outcome(Supplied(draws, 0, rounds, n), n) == NotAcceptable ==> exists at :: GivesUp(draws, at, n)
  {
    hide *;
    var all := Supplied(draws, 0, rounds, n);
    SuppliedMeaning(draws, 0, rounds, n);
    PrimePassesAll(all.bases, n, r, s);
    OutcomeIs(all, n, r, s);
  }

  // ----- mpi_check_small_factors ----------------------------------------------------------

  /** What the small divisors say: the source returns 0, 1 and an error code for these. */
  datatype Verdict = PossiblePrime | CertainPrime | Composite

  /** mpi_check_small_factors: exact up to 997, and above it just the search for a small factor */
  method CheckSmallFactors(X: Mpi) returns (v: Verdict)
    requires X.s == 1 && X.Value() > 2
    ensures X.Value() <= 997 ==> v == if IsPrime(X.Value()) then CertainPrime else Composite
    ensures X.Value() > 997 ==> v == if HasSmallFactor(X.Value()) then Composite else PossiblePrime
    ensures v == Composite ==> !IsPrime(X.Value())
    ensures v == PossiblePrime ==> X.Value() % 2 == 1
  {
    hide *;
    hide SMALL_PRIME;
    ghost var x := X.Value();
    X.ValueIs();
    ModulusLimbs(X.s, X.p);
    TableEnds();
    RadixIsLarge();
    if And(X.p[0], 1) == 0 {
      DividesMod(2, x);
      ProperFactor(2, x);
      EvenFactor(x);
      return Composite;
    }
    var i := 0;
    while SMALL_PRIME[i] > 0
      invariant 0 <= i < |SMALL_PRIME| && (i > 0 ==> x > SMALL_PRIME[i - 1])
      invariant forall j :: 0 <= j < i ==> !Divides(SMALL_PRIME[j], x)
      decreases |SMALL_PRIME| - i
    {
      TableRange(i);
      SmallAbs(SMALL_PRIME[i]);
      var cmp := CmpInt(X, SMALL_PRIME[i]);
      SignOf(X.Value() - SMALL_PRIME[i]);
      if cmp <= 0 {
        TrialDivisionDecides(x, i);
        return CertainPrime;
      }
      SmallFoldable(SMALL_PRIME[i]);
      var ret, r := ModInt(X, SMALL_PRIME[i]);
      DividesMod(SMALL_PRIME[i], x);
      if r == 0 {
        ProperFactor(SMALL_PRIME[i], x);
        SmallFactorAt(x, i);
        return Composite;
      }
      i := i + 1;
    }
    TableRange(i);
    NoSmallFactor(x);
    return PossiblePrime;
  }

  lemma RadixIsLarge()
    ensures 1000 < RADIX < BASE
  {
    RadixBelow();
  }

  lemma SmallAbs(z: int)
    requires 0 <= z
    ensures Abs(z) == z
  {}

  // ----- mbedtls_mpi_is_prime_ext ---------------------------------------------------------

  /** mbedtls_mpi_is_prime_ext on |X|: exact up to 997; above it |X| must have no small factor and pass every round,
      and no prime is called composite unless a round finds no base. */
  method IsPrimeExt(X: Mpi, rounds: nat, draws: seq<seq<Byte>>) returns (ret: Status)
    requires X.Mag() > 997 ==> DrawsFit(draws, |X.p|, X.Mag())
    ensures X.Mag() <= 997 ==> ret == if IsPrime(X.Mag()) then Ok else NotAcceptable
    ensures X.Mag() > 997 && HasSmallFactor(X.Mag()) ==> ret == NotAcceptable
    ensures X.Mag() > 997 && !HasSmallFactor(X.Mag()) ==>
      ret == Outcome(Supplied(draws, 0, rounds, X.Mag()), X.Mag())
    ensures ret == NotAcceptable && IsPrime(X.Mag()) ==>
      X.Mag() > 997 && exists at :: GivesUp(draws, at, X.Mag())
  {
    hide *;
    ghost var x := X.Mag();
    var XX := new Mpi();
    XX.s, XX.p := 1, X.p;
    XX.ValueIs();
    X.MagIs();
    RadixIsLarge();
    SmallAbs(0);
    SmallAbs(1);
    SmallAbs(2);
    SmallCases(x);
    var zero := CmpInt(XX, 0);
    SignOf(XX.Value() - 0);
    var one := CmpInt(XX, 1);
    SignOf(XX.Value() - 1);
    if zero == 0 || one == 0 { return NotAcceptable; }
    var two := CmpInt(XX, 2);
    SignOf(XX.Value() - 2);
    if two == 0 { return Ok; }
    var v := CheckSmallFactors(XX);
    if v == CertainPrime { return Ok; }
    if v == Composite { return NotAcceptable; }
    ret := MillerRabin(XX, rounds, draws);
  }

  lemma SmallCases(x: nat)
    ensures x <= 1 ==> !IsPrime(x)
    ensures x == 2 ==> IsPrime(x)
  {
    TwoIsPrime();
  }
}
