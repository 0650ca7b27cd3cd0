/** The mbedtls_mpi object and the operations that only inspect or replace it. */
module Mpis {
  import opened Arith
  import opened Limbs

  /** Return codes of the multi-precision functions. */
  datatype Status =
    | Ok
    | BadInputData
    | InvalidCharacter
    | BufferTooSmall
    | NegativeValue
    | DivisionByZero
    | NotAcceptable
    | RngFailed

  type Sign = x: int | x == 1 || x == -1 witness 1

  function Zeros(n: nat): (z: seq<Limb>)
    ensures |z| == n && AllZero(z)
  {
    seq(n, _ => 0)
  }

  lemma ZerosCons(n: nat)
    ensures Zeros(n + 1) == [0] + Zeros(n)
  {}

  ghost function Signed(s: Sign, v: int): int
  {
    if s == 1 then v else -v
  }

  // ----- Significant limbs ----------------------------------------------------------------

  /** The number of limbs below the leading zeros. */
  ghost function Sig(p: seq<Limb>): (k: nat)
    ensures k <= |p|
  {
    if |p| == 0 then 0
    else if p[|p| - 1] != 0 then |p|
    else Sig(p[..|p| - 1])
  }

  lemma {:induction false} SigCharacterised(p: seq<Limb>, k: nat)
    requires k <= |p| && AllZero(p[k..]) && (k > 0 ==> p[k - 1] != 0)
    ensures Sig(p) == k
    decreases |p|
  {
    if k < |p| {
      var q := p[..|p| - 1];
      assert p[k..][|p| - 1 - k] == 0;
      assert q[k..] == p[k..][..|p| - 1 - k];
      SigCharacterised(q, k);
    }
  }

  lemma {:induction false} SigProperties(p: seq<Limb>)
    ensures AllZero(p[Sig(p)..])
    ensures Sig(p) > 0 ==> p[Sig(p) - 1] != 0
    ensures Val(p) == Val(p[..Sig(p)]) < Weight(Sig(p))
    ensures Sig(p) > 0 ==> Val(p) >= Weight(Sig(p) - 1)
    ensures Val(p) == 0 <==> Sig(p) == 0
  {
    var k := Sig(p);
    SigSplit(p);
    ValTrim(p, k);
    if k > 0 {
      ValTop(p, k - 1);
      MulLe(Weight(k - 1), 1, p[k - 1]);
    }
  }

  lemma SigValue(p: seq<Limb>)
    ensures Val(p) == Val(p[..Sig(p)])
    ensures Val(p) == 0 <==> Sig(p) == 0
  {
    SigProperties(p);
  }

  lemma {:induction false} SigSplit(p: seq<Limb>)
    ensures AllZero(p[Sig(p)..])
    ensures Sig(p) > 0 ==> p[Sig(p) - 1] != 0
  {
    if |p| > 0 && p[|p| - 1] == 0 {
      var q := p[..|p| - 1];
      SigSplit(q);
      assert p[Sig(p)..] == q[Sig(q)..] + [0];
    }
  }

  /** The scan from the top limb down that opens most functions of bignum.c. */
  method SignificantLimbs(p: seq<Limb>) returns (i: nat)
    ensures i == Sig(p)
  {
    i := |p|;
    while i > 0 && p[i - 1] == 0
      invariant i <= |p| && AllZero(p[i..])
    {
      assert p[i - 1..] == [p[i - 1]] + p[i..];
      i := i - 1;
    }
    SigCharacterised(p, i);
  }

  // ----- The object -----------------------------------------------------------------------

  class Mpi {
    /** sign: -1 or 1 */
    var s: Sign
    /** limbs, least significant first; the field n of the C struct is |p| */
    var p: seq<Limb>

    ghost function Mag(): nat
      reads this
    {
      Val(p)
    }

    ghost function Value(): int
      reads this
    {
      Signed(s, Val(p))
    }

    lemma ValueIs()
      ensures s == 1 ==> Value() == Val(p)
      ensures Value() == Signed(s, Val(p))
    {}

    lemma MagIs()
      ensures Mag() == Val(p)
    {}

    constructor ()
      ensures s == 1 && p == [] && Value() == 0
    {
      s, p := 1, [];
    }

    method Free()
      modifies this
      ensures s == 1 && p == [] && Value() == 0
    {
      s, p := 1, [];
    }

    /** Enlarge to at least n limbs; the new high limbs are zero. */
    method Grow(n: nat)
      modifies this`p
      ensures p == old(p) + Zeros(if |old(p)| < n then n - |old(p)| else 0)
      ensures Val(p) == old(Val(p)) && Value() == old(Value())
    {
      ghost var z := Zeros(if |p| < n then n - |p| else 0);
      ValPad(p, z);
      if |p| < n {
        p := p + Zeros(n - |p|);
      } else {
        assert p + z == p;
      }
    }

    /** this := Y. The limb count never shrinks. */
    method Copy(Y: Mpi)
      modifies this
      ensures Value() == old(Y.Value()) && Val(p) == old(Val(Y.p))
      ensures this == Y ==> s == old(s) && p == old(p)
      ensures this != Y && |Y.p| > 0 ==> s == Y.s
      ensures this != Y && |Y.p| == 0 && |old(p)| > 0 ==> s == 1
      ensures this != Y && |Y.p| == 0 ==> |p| == |old(p)|
      ensures this != Y && |Y.p| > 0 ==>
        var k := if Sig(Y.p) == 0 then 1 else Sig(Y.p);
        |p| == if |old(p)| < k then k else |old(p)|
    {
      if this == Y { return; }
      if |Y.p| == 0 {
        if |p| != 0 {
          s := 1;
          p := Zeros(|p|);
          ValZero(p);
        }
        return;
      }
      var i := |Y.p| - 1;
      while i > 0 && Y.p[i] == 0
        invariant 0 <= i < |Y.p| && AllZero(Y.p[i + 1..])
      {
        assert Y.p[i..] == [Y.p[i]] + Y.p[i + 1..];
        i := i - 1;
      }
      i := i + 1;
      if Y.p[i - 1] == 0 {
        assert AllZero(Y.p[0..]);
        SigCharacterised(Y.p, 0);
      } else {
        SigCharacterised(Y.p, i);
      }
      ValTrim(Y.p, i);
      s := Y.s;
      var rest := if |p| < i then 0 else |p| - i;
      p := Y.p[..i] + Zeros(rest);
      ValPad(Y.p[..i], Zeros(rest));
    }

    /** this := z, for a z that fits in one limb */
    method LSet(z: int)
      requires Abs(z) < BASE
      modifies this
      ensures Value() == z && Val(p) == Abs(z)
      ensures s == if z < 0 then -1 else 1
      ensures |p| == if |old(p)| < 1 then 1 else |old(p)|
      ensures forall i :: 1 <= i < |p| ==> p[i] == 0
    {
      Grow(1);
      p := Zeros(|p|);
      ghost var q := p;
      var v: Limb := if z < 0 then -z else z;
      p := p[0 := v];
      s := if z < 0 then -1 else 1;
      ValZero(q);
      ValUpdate(q, 0, v);
      assert Weight(0) == 1;
    }

    method GetBit(pos: nat) returns (r: nat)
      ensures r == Val(p) / P2(pos) % 2
    {
      hide *;
      if biL * |p| <= pos {
        r := 0;
        BitBeyond(p, pos);
      } else {
        var i, j := pos / biL, pos % biL;
        assert pos == biL * i + j;
        r := And(Shr(p[i], j), 1);
        AndOne(Shr(p[i], j));
        BitOf(p, i, j);
      }
    }

    /** The number of trailing zero bits, 0 for the value 0. */
    method Lsb() returns (count: nat)
      ensures Val(p) == 0 ==> count == 0
      ensures Val(p) != 0 ==> IsLsb(count, Val(p))
    {
      var i := 0;
      count := 0;
      while i < |p|
        invariant i <= |p| && count == biL * i && AllZero(p[..i])
      {
        var j := 0;
        while j < biL
          invariant j <= biL && count == biL * i + j
          invariant LowBitsClear(p[i], j)
        {
          if And(Shr(p[i], j), 1) != 0 {
            AndOne(Shr(p[i], j));
            LsbAt(p, i, j);
            return;
          }
          AndOne(Shr(p[i], j));
          LowBitsStep(p[i], j);
          j, count := j + 1, count + 1;
        }
        LowBitsAll(p[i]);
        assert p[..i + 1] == p[..i] + [p[i]];
        i := i + 1;
      }
      assert p[..i] == p;
      ValZero(p);
      count := 0;
    }

    method Bitlen() returns (n: nat)
      ensures n == BitLen(Val(p))
    {
      if |p| == 0 { return 0; }
      var i := |p| - 1;
      while i > 0 && p[i] == 0
        invariant 0 <= i < |p| && AllZero(p[i + 1..])
      {
        assert p[i..] == [p[i]] + p[i + 1..];
        i := i - 1;
      }
      var z := Clz(p[i]);
      n := biL * i + (biL - z);
      BitlenAt(p, i, biL - z, biL * i);
      BitLenIs(n, Val(p));
    }
  }

  // ----- Bits of limb sequences -----------------------------------------------------------

  ghost predicate LowBitsClear(x: nat, j: nat)
  {
    x % P2(j) == 0
  }

  lemma LowBitsStep(x: nat, j: nat)
    requires LowBitsClear(x, j) && Shr(x, j) % 2 == 0
    ensures LowBitsClear(x, j + 1)
  {
    DivDiv(x, P2(j), 2);
    assert P2(j) * 2 == P2(j + 1);
    assert P2(j) * 0 == 0;
  }

  lemma LowBitsAll(x: Limb)
    requires LowBitsClear(x, biL)
    ensures x == 0
  {
    DivModSmall(x, BASE);
  }

  /** 2^k is the largest power of two dividing v. */
  ghost predicate IsLsb(k: nat, v: nat)
  {
    v % P2(k) == 0 && v / P2(k) % 2 == 1
  }

  lemma SplitBit(x: nat, d: nat, h: int, rest: int)
    requires 0 < d
    ensures x + (d * (2 * h)) * rest == x % d + d * (x / d + 2 * (h * rest))
  {
    assert x == d * (x / d) + x % d;
  }

  /** A number with digits x (low) and rest (high) seen from bit j of x. */
  lemma LimbFromBit(x: Limb, rest: nat, j: nat) returns (high: nat)
    requires j < biL
    ensures x + BASE * rest == x % P2(j) + P2(j) * high
    ensures high % 2 == x / P2(j) % 2
  {
    hide *;
    var d, h := P2(j), P2(biL - j - 1);
    MulNonNeg(h, rest);
    DivNonNeg(x, d);
    high := x / d + 2 * (h * rest);
    assert BASE == d * (2 * h) by { BaseIsP2(); P2Add(j, biL - j); P2Succ(biL - j - 1); }
    SplitBit(x, d, h, rest);
  }

  lemma P2Succ(k: nat)
    ensures P2(k + 1) == 2 * P2(k)
  {}

  /** The number seen from bit biL*i + j. */
  lemma ValFromBit(p: seq<Limb>, i: nat, j: nat) returns (high: nat, low: nat)
    requires i < |p| && j < biL
    ensures Val(p) == low + P2(biL * i + j) * high && low < P2(biL * i + j)
    ensures high % 2 == p[i] / P2(j) % 2
    ensures Val(p[..i]) == 0 && p[i] % P2(j) == 0 ==> low == 0
  {
    hide *;
    P2Add(biL * i, j);
    WeightIsP2(i);
    ValSplit(p, i);
    ValBound(p[..i]);
    var b, d, lo, r := Weight(i), P2(j), Val(p[..i]), p[i] % P2(j);
    high := LimbFromBit(p[i], Val(p[i + 1..]), j);
    assert Val(p[i..]) == p[i] + BASE * Val(p[i + 1..]) by { ValHead(p, i); }
    MulNonNeg(b, r);
    low := lo + b * r;
    TwoDigits(b, lo, d, r, high);
    if r == 0 { assert b * r == 0; }
  }

  /** The bits of limb i are bits biL*i .. biL*i + biL - 1 of the number. */
  lemma BitOf(p: seq<Limb>, i: nat, j: nat)
    requires i < |p| && j < biL
    ensures Val(p) / P2(biL * i + j) % 2 == Shr(p[i], j) % 2
  {
    var high, low := ValFromBit(p, i, j);
    DivModLow(Val(p), P2(biL * i + j), high, low);
  }

  lemma BitBeyond(p: seq<Limb>, pos: nat)
    requires biL * |p| <= pos
    ensures Val(p) / P2(pos) % 2 == 0
  {
    hide *;
    ValBound(p);
    WeightIsP2(|p|);
    P2Mono(biL * |p|, pos);
    DivModSmall(Val(p), P2(pos));
  }

  lemma LsbAt(p: seq<Limb>, i: nat, j: nat)
    requires i < |p| && j < biL && AllZero(p[..i])
    requires LowBitsClear(p[i], j) && Shr(p[i], j) % 2 == 1
    ensures Val(p) != 0 && IsLsb(biL * i + j, Val(p))
  {
    var pos := biL * i + j;
    ValZero(p[..i]);
    var high, low := ValFromBit(p, i, j);
    DivModLow(Val(p), P2(pos), high, 0);
    if Val(p) == 0 { DivModSmall(0, P2(pos)); }
  }

  /** mbedtls_clz: leading zero bits of a word */
  method Clz(x: Limb) returns (j: nat)
    ensures j <= biL && IsBitlen(biL - j, x)
  {
    var mask := P2(biL - 1);
    j := 0;
    BaseIsP2();
    while j < biL
      invariant j <= biL && x < P2(biL - j)
      invariant j < biL ==> mask == P2(biL - 1 - j)
    {
      TopBit(x, biL - 1 - j);
      if And(x, mask) != 0 { return; }
      j := j + 1;
      if j < biL { HalveMask(biL - 1 - j); }
      mask := Shr(mask, 1);
    }
    assert P2(0) == 1;
  }

  lemma HalveMask(k: nat)
    ensures Shr(P2(k + 1), 1) == P2(k)
  {
    assert P2(1) == 2 * P2(0);
    DivModUnique(P2(k + 1), 2, P2(k), 0);
  }

  lemma TopBit(x: nat, k: nat)
    requires x < P2(k + 1)
    ensures And(x, P2(k)) != 0 <==> x >= P2(k)
  {
    AndPow2(x, k);
    var d := P2(k);
    if x < d {
      DivModSmall(x, d);
      assert 0 * d == 0;
    } else {
      DivModUnique(x, d, 1, x - d);
      assert 1 * d == d;
    }
  }

  lemma BitlenAt(p: seq<Limb>, i: nat, j: nat, w: nat)
    requires i < |p| && AllZero(p[i + 1..]) && IsBitlen(j, p[i])
    requires p[i] == 0 ==> i == 0
    requires w == biL * i
    ensures IsBitlen(w + j, Val(p))
  {
    if p[i] == 0 {
      assert p == [p[0]] + p[1..];
      ValZero(p);
    } else {
      ValTop(p, i);
      WeightIsP2(i);
      BitlenWeighted(w, Weight(i), j, p[i], Val(p));
    }
  }

  lemma BitlenWeighted(w: nat, d: nat, j: nat, x: nat, v: nat)
    requires x > 0 && IsBitlen(j, x)
    requires d == P2(w) && d * x <= v < d * x + d
    ensures IsBitlen(w + j, v)
  {
    P2Add(w, j - 1);
    P2Add(w, j);
    MulLe(d, P2(j - 1), x);
    MulLe(d, x + 1, P2(j));
    MulAddDist(d, x, 1);
  }

  // ----- Comparison -----------------------------------------------------------------------

  function Sgn(x: int): int
  {
    if x < 0 then -1 else if x == 0 then 0 else 1
  }

  /** Equal high limbs and a larger limb below them make the larger number. */
  lemma CompareAt(p: seq<Limb>, q: seq<Limb>, k: nat, n: nat)
    requires k < n <= |p| && n <= |q|
    requires p[k + 1..n] == q[k + 1..n] && p[k] < q[k]
    ensures Val(p[..n]) < Val(q[..n])
  {
    var a, b := p[..n], q[..n];
    ValSplit(a, k + 1);
    ValSplit(b, k + 1);
    assert a[k + 1..] == p[k + 1..n];
    assert b[k + 1..] == q[k + 1..n];
    ValSnoc(a, k);
    ValSnoc(b, k);
    ValBound(a[..k]);
    MulLe(Weight(k), p[k] + 1, q[k]);
    MulAddDist(Weight(k), p[k], 1);
  }

  lemma SigOrder(p: seq<Limb>, q: seq<Limb>)
    requires Sig(p) < Sig(q)
    ensures Val(p) < Val(q)
  {
    SigProperties(p);
    SigProperties(q);
    WeightMono(Sig(p), Sig(q) - 1);
  }

  /** The limb by limb scan from the top that ends both comparison functions. */
  method CmpLimbs(p: seq<Limb>, q: seq<Limb>, n: nat) returns (r: int)
    requires n <= |p| && n <= |q|
    ensures r == Sgn(Val(p[..n]) - Val(q[..n]))
  {
    var i := n;
    while i > 0
      invariant 0 <= i <= n && p[i..n] == q[i..n]
    {
      if p[i - 1] > q[i - 1] { CompareAt(q, p, i - 1, n); return 1; }
      if p[i - 1] < q[i - 1] { CompareAt(p, q, i - 1, n); return -1; }
      assert p[i - 1..n] == [p[i - 1]] + p[i..n];
      assert q[i - 1..n] == [q[i - 1]] + q[i..n];
      i := i - 1;
    }
    assert p[..n] == p[0..n] == q[0..n] == q[..n];
    return 0;
  }

  /** mbedtls_mpi_cmp_abs */
  method CmpAbs(X: Mpi, Y: Mpi) returns (r: int)
    ensures r == Sgn(X.Mag() - Y.Mag())
  {
    var i := SignificantLimbs(X.p);
    var j := SignificantLimbs(Y.p);
    SigValue(X.p);
    SigValue(Y.p);
    if i == 0 && j == 0 { return 0; }
    if i > j { SigOrder(Y.p, X.p); return 1; }
    if j > i { SigOrder(X.p, Y.p); return -1; }
    r := CmpLimbs(X.p, Y.p, i);
  }

  /** mbedtls_mpi_cmp_mpi */
  method CmpMpi(X: Mpi, Y: Mpi) returns (r: int)
    ensures r == Sgn(X.Value() - Y.Value())
  {
    var i := SignificantLimbs(X.p);
    var j := SignificantLimbs(Y.p);
    SigValue(X.p);
    SigValue(Y.p);
    if i == 0 && j == 0 { return 0; }
    if i > j { SigOrder(Y.p, X.p); return X.s; }
    if j > i { SigOrder(X.p, Y.p); return 0 - Y.s; }
    if X.s > 0 && Y.s < 0 { return 1; }
    if Y.s > 0 && X.s < 0 { return -1; }
    r := CmpLimbs(X.p, Y.p, i);
    r := if r > 0 then X.s else if r < 0 then 0 - X.s else 0;
  }

  /** A one-limb MPI holding z, as several functions build on the stack. */
  method FromInt(z: int) returns (Y: Mpi)
    requires Abs(z) < BASE
    ensures fresh(Y) && Y.Value() == z && Y.Mag() == Abs(z) && |Y.p| == 1
    ensures Y.s == if z < 0 then -1 else 1
  {
    Y := new Mpi();
    var v: Limb := if z < 0 then -z else z;
    Y.p := [v];
    Y.s := if z < 0 then -1 else 1;
    ValOne(v);
  }

  /** mbedtls_mpi_cmp_int */
  method CmpInt(X: Mpi, z: int) returns (r: int)
    requires Abs(z) < BASE
    ensures r == Sgn(X.Value() - z)
  {
    var Y := FromInt(z);
    r := CmpMpi(X, Y);
  }
}
