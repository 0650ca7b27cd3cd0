/** The branch-free helpers of constant_time.c, on words of k bits, and the conditional
    assignments of multi-precision integers built on them. */
module ConstTime {
  import opened Arith
  import opened Limbs
  import opened Mpis

  /** bitwise exclusive or */
  function Xor(x: nat, y: nat): nat
    decreases x + y
  {
    if x == 0 then y else if y == 0 then x
    else 2 * Xor(x / 2, y / 2) + (x + y) % 2
  }

  lemma {:induction false} XorBit(x: nat, y: nat, k: nat)
    ensures HasBit(Xor(x, y), k) <==> HasBit(x, k) != HasBit(y, k)
    decreases x + y
  {
    NoBits(k);
    if x != 0 && y != 0 {
      XorLow(x, y);
      var z := Xor(x, y);
      if k > 0 { XorBit(x / 2, y / 2, k - 1); }
      hide Xor;
      assert z / 2 == Xor(x / 2, y / 2);
    }
  }

  lemma XorLow(x: nat, y: nat)
    requires x != 0 && y != 0
    ensures Xor(x, y) / 2 == Xor(x / 2, y / 2) && (Xor(x, y) % 2 == 1 <==> (x % 2 == 1) != (y % 2 == 1))
  {
    ParityOfSum(x, y);
    Doubled(Xor(x / 2, y / 2), (x + y) % 2);
  }

  lemma ParityOfSum(x: nat, y: nat)
    ensures (x + y) % 2 == if (x % 2 == 1) != (y % 2 == 1) then 1 else 0
  {
    DivModUnique(x + y, 2, x / 2 + y / 2 + (x % 2 + y % 2) / 2, (x % 2 + y % 2) % 2);
  }

  lemma Doubled(z: nat, b: nat)
    requires b < 2
    ensures (2 * z + b) / 2 == z && (2 * z + b) % 2 == b
  {
    DivModUnique(2 * z + b, 2, z, b);
  }

  lemma {:induction false} XorZero(x: nat, y: nat)
    ensures Xor(x, y) == 0 <==> x == y
    decreases x + y
  {
    if x != 0 && y != 0 { XorZero(x / 2, y / 2); }
  }

  lemma {:induction false} XorBound(x: nat, y: nat, k: nat)
    requires x < P2(k) && y < P2(k)
    ensures Xor(x, y) < P2(k)
    decreases x + y
  {
    if x != 0 && y != 0 { XorBound(x / 2, y / 2, k - 1); }
  }

  lemma {:induction false} OrBounds(x: nat, y: nat, k: nat)
    requires x < P2(k) && y < P2(k)
    ensures x <= Or(x, y) && y <= Or(x, y) < P2(k)
    decreases x + y
  {
    if x != 0 && y != 0 { OrBounds(x / 2, y / 2, k - 1); }
  }

  lemma {:induction false} OrNonZero(x: nat, y: nat)
    ensures Or(x, y) == 0 <==> x == 0 && y == 0
    decreases x + y
  {
    if x != 0 && y != 0 { OrNonZero(x / 2, y / 2); }
  }

  lemma {:induction false} AndCommutes(x: nat, y: nat)
    ensures And(x, y) == And(y, x)
  {
    if x != 0 && y != 0 { AndCommutes(x / 2, y / 2); }
  }

  // ----- Masks ----------------------------------------------------------------------------

  /** Unary minus on a k-bit word. */
  function Neg(v: nat, k: nat): nat
  {
    DivModNonNeg(P2(k) - v, P2(k));
    (P2(k) - v) % P2(k)
  }

  lemma DivModNonNeg(x: int, d: int)
    requires 0 < d
    ensures 0 <= x % d < d
  {}

  /** Complement of a k-bit word. */
  function Not(v: nat, k: nat): nat
    requires v < P2(k)
  {
    P2(k) - 1 - v
  }

  /** The top bit of v | -v: 1 exactly when v is not zero. */
  function NonZeroBit(v: nat, k: nat): nat
    requires 0 < k
  {
    Shr(Or(v, Neg(v, k)), k - 1)
  }

  lemma NonZeroBitMeaning(v: nat, k: nat)
    requires 0 < k && v < P2(k)
    ensures NonZeroBit(v, k) == if v == 0 then 0 else 1
  {
    hide *;
    NonZeroBitIs(v, k);
    NegIs(v, k);
    var h := P2(k - 1);
    P2Succ(k - 1);
    if v == 0 {
      OrZeroBoth(0);
      DivModSmall(0, h);
    } else {
      OrBounds(v, P2(k) - v, k);
      TopBitSet(Or(v, P2(k) - v), h);
    }
  }

  lemma NonZeroBitIs(v: nat, k: nat)
    requires 0 < k
    ensures NonZeroBit(v, k) == Or(v, Neg(v, k)) / P2(k - 1)
  {}

  lemma NegIs(v: nat, k: nat)
    requires v < P2(k)
    ensures Neg(v, k) == if v == 0 then 0 else P2(k) - v
  {
    if v == 0 { DivModUnique(P2(k), P2(k), 1, 0); } else { DivModSmall(P2(k) - v, P2(k)); }
  }

  lemma TopBitSet(x: nat, h: nat)
    requires h <= x < 2 * h
    ensures x / h == 1
  {
    DivModUnique(x, h, 1, x - h);
  }

  /** mbedtls_ct_uint_mask, size_mask and mpi_uint_mask: all ones for a non-zero word, else 0 */
  function Mask(v: nat, k: nat): nat
    requires 0 < k
  {
    Neg(NonZeroBit(v, k), k)
  }

  lemma MaskMeaning(v: nat, k: nat)
    requires 0 < k && v < P2(k)
    ensures Mask(v, k) == if v == 0 then 0 else P2(k) - 1
  {
    NonZeroBitMeaning(v, k);
    P2Mono(1, k);
    if v == 0 {
      DivModUnique(P2(k), P2(k), 1, 0);
    } else {
      DivModSmall(P2(k) - 1, P2(k));
    }
  }

  /** mbedtls_ct_uint_if: a masked choice between two words */
  function UintIf(condition: nat, if1: nat, if0: nat, k: nat): nat
    requires 0 < k && condition < P2(k)
  {
    MaskMeaning(condition, k);
    var mask := Mask(condition, k);
    Or(And(mask, if1), And(Not(mask, k), if0))
  }

  lemma UintIfMeaning(condition: nat, if1: nat, if0: nat, k: nat)
    requires 0 < k && condition < P2(k) && if1 < P2(k) && if0 < P2(k)
    ensures UintIf(condition, if1, if0, k) == if condition != 0 then if1 else if0
  {
    MaskMeaning(condition, k);
    AndAllOnes(if1, k);
    AndAllOnes(if0, k);
    OrZeroBoth(if1);
    OrZeroBoth(if0);
  }

  lemma AndAllOnes(x: nat, k: nat)
    requires x < P2(k)
    ensures And(P2(k) - 1, x) == x && And(x, P2(k) - 1) == x
    ensures And(0, x) == 0 && And(x, 0) == 0
  {
    AndMask(x, k);
    DivModSmall(x, P2(k));
    AndCommutes(x, P2(k) - 1);
  }

  lemma OrZeroBoth(x: nat)
    ensures Or(x, 0) == x && Or(0, x) == x
  {}

  /** mbedtls_ct_size_bool_eq */
  function SizeBoolEq(x: nat, y: nat, k: nat): nat
    requires 0 < k
  {
    Xor(1, NonZeroBit(Xor(x, y), k))
  }

  lemma SizeBoolEqMeaning(x: nat, y: nat, k: nat)
    requires 0 < k && x < P2(k) && y < P2(k)
    ensures SizeBoolEq(x, y, k) == if x == y then 1 else 0
  {
    XorBound(x, y, k);
    XorZero(x, y);
    NonZeroBitMeaning(Xor(x, y), k);
  }

  /** mbedtls_ct_size_gt: the sign bit of y - x */
  function SizeGt(x: nat, y: nat, k: nat): nat
    requires 0 < k
  {
    DivModNonNeg(y - x, P2(k));
    Shr((y - x) % P2(k), k - 1)
  }

  /** It is the comparison x > y as long as the two differ by less than half the range. */
  lemma SizeGtMeaning(x: nat, y: nat, k: nat)
    requires 0 < k && x - y <= P2(k - 1) && y - x < P2(k - 1)
    ensures SizeGt(x, y, k) == if x > y then 1 else 0
  {
    var h := P2(k - 1);
    if x > y {
      DivModUnique(y - x, P2(k), -1, y - x + P2(k));
      DivModUnique(y - x + P2(k), h, 1, y - x + h);
    } else {
      DivModSmall(y - x, P2(k));
      DivModSmall(y - x, h);
    }
  }

  /** And only then: numbers at least half the range apart compare the wrong way round. */
  lemma SizeGtIff(x: nat, y: nat, k: nat)
    requires 0 < k && x < P2(k) && y < P2(k)
    ensures SizeGt(x, y, k) == (if x > y then 1 else 0) <==> x - y <= P2(k - 1) && y - x < P2(k - 1)
  {
    var h := P2(k - 1);
    if x - y > h {
      DivModUnique(y - x, P2(k), -1, y - x + P2(k));
      DivModSmall(y - x + P2(k), h);
    } else if y - x >= h {
      DivModSmall(y - x, P2(k));
      DivModUnique(y - x, h, 1, y - x - h);
    } else {
      SizeGtMeaning(x, y, k);
    }
  }

  // ----- Conditional assignment of multi-precision integers --------------------------------

  /** mbedtls_ct_mpi_uint_cond_assign: n limbs of dest become those of src from off on if the
      condition is 1, and stay otherwise */
  method CondAssign(n: nat, dest: Mpi, src: Mpi, off: nat, condition: nat)
    requires condition <= 1 && n <= |dest.p| && off + n <= |src.p| && (dest == src ==> off == 0)
    modifies dest`p
    ensures |dest.p| == |old(dest.p)| && dest.p[n..] == old(dest.p)[n..]
    ensures dest.p[..n] == if condition == 1 then old(src.p[off..off + n]) else old(dest.p)[..n]
  {
    hide *;
    ghost var q, r := dest.p, src.p;
    ghost var pick := if condition == 1 then src.p[off..off + n] else q[..n];
    MaskFits(condition);
    var mask: Limb := Neg(condition, biL);
    var i := 0;
    while i < n
      invariant 0 <= i <= n && |dest.p| == |q|
      invariant forall j :: i <= j < |q| ==> dest.p[j] == q[j]
      invariant forall j :: 0 <= j < i ==> dest.p[j] == pick[j]
      invariant |src.p| == |r| && forall j :: off + i <= j < |r| ==> src.p[j] == r[j]
    {
      MaskedChoice(condition, mask, src.p[off + i], dest.p[i]);
      dest.p := dest.p[i := Or(And(src.p[off + i], mask), And(dest.p[i], Not(mask, biL)))];
      i := i + 1;
    }
    assert dest.p[..n] == pick;
  }

  lemma MaskFits(condition: nat)
    requires condition <= 1
    ensures Neg(condition, biL) == (if condition == 1 then BASE - 1 else 0) < BASE
    ensures BASE == P2(biL)
  {
    BaseIsP2();
    if condition == 0 {
      DivModUnique(BASE, BASE, 1, 0);
    } else {
      DivModSmall(BASE - 1, BASE);
    }
  }

  lemma MaskedChoice(condition: nat, mask: Limb, x: Limb, y: Limb)
    requires condition <= 1 && mask == if condition == 1 then BASE - 1 else 0
    requires BASE == P2(biL)
    ensures Or(And(x, mask), And(y, Not(mask, biL))) == if condition == 1 then x else y
  {
    hide And, Or, P2;
    AndAllOnes(x, biL);
    AndAllOnes(y, biL);
    OrZeroBoth(x);
    OrZeroBoth(y);
  }

  /** mbedtls_ct_cond_select_sign, on 32-bit words */
  function CondSelectSign(condition: nat, if1: Sign, if0: Sign): (s: int)
    requires condition <= 1
  {
    var uif1, uif0 := if1 + 1, if0 + 1;
    var mask := 2 * condition;
    assert mask < P2(32) by { P2Mono(2, 32); assert P2(2) == 4; }
    Or(And(uif0, Not(mask, 32)), And(uif1, mask)) - 1
  }

  lemma SelectedSign(condition: nat, if1: Sign, if0: Sign)
    requires condition <= 1
    ensures CondSelectSign(condition, if1, if0) == if condition == 1 then if1 else if0
  {
    hide And, Or, P2;
    TwoAndNotTwo(32);
    TwoAndTwo();
    AndAllOnes(if0 + 1, 32);
    AndAllOnes(if1 + 1, 32);
    OrZeroBoth(if0 + 1);
    OrZeroBoth(if1 + 1);
  }

  lemma TwoAndTwo()
    ensures And(2, 2) == 2 && And(0, 2) == 0
  {
    assert And(1, 1) == 1 + 2 * And(0, 0);
  }

  lemma TwoAndNotTwo(k: nat)
    requires k >= 2
    ensures P2(k) >= 4
    ensures And(2, P2(k) - 3) == 0 && And(0, P2(k) - 3) == 0
  {
    P2Mono(2, k);
    assert P2(2) == 4;
    assert P2(k) == 2 * P2(k - 1) == 4 * P2(k - 2);
    assert (P2(k) - 3) / 2 == P2(k - 1) - 2;
    assert (P2(k - 1) - 2) % 2 == 0;
    assert And(1, P2(k - 1) - 2) == 2 * And(0, (P2(k - 1) - 2) / 2) + 1 * 0;
  }

  /** mbedtls_mpi_safe_cond_assign: X = Y if assign is 1, with every limb touched either way */
  method SafeCondAssign(X: Mpi, Y: Mpi, assign: nat)
    requires assign <= 1
    modifies X
    ensures |X.p| == if |old(X.p)| < |Y.p| then |Y.p| else |old(X.p)|
    ensures assign == 1 ==> Val(X.p) == old(Val(Y.p)) && X.s == old(Y.s)
    ensures assign == 0 ==> Val(X.p) == old(Val(X.p)) && X.s == old(X.s)
  {
    hide *;
    ghost var y, x0 := Y.p, X.p;
    BaseIsP2();
    MaskMeaning(assign, biL);
    MaskFits(assign);
    var limbMask: Limb := Mask(assign, biL);
    X.Grow(|Y.p|);
    assert Y.p == y by { if X == Y { assert x0 + Zeros(0) == x0; } }
    SelectedSign(assign, Y.s, X.s);
    X.s := CondSelectSign(assign, Y.s, X.s);
    ghost var grown := X.p;
    assert grown == grown[..|Y.p|] + grown[|Y.p|..];
    CondAssign(|Y.p|, X, Y, 0, assign);
    ghost var q, s := X.p, X.s;
    assert q == q[..|Y.p|] + q[|Y.p|..];
    var i := |Y.p|;
    while i < |X.p|
      invariant |y| <= i <= |X.p| == |q| && X.s == s
      invariant forall j :: 0 <= j < |q| ==> X.p[j] == if |y| <= j < i && assign == 1 then 0 else q[j]
    {
      ClearMasked(assign, limbMask, X.p[i]);
      X.p := X.p[i := And(X.p[i], Not(limbMask, biL))];
      i := i + 1;
    }
    if assign == 1 {
      ZeroFrom(X.p, |y|);
      ValTrim(X.p, |y|);
      assert X.p[..|y|] == q[..|y|] == y[0..0 + |y|] == y;
    } else {
      assert X.p == q;
    }
  }

  lemma ClearMasked(assign: nat, mask: Limb, x: Limb)
    requires assign <= 1 && mask == if assign == 1 then BASE - 1 else 0
    requires BASE == P2(biL)
    ensures And(x, Not(mask, biL)) == if assign == 1 then 0 else x
  {
    AndAllOnes(x, biL);
  }
}
