/** Signed division and remainder, built on the unsigned ones. */
module BvSigned {
  import opened Bits
  import opened Limbs
  import opened BitVectors
  import opened BvOps
  import opened BvShift
  import opened BvArith
  import opened Congruence

  /** The absolute value of a vector in two's complement. */
  ghost function AbsVal(w: nat, x: nat): nat
    requires w > 0
  {
    if Pow2(w - 1) <= x < Pow2(w) then Pow2(w) - x else x
  }

  ghost predicate IsNegative(w: nat, x: nat)
    requires w > 0
  {
    x >= Pow2(w - 1)
  }

  /** Negates a value if `b` is set. */
  ghost function NegIf(w: nat, b: bool, x: nat): nat {
    if b then NegVal(w, x) else x
  }

  ghost function SdivVal(w: nat, x: nat, y: nat): nat
    requires w > 0
  {
    NegIf(w, IsNegative(w, x) != IsNegative(w, y), UdivVal(w, AbsVal(w, x), AbsVal(w, y)))
  }

  ghost function SremVal(w: nat, x: nat, y: nat): nat
    requires w > 0
  {
    NegIf(w, IsNegative(w, x), UremVal(AbsVal(w, x), AbsVal(w, y)))
  }

  lemma NegIsAbs(w: nat, x: nat)
    requires w > 0 && x < Pow2(w) && IsNegative(w, x)
    ensures NegVal(w, x) == AbsVal(w, x)
  {
    hide Pow2;
    DivModUnique(x, Pow2(w), 0, x);
    DivModUnique(Pow2(w) - x, Pow2(w), 0, Pow2(w) - x);
  }

  /** A vector and its sign. */
  lemma SignOf(v: BV)
    requires Wf(v)
    ensures (v.width - 1) / 32 < |v.bits| && GetBit(v, v.width - 1) == IsNegative(v.width, Value(v))
    ensures IsNegative(v.width, Value(v)) ==> NegVal(v.width, Value(v)) == AbsVal(v.width, Value(v))
    ensures !IsNegative(v.width, Value(v)) ==> Value(v) == AbsVal(v.width, Value(v))
  {
    hide Pow2, LVal;
    SignBit(v);
    ValueBound(v);
    if IsNegative(v.width, Value(v)) {
      NegIsAbs(v.width, Value(v));
    }
  }

  method Sdiv(a: BV, b: BV) returns (res: BV)
    requires Wf(a) && Wf(b) && a.width == b.width
    ensures IsBV(res, a.width, SdivVal(a.width, Value(a), Value(b)))
  {
    hide Pow2, LVal, UdivVal, NegVal, AbsVal, IsNegative;
    SignOf(a);
    SignOf(b);
    var signedA := GetBit(a, a.width - 1);
    var signedB := GetBit(b, b.width - 1);
    if signedA && !signedB {
      var negA := Neg(a);
      var div := Udiv(negA, b);
      res := Neg(div);
    } else if !signedA && signedB {
      var negB := Neg(b);
      var div := Udiv(a, negB);
      res := Neg(div);
    } else if signedA && signedB {
      var negA := Neg(a);
      var negB := Neg(b);
      res := Udiv(negA, negB);
    } else {
      res := Udiv(a, b);
    }
  }

  method Srem(a: BV, b: BV) returns (res: BV)
    requires Wf(a) && Wf(b) && a.width == b.width
    ensures IsBV(res, a.width, SremVal(a.width, Value(a), Value(b)))
  {
    hide Pow2, LVal, UremVal, NegVal, AbsVal, IsNegative;
    SignOf(a);
    SignOf(b);
    var signedA := GetBit(a, a.width - 1);
    var signedB := GetBit(b, b.width - 1);
    if signedA && !signedB {
      var negA := Neg(a);
      var rem := Urem(negA, b);
      res := Neg(rem);
    } else if !signedA && signedB {
      var negB := Neg(b);
      res := Urem(a, negB);
    } else if signedA && signedB {
      var negA := Neg(a);
      var negB := Neg(b);
      var rem := Urem(negA, negB);
      res := Neg(rem);
    } else {
      res := Urem(a, b);
    }
  }

  // ---------------------------------------------------------------------------
  // What signed division means
  // ---------------------------------------------------------------------------

  ghost function Factor(b: bool): int {
    if b then -1 else 1
  }

  lemma NegIfCong(w: nat, b: bool, x: nat)
    ensures Cong(NegIf(w, b, x), Factor(b) * x, Pow2(w))
  {
    hide Pow2;
    var p := Pow2(w);
    if b {
      DivModFacts(x, p);
      CongMod(p - x % p, p);
      var y: int := x;
      Distribute(1, x / p, p);
      CongFrom(p - x % p, -y, 1 + x / p, p);
      CongTrans(NegVal(w, x), p - x % p, -y, p);
    } else {
      CongFrom(x, 1 * x, 0, p);
    }
  }

  lemma AbsCong(w: nat, x: nat)
    requires w > 0 && x < Pow2(w)
    ensures Cong(x, Factor(IsNegative(w, x)) * AbsVal(w, x), Pow2(w))
  {
    hide Pow2;
    CongFrom(x, Factor(IsNegative(w, x)) * AbsVal(w, x), if IsNegative(w, x) then 1 else 0, Pow2(w));
  }

  /** Quotient and remainder recompose the dividend modulo `2^w`, for all operands,
      also for a zero divisor. */
  lemma SignedRecompose(w: nat, x: nat, y: nat)
    requires w > 0 && x < Pow2(w) && y < Pow2(w)
    ensures Cong(SdivVal(w, x, y) * y + SremVal(w, x, y), x, Pow2(w))
  {
    hide Pow2, NegIf, AbsVal, IsNegative, UdivVal, UremVal, Cong;
    var p := Pow2(w);
    var nx, ny := IsNegative(w, x), IsNegative(w, y);
    var (ax, ay) := (AbsVal(w, x), AbsVal(w, y));
    var (q, r) := (UdivVal(w, ax, ay), UremVal(ax, ay));
    NegIfCong(w, nx != ny, q);
    NegIfCong(w, nx, r);
    AbsCong(w, x);
    AbsCong(w, y);
    UnsignedRecompose(w, ax, ay);
    CongMul(SdivVal(w, x, y), Factor(nx != ny) * q, y, Factor(ny) * ay, p);
    CongAdd(SdivVal(w, x, y) * y, Factor(nx != ny) * q * (Factor(ny) * ay), SremVal(w, x, y), Factor(nx) * r, p);
    SignProduct(nx, ny, q, ay, r);
    CongSym(x, Factor(nx) * ax, p);
    CongTrans(SdivVal(w, x, y) * y + SremVal(w, x, y), Factor(nx) * ax, x, p);
  }

  lemma UnsignedRecompose(w: nat, x: nat, y: nat)
    ensures UdivVal(w, x, y) * y + UremVal(x, y) == x
  {
    hide Pow2;
    if y > 0 {
      DivModFacts(x, y);
    }
  }

  lemma SignProduct(nx: bool, ny: bool, q: int, y: int, r: int)
    ensures Factor(nx != ny) * q * (Factor(ny) * y) + Factor(nx) * r == Factor(nx) * (q * y + r)
  {
    assert (-q) * y == -(q * y) && q * (-y) == -(q * y) && (-q) * (-y) == q * y;
  }

  /** Division of integers that rounds towards zero; dividing a negative number
      by zero gives 1, any other number -1. */
  function Trunc(a: int, b: int): int {
    if b == 0 then (if a < 0 then 1 else -1)
    else
      var q := Abs(a) / Abs(b);
      if (a < 0) == (b < 0) then q else -q
  }

  function Abs(a: int): nat {
    if a < 0 then -a else a
  }

  lemma SignedParts(w: nat, x: nat)
    requires w > 0 && x < Pow2(w)
    ensures (Signed(w, x) < 0) == IsNegative(w, x) && Abs(Signed(w, x)) == AbsVal(w, x)
  {
  }

  /** The quotient is that of the signed values rounded towards zero, and the
      remainder has the sign of the dividend.  Dividing by zero gives 1 for a
      negative dividend and -1 for any other, and leaves the dividend. */
  lemma SignedMeaning(w: nat, x: nat, y: nat)
    requires w > 0 && x < Pow2(w) && y < Pow2(w)
    ensures Signed(w, y) == 0 <==> y == 0
    ensures Cong(SdivVal(w, x, y), Trunc(Signed(w, x), Signed(w, y)), Pow2(w))
    ensures Cong(SremVal(w, x, y), Signed(w, x) - Signed(w, y) * Trunc(Signed(w, x), Signed(w, y)), Pow2(w))
  {
    hide Pow2, NegIf, IsNegative, Cong, Signed, UdivVal, UremVal;
    SignedZero(w, y);
    if y == 0 {
      DivideByZero(w, x);
      assert Signed(w, y) * Trunc(Signed(w, x), Signed(w, y)) == 0;
    } else {
      DivideNonZero(w, x, y);
    }
  }

  lemma SignedZero(w: nat, y: nat)
    requires w > 0 && y < Pow2(w)
    ensures Signed(w, y) == 0 <==> y == 0
  {
  }

  /** The quotient by zero is 1 for a negative dividend and -1 for any other; the
      remainder is the dividend. */
  lemma DivideByZero(w: nat, x: nat)
    requires w > 0 && x < Pow2(w)
    ensures Cong(SdivVal(w, x, 0), if Signed(w, x) < 0 then 1 else -1, Pow2(w))
    ensures Cong(SremVal(w, x, 0), Signed(w, x), Pow2(w))
  {
    hide Pow2, NegIf, Cong, Signed;
    var p, nx, ax := Pow2(w), IsNegative(w, x), AbsVal(w, x);
    SignedParts(w, x);
    ZeroParts(w);
    NegIfCong(w, nx, p - 1);
    CongFrom(Factor(nx) * (p - 1), if nx then 1 else -1, if nx then -1 else 1, p);
    CongTrans(SdivVal(w, x, 0), Factor(nx) * (p - 1), if nx then 1 else -1, p);
    NegIfCong(w, nx, ax);
    AbsIs(Signed(w, x));
  }

  lemma ZeroParts(w: nat)
    requires w > 0
    ensures AbsVal(w, 0) == 0 && !IsNegative(w, 0) && forall x :: UdivVal(w, x, 0) == Pow2(w) - 1 && UremVal(x, 0) == x
  {
  }

  lemma DivideNonZero(w: nat, x: nat, y: nat)
    requires w > 0 && x < Pow2(w) && 0 < y < Pow2(w) && Signed(w, y) != 0
    ensures Cong(SdivVal(w, x, y), Trunc(Signed(w, x), Signed(w, y)), Pow2(w))
    ensures Cong(SremVal(w, x, y), Signed(w, x) - Signed(w, y) * Trunc(Signed(w, x), Signed(w, y)), Pow2(w))
  {
    hide Pow2, NegIf, IsNegative, Cong, Signed;
    SignedParts(w, x);
    SignedParts(w, y);
    var nx, ny := IsNegative(w, x), IsNegative(w, y);
    var (ax, ay) := (AbsVal(w, x), AbsVal(w, y));
    AbsPositive(w, y);
    var q := ax / ay;
    UnsignedRecompose(w, ax, ay);
    NegIfCong(w, nx != ny, q);
    NegIfCong(w, nx, ax % ay);
    RemainderSign(Signed(w, x), Signed(w, y));
  }

  lemma AbsPositive(w: nat, y: nat)
    requires w > 0 && 0 < y < Pow2(w)
    ensures AbsVal(w, y) > 0
  {
  }

  lemma RemainderSign(a: int, b: int)
    requires b != 0
    ensures a - b * Trunc(a, b) == Factor(a < 0) * (Abs(a) % Abs(b))
  {
    hide Abs;
    AbsIs(a);
    AbsIs(b);
    var x, y, q: int := Abs(a), Abs(b), Abs(a) / Abs(b);
    DivModFacts(x, y);
    NegTimes(y, q);
  }

  lemma AbsIs(a: int)
    ensures Abs(a) == if a < 0 then -a else a
  {
  }

  lemma NegTimes(y: int, q: int)
    ensures (-y) * q == -(q * y) && y * (-q) == -(q * y) && (-y) * (-q) == q * y
  {
  }
}
