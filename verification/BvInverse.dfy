/** The modular inverse of odd vectors, by the extended Euclidean algorithm. */
module BvInverse {
  import opened Bits
  import opened Limbs
  import opened BitVectors
  import opened BvOps
  import opened BvShift
  import opened BvArith
  import opened Congruence

  /** The loop keeps `a` and `b` coprime and congruent to multiples of the input. */
  ghost predicate Bezout(x: nat, p: nat, a: nat, b: nat, ly: nat, y: nat) {
    Gcd(a, b) == 1 && Cong(a, ly * x, p) && Cong(b, y * x, p)
  }

  lemma BezoutStart(w: nat, x: nat)
    requires x % 2 == 1
    ensures Bezout(x, Pow2(w), Pow2(w), x, 0, 1)
  {
    hide Pow2, Gcd;
    GcdPow2Odd(w, x);
    CongFrom(Pow2(w), 0 * x, 1, Pow2(w));
    CongFrom(x, 1 * x, 0, Pow2(w));
  }

  /** One division step.  The coefficient is computed with one bit more than the
      width, which does not matter modulo the width. */
  lemma BezoutStep(w: nat, x: nat, a: nat, b: nat, ly: nat, y: nat)
    requires Bezout(x, Pow2(w), a, b, ly, y) && b > 0
    ensures Bezout(x, Pow2(w), b, a % b, y, SubVal(w + 1, ly, MulVal(w + 1, y, a / b)))
  {
    hide Pow2, Cong, SubVal, MulVal;
    var p, q := Pow2(w), a / b;
    var y' := SubVal(w + 1, ly, MulVal(w + 1, y, q));
    CoefficientCong(w, ly, y, q);
    CongScale(y', ly - y * q, x, p);
    DivModFacts(a, b);
    CongScale(b, y * x, -q, p);
    CongAdd(a, ly * x, b * (-q), y * x * (-q), p);
    Rearranged(ly, y, q, x, b);
    CongSym(y' * x, (ly - y * q) * x, p);
    CongTrans(a % b, (ly - y * q) * x, y' * x, p);
  }

  lemma Rearranged(ly: int, y: int, q: int, x: int, b: int)
    ensures ly * x + y * x * (-q) == (ly - y * q) * x && b * (-q) == -(q * b)
  {
    Distribute(ly, -(y * q), x);
    MulAssoc(y, x, -q);
    MulAssoc(y, q, x);
    assert x * (-q) == -(q * x) && y * (-(q * x)) == -(y * (q * x)) && (-(y * q)) * x == -(y * q * x);
  }

  lemma CoefficientCong(w: nat, ly: nat, y: nat, q: nat)
    ensures Cong(SubVal(w + 1, ly, MulVal(w + 1, y, q)), ly - y * q, Pow2(w))
  {
    hide Pow2, Cong, NegVal, AddVal;
    var m := Pow2(w + 1);
    Pow2Unfold(w + 1);
    var yq: int := MulVal(w + 1, y, q);
    var s := SubVal(w + 1, ly, yq);
    var prod: int := y * q;
    CongMod(y * q, m);
    SubIsCong(w + 1, ly, yq);
    CongScale(yq, y * q, -1, m);
    CongAdd(s + yq, ly, yq * (-1), prod * (-1), m);
    CongWeaken(s, ly - y * q, Pow2(w), 2);
  }

  lemma SubIsCong(w: nat, x: nat, y: nat)
    ensures Cong(SubVal(w, x, y) + y, x, Pow2(w))
  {
    hide Pow2, Cong, SubVal;
    var p := Pow2(w);
    SubUndoesAdd(w, x, y);
    CongMod(SubVal(w, x, y) + y, p);
    CongMod(x, p);
    CongSym(AddVal(w, SubVal(w, x, y), y), SubVal(w, x, y) + y, p);
    CongTrans(SubVal(w, x, y) + y, x % p, x, p);
  }

  /** When the loop ends, the coefficient of 1 is the inverse. */
  lemma BezoutEnd(w: nat, x: nat, a: nat, ly: nat, y: nat)
    requires w > 0 && Bezout(x, Pow2(w), a, 0, ly, y)
    ensures (x * (ly % Pow2(w))) % Pow2(w) == 1
  {
    hide Pow2, Cong;
    var p := Pow2(w);
    assert a == 1;
    CongMod(ly, p);
    CongSym(ly % p, ly, p);
    CongScale(ly, ly % p, x, p);
    CongTrans(1, ly * x, ly % p * x, p);
    assert ly % p * x == x * (ly % p);
    Pow2Mono(1, w);
    Pow2Is2();
    CongOne(x * (ly % p), p);
  }

  lemma TopBit(w: nat)
    ensures WithBit(0, w, true) == Pow2(w)
  {
    hide Pow2, TestBit;
    ZeroBits(w);
  }

  lemma OneFits(w: nat)
    ensures 1 % Pow2(w + 1) == 1
  {
    hide Pow2;
    Pow2Mono(1, w + 1);
    Pow2Is2();
    DivModUnique(1, Pow2(w + 1), 0, 1);
  }

  lemma OddBit(v: BV)
    requires Wf(v)
    ensures 0 < |v.bits| && GetBit(v, 0) == (Value(v) % 2 == 1)
  {
    hide LVal;
    GetBitIs(v, 0);
    Pow2Is2();
  }

  lemma CopyBitStep(x: nat, i: nat)
    ensures WithBit(x % Pow2(i), i, TestBit(x, i)) == x % Pow2(i + 1)
  {
    hide Pow2, TestBit, WithBit;
    SliceStep(x, i, TestBit(x, i));
  }

  /** The inverse of an odd vector modulo `2^w`. */
  method ModInverse(v: BV) returns (res: BV)
    requires Wf(v) && 0 < |v.bits| && GetBit(v, 0)
    ensures Wf(res) && res.width == v.width && MulVal(v.width, Value(v), Value(res)) == 1
  {
    hide Pow2, LVal, Wf, TestBit, WithBit, UdivVal, SubVal, MulVal, Bezout, GetBit, SliceVal;
    var w := v.width;
    var ebw := w + 1;
    ghost var x := Value(v);
    WidthPositive(v);
    OddBit(v);
    ValueBound(v);
    var a := New(ebw);
    a := SetBit(a, w, true);
    TopBit(w);
    var b := New(ebw);
    Pow2Is2();
    var i := 0;
    while i < w
      invariant 0 <= i <= w && IsBV(b, ebw, x % Pow2(i))
    {
      GetBitIs(v, i);
      CopyBitStep(x, i);
      b := SetBit(b, i, GetBit(v, i));
      i := i + 1;
    }
    DivModUnique(x, Pow2(w), 0, x);
    var y := FromUint64(1, ebw);
    OneFits(w);
    var ly := New(ebw);
    BezoutStart(w, x);
    var done := IsZero(b);
    while !done
      invariant Wf(a) && Wf(b) && Wf(y) && Wf(ly) && a.width == b.width == y.width == ly.width == ebw
      invariant Bezout(x, Pow2(w), Value(a), Value(b), Value(ly), Value(y)) && (done <==> Value(b) == 0)
      decreases Value(b)
    {
      BezoutStep(w, x, Value(a), Value(b), Value(ly), Value(y));
      DivModFacts(Value(a), Value(b));
      NonZeroDivision(ebw, Value(a), Value(b));
      var q, r := UdivUrem(a, b);
      a := b;
      b := r;
      var ty := y;
      var yq := Mul(y, q);
      y := Sub(ly, yq);
      ly := ty;
      done := IsZero(b);
    }
    res := Slice(ly, w - 1, 0);
    LowSlice(w, Value(ly));
    BezoutEnd(w, x, Value(a), Value(ly), Value(y));
    MulIs(w, x, Value(res));
  }

  lemma WidthPositive(v: BV)
    requires Wf(v)
    ensures v.width > 0
  {
  }

  lemma NonZeroDivision(w: nat, x: nat, y: nat)
    requires y > 0
    ensures UdivVal(w, x, y) == x / y && UremVal(x, y) == x % y
  {
  }

  lemma LowSlice(w: nat, x: nat)
    requires w > 0
    ensures SliceVal(x, w - 1, 0) == x % Pow2(w)
  {
    hide Pow2;
    Pow2Is2();
    DivModUnique(x, 1, x, 0);
  }

  lemma MulIs(w: nat, x: nat, y: nat)
    ensures MulVal(w, x, y) == (x * y) % Pow2(w)
  {
  }
}
