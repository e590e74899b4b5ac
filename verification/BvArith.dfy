/** The evaluator's multiplication and unsigned division. */
module BvArith {
  import opened Bits
  import opened Limbs
  import opened BitVectors
  import opened BvOps
  import opened BvShift

  // ---------------------------------------------------------------------------
  // Multiplication
  // ---------------------------------------------------------------------------

  lemma LowBits(x: nat, i: nat)
    ensures x % Pow2(i + 1) == x % Pow2(i) + if TestBit(x, i) then Pow2(i) else 0
  {
    hide Pow2, TestBit;
    SliceStep(x, i, TestBit(x, i));
    WithBitOfSmall(x % Pow2(i), i, TestBit(x, i));
  }

  lemma WithBitOfSmall(x: nat, i: nat, b: bool)
    requires !TestBit(x, i)
    ensures WithBit(x, i, b) == x + if b then Pow2(i) else 0
  {
  }

  lemma SllAsMul(w: nat, a: nat, i: nat, bit: bool)
    ensures SllVal(w, if bit then a else 0, i) == MulVal(w, a, if bit then Pow2(i) else 0)
  {
    hide Pow2;
    assert a * 0 == 0 && 0 * Pow2(i) == 0;
  }

  lemma MulDistributes(w: nat, a: nat, x: nat, y: nat)
    ensures AddVal(w, MulVal(w, a, x), MulVal(w, a, y)) == MulVal(w, a, x + y)
  {
    hide Pow2;
    Distribute(x, y, a);
    ModAddBoth(a * x, a * y, Pow2(w));
  }

  /** One more bit of the multiplier. */
  lemma MulStep(w: nat, a: nat, b: nat, i: nat)
    ensures AddVal(w, MulVal(w, a, b % Pow2(i)), SllVal(w, if TestBit(b, i) then a else 0, i))
            == MulVal(w, a, b % Pow2(i + 1))
  {
    hide Pow2, TestBit, AddVal, MulVal, SllVal;
    LowBits(b, i);
    SllAsMul(w, a, i, TestBit(b, i));
    MulDistributes(w, a, b % Pow2(i), if TestBit(b, i) then Pow2(i) else 0);
  }

  lemma ModAddBoth(x: nat, y: nat, p: nat)
    requires p > 0
    ensures (x % p + y % p) % p == (x + y) % p
  {
    ModAdd(x, y % p, p);
    ModAdd(y, x, p);
  }

  method Mul(a: BV, b: BV) returns (res: BV)
    requires Wf(a) && Wf(b) && a.width == b.width
    ensures IsBV(res, a.width, MulVal(a.width, Value(a), Value(b)))
  {
    hide Pow2, LVal, TestBit, SllVal, AddVal;
    var w := a.width;
    if w <= 64 {
      var x := ToUint64(a);
      var y := ToUint64(b);
      res := FromUint64((x * y) % U64, w);
      WordSum(x * y, w);
    } else {
      res := New(w);
      MulStart(w, Value(a), Value(b));
      var i := 0;
      while i < w
        invariant 0 <= i <= w && IsBV(res, w, MulVal(w, Value(a), Value(b) % Pow2(i)))
      {
        GetBitIs(b, i);
        MulStep(w, Value(a), Value(b), i);
        var and := a;
        if !GetBit(b, i) {
          and := New(w);
        }
        var shift := SllUint64(and, i);
        res := Add(res, shift);
        i := i + 1;
      }
      ValueBound(b);
      DivModUnique(Value(b), Pow2(w), 0, Value(b));
    }
  }

  lemma MulStart(w: nat, x: nat, y: nat)
    ensures MulVal(w, x, y % Pow2(0)) == 0
  {
    hide Pow2;
    Pow2Is2();
    DivModUnique(0, Pow2(w), 0, 0);
  }

  // ---------------------------------------------------------------------------
  // Unsigned division
  // ---------------------------------------------------------------------------

  lemma DivStepBy(prefix: nat, c: nat, b: nat, q: nat, r: nat)
    requires prefix == q * b + r && r < b && c <= 1
    ensures (2 * prefix + c) / b == (if b <= 2 * r + c then 2 * q + 1 else 2 * q)
    ensures (2 * prefix + c) % b == (if b <= 2 * r + c then 2 * r + c - b else 2 * r + c)
  {
    Distribute(q, q, b);
    if b <= 2 * r + c {
      Distribute(2 * q, 1, b);
      DivModUnique(2 * prefix + c, b, 2 * q + 1, 2 * r + c - b);
    } else {
      DivModUnique(2 * prefix + c, b, 2 * q, 2 * r + c);
    }
  }

  /** One step of long division: the remainder takes the next bit of the
      dividend, and the divisor is subtracted if it fits. */
  lemma DivStep(n: nat, prefix: nat, bit: bool, b: nat)
    ensures var t := 2 * UremVal(prefix, b) + Bit(bit);
            && UdivVal(n + 1, 2 * prefix + Bit(bit), b) == 2 * UdivVal(n, prefix, b) + Bit(b <= t)
            && UremVal(2 * prefix + Bit(bit), b) == (if b <= t then t - b else t)
            && t <= 2 * prefix + Bit(bit)
  {
    hide Pow2;
    Pow2Unfold(n + 1);
    if b > 0 {
      DivModFacts(prefix, b);
      DivStepBy(prefix, Bit(bit), b, prefix / b, prefix % b);
      QuotientLe(prefix, b);
    }
  }

  /** What one pass of the division loop does to remainder and quotient. */
  lemma LongStep(w: nat, x: nat, y: nat, i: nat)
    requires i < w && x < Pow2(w)
    ensures var r, q := UremVal(Quotient(x, Pow2(i + 1)), y), UdivVal(w - 1 - i, Quotient(x, Pow2(i + 1)), y);
            var t := 2 * r + Bit(TestBit(x, i));
            var r', q' := UremVal(Quotient(x, Pow2(i)), y), UdivVal(w - i, Quotient(x, Pow2(i)), y);
            && SllVal(w, r, 1) == 2 * r && WithBit(2 * r, 0, TestBit(x, i)) == t
            && (y <= t ==> AddVal(w, t, NegVal(w, y)) == r' && WithBit(q * Pow2(i + 1), i, true) == q' * Pow2(i))
            && (t < y ==> t == r' && q * Pow2(i + 1) == q' * Pow2(i))
  {
    hide Pow2, TestBit, WithBit, SllVal, AddVal, NegVal, UdivVal, UremVal;
    var prefix := Quotient(x, Pow2(i + 1));
    NextPrefix(x, i);
    PrefixBound(x, w, i);
    Pow2Mono(w - i, w);
    DivStep(w - 1 - i, prefix, TestBit(x, i), y);
    var r, q := UremVal(prefix, y), UdivVal(w - 1 - i, prefix, y);
    var t := 2 * r + Bit(TestBit(x, i));
    ShiftedRemainder(w, r, TestBit(x, i));
    QuotientBit(q, i, true);
    if y <= t {
      Subtracted(w, t, y);
    }
  }

  /** The dividend's bits above position `i`. */
  lemma NextPrefix(x: nat, i: nat)
    ensures Quotient(x, Pow2(i)) == 2 * Quotient(x, Pow2(i + 1)) + Bit(TestBit(x, i))
  {
    hide Pow2;
    Pow2Unfold(i + 1);
    DivDiv(x, Pow2(i), 2);
  }

  lemma PrefixBound(x: nat, w: nat, i: nat)
    requires x < Pow2(w) && i <= w
    ensures Quotient(x, Pow2(i)) < Pow2(w - i)
  {
    hide Pow2;
    Pow2Add(w - i, i);
    QuotientBound(x, Pow2(w - i), Pow2(i));
  }

  /** Shifting the remainder left by one loses nothing, since it never exceeds
      the part of the dividend that was consumed. */
  lemma ShiftedRemainder(w: nat, r: nat, bit: bool)
    requires w > 0 && 2 * r + Bit(bit) < Pow2(w)
    ensures SllVal(w, r, 1) == 2 * r && WithBit(2 * r, 0, bit) == 2 * r + Bit(bit)
  {
    hide Pow2;
    Pow2Is2();
    DivModUnique(2 * r, Pow2(w), 0, 2 * r);
    assert !TestBit(2 * r, 0);
  }

  lemma Subtracted(w: nat, t: nat, b: nat)
    requires b <= t < Pow2(w)
    ensures AddVal(w, t, NegVal(w, b)) == t - b
  {
    hide Pow2;
    var p := Pow2(w);
    DivModUnique(b, p, 0, b);
    if b == 0 {
      DivModUnique(p, p, 1, 0);
      DivModUnique(t, p, 0, t);
    } else {
      DivModUnique(p - b, p, 0, p - b);
      DivModUnique(t + (p - b), p, 1, t - b);
    }
  }

  /** Setting bit `i` of a quotient whose lower bits are zero. */
  lemma QuotientBit(q: nat, i: nat, b: bool)
    ensures !TestBit(q * Pow2(i + 1), i)
    ensures WithBit(q * Pow2(i + 1), i, b) == (2 * q + Bit(b)) * Pow2(i)
    ensures q * Pow2(i + 1) == (2 * q) * Pow2(i)
  {
    hide Pow2, TestBit;
    Pow2Unfold(i + 1);
    NoBit(q, i);
    WithBitOfSmall(q * Pow2(i + 1), i, b);
    Distribute(2 * q, Bit(b), Pow2(i));
    assert q * (2 * Pow2(i)) == (2 * q) * Pow2(i);
  }

  lemma NoBit(q: nat, i: nat)
    ensures !TestBit(q * Pow2(i + 1), i)
  {
    hide Pow2, TestBit;
    TestBitDrop(q, 0, i, i + 1);
    ZeroBits(i);
  }

  lemma ZeroBits(i: nat)
    ensures !TestBit(0, i)
  {
    hide Pow2;
    DivModUnique(0, Pow2(i), 0, 0);
  }

  method UdivUremWord(a: BV, b: BV) returns (q: BV, r: BV)
    requires Wf(a) && Wf(b) && a.width == b.width <= 64
    ensures IsBV(q, a.width, UdivVal(a.width, Value(a), Value(b)))
    ensures IsBV(r, a.width, UremVal(Value(a), Value(b)))
  {
    hide Pow2, LVal, UdivVal, UremVal;
    var x := ToUint64(a);
    var y := ToUint64(b);
    ValueBound(a);
    ValueBound(b);
    if y == 0 {
      y := x;
      x := U64 - 1;
    } else {
      var z := x / y;
      y := x % y;
      x := z;
    }
    WordDivision(a.width, Value(a), Value(b), x, y);
    q := FromUint64(x, a.width);
    r := FromUint64(y, a.width);
  }

  /** Quotient and remainder.  Division by zero gives all ones and the dividend. */
  method UdivUrem(a: BV, b: BV) returns (q: BV, r: BV)
    requires Wf(a) && Wf(b) && a.width == b.width
    ensures IsBV(q, a.width, UdivVal(a.width, Value(a), Value(b)))
    ensures IsBV(r, a.width, UremVal(Value(a), Value(b)))
  {
    hide Pow2, LVal, TestBit, WithBit, SllVal, AddVal, UdivVal, UremVal, NegVal, Wf, Quotient;
    var w := a.width;
    if w <= 64 {
      q, r := UdivUremWord(a, b);
      return;
    }
    ghost var x, y := Value(a), Value(b);
    ValueBound(a);
    var negB := Neg(b);
    q := New(w);
    r := New(w);
    DivStart(w, x, y);
    var i: int := w - 1;
    while i >= 0
      invariant -1 <= i < w
      invariant IsBV(r, w, UremVal(Quotient(x, Pow2(i + 1)), y))
      invariant IsBV(q, w, UdivVal(w - 1 - i, Quotient(x, Pow2(i + 1)), y) * Pow2(i + 1))
    {
      GetBitIs(a, i);
      LongStep(w, x, y, i);
      r := SllUint64(r, 1);
      r := SetBit(r, 0, GetBit(a, i));
      var ult := Ult(b, r);
      var isTrue := IsTrue(ult);
      if !isTrue {
        var eq := Eq(b, r);
        isTrue := IsTrue(eq);
      }
      if isTrue {
        r := Add(r, negB);
        q := SetBit(q, i, true);
      }
      i := i - 1;
    }
    DivEnd(w, x, y);
  }

  lemma WordDivision(w: nat, x: nat, y: nat, u: nat, v: nat)
    requires 0 < w <= 64 && x < Pow2(w) && y < Pow2(w)
    requires if y == 0 then u == U64 - 1 && v == x else u == x / y && v == x % y
    ensures u < U64 && v < U64
    ensures u % Pow2(w) == UdivVal(w, x, y) && v % Pow2(w) == UremVal(x, y)
  {
    hide Pow2;
    U64Facts();
    Pow2Mono(w, 64);
    Pow2Add(64 - w, w);
    var p := Pow2(w);
    if y == 0 {
      Distribute(Pow2(64 - w) - 1, 1, p);
      DivModUnique(u, p, Pow2(64 - w) - 1, p - 1);
      DivModUnique(v, p, 0, v);
    } else {
      QuotientLe(x, y);
      DivModUnique(u, p, 0, u);
      DivModUnique(v, p, 0, v);
    }
  }

  lemma QuotientLe(x: nat, y: nat)
    requires y > 0
    ensures x / y <= x && x % y <= x
  {
    DivModFacts(x, y);
    MulLe(1, y, x / y);
  }

  lemma DivStart(w: nat, x: nat, y: nat)
    requires x < Pow2(w)
    ensures UremVal(Quotient(x, Pow2(w)), y) == 0 && UdivVal(0, Quotient(x, Pow2(w)), y) * Pow2(w) == 0
  {
    hide Pow2;
    Pow2Is2();
    DivModUnique(x, Pow2(w), 0, x);
    if y > 0 {
      DivModUnique(0, y, 0, 0);
    }
  }

  lemma DivEnd(w: nat, x: nat, y: nat)
    ensures UremVal(Quotient(x, Pow2(0)), y) == UremVal(x, y)
    ensures UdivVal(w, Quotient(x, Pow2(0)), y) * Pow2(0) == UdivVal(w, x, y)
  {
    hide Pow2;
    Pow2Is2();
    DivModUnique(x, 1, x, 0);
  }

  method Udiv(a: BV, b: BV) returns (res: BV)
    requires Wf(a) && Wf(b) && a.width == b.width
    ensures IsBV(res, a.width, UdivVal(a.width, Value(a), Value(b)))
  {
    var rem;
    res, rem := UdivUrem(a, b);
  }

  method Urem(a: BV, b: BV) returns (res: BV)
    requires Wf(a) && Wf(b) && a.width == b.width
    ensures IsBV(res, a.width, UremVal(Value(a), Value(b)))
  {
    var quot;
    quot, res := UdivUrem(a, b);
  }

  /** The full product does not fit the width. */
  method IsUmulo(a: BV, b: BV) returns (res: bool)
    requires Wf(a) && Wf(b) && a.width == b.width
    ensures res <==> Value(a) * Value(b) >= Pow2(a.width)
  {
    hide Pow2, LVal, MulVal, SliceVal;
    var w := a.width;
    res := false;
    ValueBound(a);
    ValueBound(b);
    if w > 1 {
      var aext := Uext(a, w);
      var bext := Uext(b, w);
      var mul := Mul(aext, bext);
      var o := Slice(mul, mul.width - 1, w);
      FullProduct(w, Value(a), Value(b));
      var zero := IsZero(o);
      if !zero {
        res := true;
      }
    } else {
      SmallProduct(Value(a), Value(b));
    }
  }

  lemma SmallProduct(x: nat, y: nat)
    requires x < Pow2(1) && y < Pow2(1)
    ensures x * y < Pow2(1)
  {
    Pow2Is2();
    MulLe(x, 1, y);
  }

  lemma FullProduct(w: nat, x: nat, y: nat)
    requires w > 0 && x < Pow2(w) && y < Pow2(w)
    ensures SliceVal(MulVal(w + w, x, y), w + w - 1, w) == 0 <==> x * y < Pow2(w)
  {
    hide Pow2;
    var p, m := Pow2(w), x * y;
    Pow2Add(w, w);
    ProductBound(x, y, p);
    DivModUnique(m, p * p, 0, m);
    QuotientBound(m, p, p);
    DivModUnique(m / p, p, 0, m / p);
    DivModFacts(m, p);
    if m < p {
      DivModUnique(m, p, 0, m);
    }
  }

  lemma ProductBound(x: nat, y: nat, p: nat)
    requires x < p && y < p
    ensures x * y < p * p
  {
    MulLe(x, p - 1, y);
    MulLe(y, p - 1, p - 1);
    Distribute(p - 1, 1, p);
  }
}
