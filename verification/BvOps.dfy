/** The evaluator's comparison, bitwise, additive and structural operations. */
module BvOps {
  import opened Bits
  import opened Limbs
  import opened BitVectors

  // ---------------------------------------------------------------------------
  // Comparison
  // ---------------------------------------------------------------------------

  method IsZero(v: BV) returns (res: bool)
    requires Wf(v)
    ensures res <==> Value(v) == 0
  {
    hide LVal;
    LZero(v.bits);
    var i := 0;
    while i < |v.bits|
      invariant 0 <= i <= |v.bits| && forall k :: 0 <= k < i ==> v.bits[k] == 0
    {
      if v.bits[i] != 0 {
        return false;
      }
      i := i + 1;
    }
    res := true;
  }

  /** The first limb on which two vectors of one width differ. */
  method FirstDifference(a: BV, b: BV) returns (i: nat)
    requires |a.bits| == |b.bits|
    ensures i <= |a.bits| && a.bits[..i] == b.bits[..i] && (i < |a.bits| ==> a.bits[i] != b.bits[i])
  {
    i := 0;
    while i < |a.bits| && a.bits[i] == b.bits[i]
      invariant i <= |a.bits| && a.bits[..i] == b.bits[..i]
    {
      PrefixSnoc(a.bits, i);
      PrefixSnoc(b.bits, i);
      i := i + 1;
    }
  }

  lemma DifferenceDecides(a: BV, b: BV, i: nat)
    requires Wf(a) && Wf(b) && a.width == b.width && i <= |a.bits|
    requires a.bits[..i] == b.bits[..i] && (i < |a.bits| ==> a.bits[i] != b.bits[i])
    ensures i == |a.bits| ==> Value(a) == Value(b)
    ensures i < |a.bits| ==> (if a.bits[i] < b.bits[i] then Value(a) < Value(b) else Value(a) > Value(b))
  {
    hide LVal;
    if i == |a.bits| {
      SliceEnds(a.bits);
      SliceEnds(b.bits);
    } else if a.bits[i] < b.bits[i] {
      LLess(a.bits, b.bits, i);
    } else {
      LLess(b.bits, a.bits, i);
    }
  }

  /** Vectors of different widths compare as -1. */
  method Compare(a: BV, b: BV) returns (res: int)
    requires Wf(a) && Wf(b)
    ensures a.width != b.width ==> res == -1
    ensures a.width == b.width ==>
              res == if Value(a) == Value(b) then 0 else if Value(a) > Value(b) then 1 else -1
  {
    hide LVal;
    if a.width != b.width {
      return -1;
    }
    var i := FirstDifference(a, b);
    DifferenceDecides(a, b, i);
    if i == |a.bits| {
      return 0;
    }
    res := if a.bits[i] > b.bits[i] then 1 else -1;
  }

  lemma OneBit(b: bool)
    ensures WithBit(0, 0, b) == Bit(b)
  {
  }

  method Eq(a: BV, b: BV) returns (res: BV)
    requires Wf(a) && Wf(b) && a.width == b.width
    ensures IsBV(res, 1, Bit(Value(a) == Value(b)))
  {
    hide LVal, WithBit;
    res := New(1);
    var bit := true;
    var i := 0;
    while i < |a.bits|
      invariant 0 <= i <= |a.bits| && bit && a.bits[..i] == b.bits[..i]
    {
      if a.bits[i] != b.bits[i] {
        bit := false;
        break;
      }
      PrefixSnoc(a.bits, i);
      PrefixSnoc(b.bits, i);
      i := i + 1;
    }
    DifferenceDecides(a, b, i);
    OneBit(bit);
    res := SetBit(res, 0, bit);
  }

  method Ult(a: BV, b: BV) returns (res: BV)
    requires Wf(a) && Wf(b) && a.width == b.width
    ensures IsBV(res, 1, Bit(Value(a) < Value(b)))
  {
    hide LVal, WithBit;
    res := New(1);
    var bit := true;
    var i := FirstDifference(a, b);
    DifferenceDecides(a, b, i);
    if i == |a.bits| || a.bits[i] >= b.bits[i] {
      bit := false;
    }
    OneBit(bit);
    res := SetBit(res, 0, bit);
  }

  /** The single bit of a one-bit result. */
  method IsTrue(v: BV) returns (res: bool)
    requires Wf(v)
    ensures res <==> v.width == 1 && Value(v) == 1
  {
    hide LVal;
    if v.width != 1 {
      return false;
    }
    GetBitIs(v, 0);
    ValueBound(v);
    Pow2Is2();
    res := GetBit(v, 0);
  }

  // ---------------------------------------------------------------------------
  // Bitwise operations
  // ---------------------------------------------------------------------------

  lemma {:induction false} ComplementValue(s: seq<nat>, t: seq<nat>)
    requires IsLimbs(s) && |s| == |t| && forall i :: 0 <= i < |s| ==> t[i] == Complement(s[i])
    ensures LVal(s) + LVal(t) + 1 == Weight(|s|)
  {
    hide Weight;
    if s == [] {
      WeightFacts(0);
    } else {
      var n := |s| - 1;
      ComplementValue(s[..n], t[..n]);
      WeightFacts(n);
      Distribute(LVal(s[..n]) + LVal(t[..n]), 1, BASE);
      Distribute(LVal(s[..n]), LVal(t[..n]), BASE);
    }
  }

  lemma ComplementMod(x: nat, y: nat, k: nat, p: nat)
    requires x < p && x + y + 1 == k * p
    ensures y % p == p - 1 - x
  {
    Distribute(k - 1, 1, p);
    DivModUnique(y, p, k - 1, p - 1 - x);
  }

  method Not(a: BV) returns (res: BV)
    requires Wf(a)
    ensures Value(a) < Pow2(a.width) && IsBV(res, a.width, Pow2(a.width) - 1 - Value(a))
  {
    hide Pow2, LVal, Weight;
    var bits := Zeros(LenOf(a.width));
    var i := 0;
    while i < |a.bits|
      invariant 0 <= i <= |a.bits| == |bits| && forall k :: 0 <= k < i ==> bits[k] == Complement(a.bits[k])
    {
      bits := bits[i := Complement(a.bits[i])];
      i := i + 1;
    }
    res := ClearSpare(a.width, bits);
    ComplementValue(a.bits, bits);
    ValueBound(a);
    WeightOverWidth(a.width);
    ComplementMod(Value(a), LVal(bits), Pow2(32 * LenOf(a.width) - a.width), Pow2(a.width));
  }

  lemma {:induction false} AndValue(s: seq<nat>, t: seq<nat>, u: seq<nat>)
    requires IsLimbs(s) && IsLimbs(t) && |s| == |t| == |u|
    requires forall i :: 0 <= i < |s| ==> u[i] == BitAnd(s[i], t[i])
    ensures LVal(u) == BitAnd(LVal(s), LVal(t))
  {
    hide Pow2, BitAnd;
    if s == [] {
      AndZero(0);
    } else {
      var n := |s| - 1;
      AndValue(s[..n], t[..n], u[..n]);
      Pow2Is32();
      AndSplit(LVal(s[..n]), s[n], LVal(t[..n]), t[n], 32);
    }
  }

  method And(a: BV, b: BV) returns (res: BV)
    requires Wf(a) && Wf(b) && a.width == b.width
    ensures IsBV(res, a.width, BitAnd(Value(a), Value(b)))
  {
    hide Pow2, LVal, BitAnd;
    var bits := Zeros(LenOf(a.width));
    var i := 0;
    while i < |a.bits|
      invariant 0 <= i <= |a.bits| == |bits|
      invariant forall k :: 0 <= k < i ==> bits[k] == BitAnd(a.bits[k], b.bits[k])
    {
      bits := bits[i := BitAnd(a.bits[i], b.bits[i])];
      i := i + 1;
    }
    AndValue(a.bits, b.bits, bits);
    forall k | 0 <= k < |bits| ensures bits[k] < BASE { AndLe(a.bits[k], b.bits[k]); }
    AndLe(Value(a), Value(b));
    ValueBound(a);
    Fits(a.width, bits);
    res := BV(a.width, bits);
  }

  lemma SelectLimb(t: nat, e: nat)
    requires t < BASE && e < BASE
    ensures BitOr(BitAnd(BASE - 1, t), BitAnd(0, e)) == t
    ensures BitOr(BitAnd(0, t), BitAnd(BASE - 1, e)) == e
  {
    hide BitAnd, Pow2;
    Pow2Is32();
    AndCommutes(BASE - 1, t);
    AndCommutes(BASE - 1, e);
    MaskSmall(t, 32);
    MaskSmall(e, 32);
    AndZero(t);
    AndZero(e);
  }

  method Ite(c: BV, t: BV, e: BV) returns (res: BV)
    requires Wf(c) && c.width == 1 && Wf(t) && Wf(e) && t.width == e.width
    ensures IsBV(res, t.width, if Value(c) == 1 then Value(t) else Value(e))
  {
    hide Pow2, LVal, BitAnd, BitOr;
    GetBitIs(c, 0);
    ValueBound(c);
    Pow2Is2();
    var cc := if GetBit(c, 0) then BASE - 1 else 0;
    var nn := Complement(cc);
    ghost var pick := if GetBit(c, 0) then t else e;
    var bits := Zeros(LenOf(t.width));
    var i := 0;
    while i < |t.bits|
      invariant 0 <= i <= |t.bits| == |bits| && bits[..i] == pick.bits[..i]
    {
      SelectLimb(t.bits[i], e.bits[i]);
      bits := bits[i := BitOr(BitAnd(cc, t.bits[i]), BitAnd(nn, e.bits[i]))];
      PrefixSnoc(bits, i);
      PrefixSnoc(pick.bits, i);
      i := i + 1;
    }
    SliceEnds(bits);
    SliceEnds(pick.bits);
    res := BV(t.width, bits);
  }

  // ---------------------------------------------------------------------------
  // Addition
  // ---------------------------------------------------------------------------

  /** One limb of an addition with carry. */
  lemma AddStep(a: seq<nat>, b: seq<nat>, r: seq<nat>, i: nat, carry: nat)
    requires |a| == |b| == |r| && i < |a|
    requires LVal(r[i + 1..]) + carry * Weight(|a| - 1 - i) == LVal(a[i + 1..]) + LVal(b[i + 1..])
    ensures var sum := a[i] + b[i] + carry;
            var r' := r[i := sum % BASE];
            LVal(r'[i..]) + (sum / BASE) * Weight(|a| - i) == LVal(a[i..]) + LVal(b[i..])
  {
    hide LVal, Weight;
    var sum := a[i] + b[i] + carry;
    var r' := r[i := sum % BASE];
    var w := Weight(|a| - 1 - i);
    assert r'[i + 1..] == r[i + 1..];
    LSuffix(a, i);
    LSuffix(b, i);
    LSuffix(r', i);
    WeightFacts(|a| - 1 - i);
    DivModFacts(sum, BASE);
    AddCarry(a[i], b[i], carry, sum / BASE, sum % BASE, w);
  }

  lemma AddCarry(x: nat, y: nat, c: nat, q: nat, r: nat, w: nat)
    requires x + y + c == q * BASE + r
    ensures r * w + q * (w * BASE) == x * w + y * w + c * w
  {
    Distribute(q * BASE, r, w);
    Distribute(x + y, c, w);
    Distribute(x, y, w);
    assert q * (w * BASE) == q * BASE * w;
  }

  method Add(a: BV, b: BV) returns (res: BV)
    requires Wf(a) && Wf(b) && a.width == b.width
    ensures IsBV(res, a.width, AddVal(a.width, Value(a), Value(b)))
  {
    hide Pow2, LVal, Weight;
    var w := a.width;
    if w <= 64 {
      var x := ToUint64(a);
      var y := ToUint64(b);
      res := FromUint64((x + y) % U64, w);
      WordSum(x + y, w);
    } else {
      var bits: seq<nat> := Zeros(LenOf(w));
      var n := |bits|;
      var carry: nat := 0;
      var i := n - 1;
      SliceEnds(a.bits);
      SliceEnds(b.bits);
      SliceEnds(bits);
      LZero([]);
      while i >= 0
        invariant -1 <= i < n == |bits| && IsLimbs(bits)
        invariant LVal(bits[i + 1..]) + carry * Weight(n - 1 - i) == LVal(a.bits[i + 1..]) + LVal(b.bits[i + 1..])
      {
        AddStep(a.bits, b.bits, bits, i, carry);
        var sum := a.bits[i] + b.bits[i] + carry;
        bits := bits[i := sum % BASE];
        carry := sum / BASE;
        i := i - 1;
      }
      SliceEnds(bits);
      res := ClearSpare(w, bits);
      DropCarry(w, LVal(bits), carry, Value(a) + Value(b));
    }
  }

  /** Words wrap at 64 bits before they are cut to the width. */
  lemma WordSum(x: nat, w: nat)
    requires w <= 64
    ensures (x % U64) % Pow2(w) == x % Pow2(w)
  {
    hide Pow2;
    U64Facts();
    Pow2Add(w, 64 - w);
    ModMod(x, Pow2(w), Pow2(64 - w));
  }

  /** The additive inverse modulo `2^w`. */
  ghost function NegVal(w: nat, x: nat): nat {
    (Pow2(w) - x % Pow2(w)) % Pow2(w)
  }

  method Neg(a: BV) returns (res: BV)
    requires Wf(a)
    ensures IsBV(res, a.width, NegVal(a.width, Value(a)))
  {
    hide Pow2, LVal;
    var notA := Not(a);
    var one := FromUint64(1, a.width);
    res := Add(notA, one);
    ValueBound(a);
    Pow2Mono(1, a.width);
    Pow2Is2();
    DivModUnique(1, Pow2(a.width), 0, 1);
    DivModUnique(Value(a), Pow2(a.width), 0, Value(a));
  }

  /** Adding an inverse subtracts, modulo `2^w`. */
  lemma NegAdds(w: nat, x: nat, y: nat)
    ensures AddVal(w, x + NegVal(w, y), y) == x % Pow2(w)
  {
    hide Pow2;
    var p := Pow2(w);
    DivModFacts(y, p);
    var r := y % p;
    if r == 0 {
      DivModUnique(p, p, 1, 0);
      ModOfMultiple(y / p, p, x);
    } else {
      DivModUnique(p - r, p, 0, p - r);
      Distribute(y / p, 1, p);
      ModOfMultiple(y / p + 1, p, x);
    }
  }

  ghost function SubVal(w: nat, x: nat, y: nat): nat {
    AddVal(w, x, NegVal(w, y))
  }

  method Sub(a: BV, b: BV) returns (res: BV)
    requires Wf(a) && Wf(b) && a.width == b.width
    ensures IsBV(res, a.width, SubVal(a.width, Value(a), Value(b)))
  {
    hide Pow2, LVal, NegVal;
    var negB := Neg(b);
    res := Add(a, negB);
  }

  /** Subtraction undoes addition. */
  lemma SubUndoesAdd(w: nat, x: nat, y: nat)
    ensures AddVal(w, SubVal(w, x, y), y) == x % Pow2(w)
  {
    hide Pow2, NegVal, AddVal;
    NegAdds(w, x, y);
    AddTwice(w, x, NegVal(w, y), y);
  }

  lemma AddTwice(w: nat, x: nat, y: nat, z: nat)
    ensures AddVal(w, AddVal(w, x, y), z) == AddVal(w, x + y, z)
  {
    hide Pow2;
    var p, sum := Pow2(w), x + y;
    ModAdd(sum, z, p);
    assert AddVal(w, x, y) == sum % p;
    assert AddVal(w, sum % p, z) == (sum % p + z) % p;
  }
}
