/** The evaluator's concatenation, extraction, extension and shift operations. */
module BvShift {
  import opened Bits
  import opened Limbs
  import opened BitVectors
  import opened BvOps

  // ---------------------------------------------------------------------------
  // Moving limbs up
  // ---------------------------------------------------------------------------

  /** One limb of a left shift by `k` bits: the low part joins the bits carried
      up from below, the high part is carried on. */
  lemma ShiftedLimb(x: nat, carry: nat, k: nat)
    requires 0 < k < 32 && x < BASE && carry < Pow2(k)
    ensures var v := BitOr(carry, ShiftLeft(x, k));
            && v < BASE && ShiftRight(x, 32 - k) < Pow2(k)
            && v + ShiftRight(x, 32 - k) * BASE == x * Pow2(k) + carry
  {
    hide Pow2, BitOr;
    var p, q := Pow2(k), Pow2(32 - k);
    Pow2Is32();
    Pow2Add(32 - k, k);
    DivModFacts(x, q);
    var h, l := x / q, x % q;
    QuotientBound(x, p, q);
    ModScale(x, q, p);
    OrDisjoint(carry, l, k);
    MulLe(l + 1, q, p);
    Distribute(l, 1, p);
    Distribute(h * q, l, p);
    MulAssoc(h, q, p);
  }

  /** The limbs of `r` above position `j` hold `low` plus the limbs of `a` above
      `i`, scaled by `m` and moved up by `s` limbs, up to the carry. */
  ghost predicate Raised(a: seq<nat>, r: seq<nat>, i: int, j: int, s: nat, m: nat, carry: nat, low: nat) {
    && -1 <= i < |a| && -1 <= j < |r| && |r| - 1 - j == |a| - 1 - i + s
    && LVal(r[j + 1..]) + carry * Weight(|r| - 1 - j) == low + LVal(a[i + 1..]) * m * Weight(s)
  }

  lemma RaiseStep(a: seq<nat>, r: seq<nat>, i: nat, j: nat, s: nat, m: nat, carry: nat, low: nat, v: nat, carry': nat)
    requires Raised(a, r, i, j, s, m, carry, low) && v + carry' * BASE == a[i] * m + carry
    ensures Raised(a, r[j := v], i - 1, j - 1, s, m, carry', low)
  {
    hide LVal, Weight;
    var w := Weight(|r| - 1 - j);
    var r' := r[j := v];
    assert r'[j + 1..] == r[j + 1..];
    LSuffix(r', j);
    LSuffix(a, i);
    WeightFacts(|r| - 1 - j);
    WeightAdd(|a| - 1 - i, s);
    RaiseArith(v, carry', a[i], m, carry, w, Weight(|a| - 1 - i), Weight(s), LVal(a[i + 1..]));
  }

  lemma RaiseArith(v: nat, c': nat, x: nat, m: nat, c: nat, w: nat, p: nat, t: nat, rest: nat)
    requires v + c' * BASE == x * m + c && w == p * t
    ensures v * w + c' * (w * BASE) + rest * m * t == c * w + (x * p + rest) * m * t
  {
    assert c' * (w * BASE) == c' * BASE * w;
    Distribute(v, c' * BASE, w);
    Distribute(x * m, c, w);
    Distribute(x * p, rest, m);
    Distribute(x * p * m, rest * m, t);
    assert x * p * m * t == x * m * (p * t) by {
      MulAssoc(x, p, m);
      MulAssoc(x, m, p);
      MulAssoc(x * m, p, t);
    }
  }

  lemma RaiseDone(w: nat, a: seq<nat>, r: seq<nat>, i: int, s: nat, k: nat, carry: nat)
    requires w > 0 && |a| == |r| == LenOf(w) && Raised(a, r, i, -1, s, Pow2(k), carry, 0)
    ensures LVal(r) % Pow2(w) == SllVal(w, LVal(a), 32 * s + k)
  {
    hide Pow2, LVal, Weight, SllVal;
    var m, t := Pow2(k), Weight(s);
    SliceEnds(r);
    LSplit(a, i + 1);
    var x, y := LVal(a[..i + 1]), LVal(a[i + 1..]);
    WeightAdd(|a| - 1 - i, s);
    var p := Weight(|a| - 1 - i);
    assert LVal(a) == x * p + y;
    RaiseTotal(x, p, y, m, t, Weight(|a|), carry, LVal(r));
    SllAsMod(w, LVal(a), s, k, LVal(r), x * m + carry);
  }

  lemma SllAsMod(w: nat, x: nat, s: nat, k: nat, low: nat, carry: nat)
    requires w > 0 && x * (Weight(s) * Pow2(k)) == low + carry * Weight(LenOf(w))
    ensures low % Pow2(w) == SllVal(w, x, 32 * s + k)
  {
    hide Pow2, Weight;
    WeightIs(s);
    Pow2Add(32 * s, k);
    DropCarry(w, low, carry, x * Pow2(32 * s + k));
  }

  lemma RaiseTotal(x: nat, p: nat, y: nat, m: nat, t: nat, w: nat, carry: nat, low: nat)
    requires w == p * t && low + carry * w == y * m * t
    ensures (x * p + y) * (t * m) == low + (x * m + carry) * w
  {
    SplitProduct(x, p, y, m, t);
    Distribute(x * m, carry, w);
  }

  lemma WeightIs(s: nat)
    ensures Weight(s) == Pow2(32 * s)
  {
  }

  lemma SplitProduct(x: nat, p: nat, y: nat, m: nat, t: nat)
    ensures (x * p + y) * (t * m) == x * m * (p * t) + y * m * t
  {
    Distribute(x * p, y, t * m);
    assert x * p * (t * m) == x * m * (p * t) by {
      MulAssoc(x, p, t * m);
      MulAssoc(x, m, p * t);
      assert p * (t * m) == m * (p * t) by { MulAssoc(p, t, m); }
    }
    assert y * (t * m) == y * m * t by { MulAssoc(y, m, t); }
  }

  /** Left shift by a machine word. */
  method SllUint64(a: BV, shift: nat) returns (res: BV)
    requires Wf(a)
    ensures IsBV(res, a.width, SllVal(a.width, Value(a), shift))
  {
    hide Pow2, LVal, Weight, BitOr, Raised, SllVal;
    var w := a.width;
    ValueBound(a);
    res := New(w);
    if shift >= w {
      ShiftOut(w, Value(a), shift);
      return;
    }
    var k, skip := shift % 32, shift / 32;
    var bits: seq<nat> := res.bits;
    var n := |bits|;
    WidthSplit(w);
    var i, j := n - 1, n - 1 - skip;
    var v: nat := 0;
    ghost var carry: nat := 0;
    StartRaise(a.bits, bits, skip, Pow2(k));
    Pow2Is2();
    while true
      invariant 0 <= j <= i < n == |bits| && i - j == skip && IsLimbs(bits)
      invariant Raised(a.bits, bits, i, j, skip, Pow2(k), carry, 0)
      invariant carry < Pow2(k) && (k != 0 ==> v == carry)
      decreases j
    {
      if k != 0 {
        ShiftedLimb(a.bits[i], v, k);
      }
      v := if k == 0 then a.bits[i] else BitOr(v, ShiftLeft(a.bits[i], k));
      ghost var carry' := if k == 0 then 0 else ShiftRight(a.bits[i], 32 - k);
      RaiseStep(a.bits, bits, i, j, skip, Pow2(k), carry, 0, v, carry');
      bits := bits[j := v];
      v := if k == 0 then a.bits[i] else ShiftRight(a.bits[i], 32 - k);
      carry := carry';
      if i == 0 || j == 0 {
        break;
      }
      i, j := i - 1, j - 1;
    }
    RaiseDone(w, a.bits, bits, i - 1, skip, k, carry);
    res := ClearSpare(w, bits);
  }

  lemma StartRaise(a: seq<nat>, r: seq<nat>, s: nat, m: nat)
    requires |a| == |r| && s < |r| && LVal(r) == 0 && a != []
    ensures Raised(a, r, |a| - 1, |r| - 1 - s, s, m, 0, 0)
  {
    hide Weight;
    LZero(r);
    SliceEnds(a);
    LZero(r[|r| - s..]);
  }

  // ---------------------------------------------------------------------------
  // Moving limbs down
  // ---------------------------------------------------------------------------

  /** One limb of a right shift by `k` bits. */
  lemma LoweredLimb(high: nat, x: nat, k: nat)
    requires 0 < k < 32 && x < BASE
    ensures var v := BitOr(high % Pow2(k) * Pow2(32 - k), ShiftRight(x, k));
            && v < BASE && SrlVal(high * BASE + x, k) == SrlVal(high, k) * BASE + v
    ensures ShiftLeft(x, 32 - k) == (high * BASE + x) % Pow2(k) * Pow2(32 - k)
  {
    hide Pow2, BitOr;
    var p, q := Pow2(k), Pow2(32 - k);
    Pow2Is32();
    Pow2Add(k, 32 - k);
    var hq: nat, hr: nat := high / p, high % p;
    var xq: nat, xr: nat := x / p, x % p;
    DivModFacts(high, p);
    DivModFacts(x, p);
    QuotientBound(x, q, p);
    OrDisjoint(xq, hr, 32 - k);
    OrCommutes(xq, hr * q);
    PartsFit(hr, xq, p, q);
    ModScale(x, p, q);
    LowerArith(high, hq, hr, x, xq, xr, p, q);
    DivModUnique(high * BASE + x, p, hq * BASE + (hr * q + xq), xr);
  }

  lemma PartsFit(h: nat, l: nat, p: nat, q: nat)
    requires h < p && l < q
    ensures h * q + l < p * q
  {
    MulLe(h + 1, p, q);
    Distribute(h, 1, q);
  }

  lemma LowerArith(high: nat, hq: nat, hr: nat, x: nat, xq: nat, xr: nat, p: nat, q: nat)
    requires high == hq * p + hr && x == xq * p + xr && p * q == BASE
    ensures high * BASE + x == (hq * BASE + (hr * q + xq)) * p + xr
  {
    Distribute(hq * p, hr, BASE);
    Distribute(hq * BASE, hr * q + xq, p);
    Distribute(hr * q, xq, p);
    assert hq * p * BASE == hq * BASE * p by { MulAssoc(hq, p, BASE); MulAssoc(hq, BASE, p); }
    assert hr * BASE == hr * q * p by { MulAssoc(hr, q, p); }
  }

  /** The limbs of `r` below `j` hold the first `i` limbs of `a`, shifted down. */
  ghost predicate Lowered(a: seq<nat>, r: seq<nat>, i: nat, j: nat, k: nat) {
    i <= |a| && j <= |r| && LVal(r[..j]) == SrlVal(LVal(a[..i]), k)
  }

  lemma LowerStep(a: seq<nat>, r: seq<nat>, i: nat, j: nat, k: nat, v: nat)
    requires i < |a| && j < |r| && Lowered(a, r, i, j, k)
    requires SrlVal(LVal(a[..i]) * BASE + a[i], k) == SrlVal(LVal(a[..i]), k) * BASE + v
    ensures Lowered(a, r[j := v], i + 1, j + 1, k) && LVal(a[..i + 1]) == LVal(a[..i]) * BASE + a[i]
  {
    hide LVal, SrlVal;
    var r' := r[j := v];
    assert r'[..j] == r[..j];
    PrefixSnoc(r', j);
    PrefixSnoc(a, i);
    LSnoc(r'[..j], v);
    LSnoc(a[..i], a[i]);
  }

  lemma LowerDone(a: seq<nat>, r: seq<nat>, s: nat, k: nat)
    requires |a| == |r| && s <= |a| && IsLimbs(a) && Lowered(a, r, |a| - s, |r|, k)
    ensures LVal(r) == SrlVal(LVal(a), 32 * s + k)
  {
    hide LVal, Pow2;
    SliceEnds(r);
    LSplit(a, |a| - s);
    LBound(a[|a| - s..]);
    WeightIs(s);
    DivModUnique(LVal(a), Weight(s), LVal(a[..|a| - s]), LVal(a[|a| - s..]));
    SrlCompose(LVal(a), 32 * s, k);
  }

  lemma StartLower(a: seq<nat>, r: seq<nat>, s: nat, k: nat)
    requires |a| == |r| && s <= |r| && LVal(r) == 0
    ensures Lowered(a, r, 0, s, k) && LVal(a[..0]) == 0
  {
    LZero(r);
    LZero(r[..s]);
    LZero([]);
    DivModUnique(0, Pow2(k), 0, 0);
  }

  /** Right shift by a machine word. */
  method SrlUint64(a: BV, shift: nat) returns (res: BV)
    requires Wf(a)
    ensures IsBV(res, a.width, SrlVal(Value(a), shift))
  {
    hide Pow2, LVal, Weight, BitOr, Lowered, SrlVal;
    var w := a.width;
    ValueBound(a);
    res := New(w);
    if shift >= w {
      ShiftOut(w, Value(a), shift);
      return;
    }
    var k, skip := shift % 32, shift / 32;
    var bits: seq<nat> := res.bits;
    var n := |bits|;
    WidthSplit(w);
    var i, j := 0, skip;
    var v: nat := 0;
    StartLower(a.bits, bits, skip, k);
    DivModUnique(0, Pow2(k), 0, 0);
    while i < n && j < n
      invariant 0 <= i <= j <= n == |bits| && j - i == skip && IsLimbs(bits)
      invariant Lowered(a.bits, bits, i, j, k)
      invariant k != 0 ==> v == LVal(a.bits[..i]) % Pow2(k) * Pow2(32 - k)
    {
      if k != 0 {
        LoweredLimb(LVal(a.bits[..i]), a.bits[i], k);
      } else {
        ShiftByNothing(LVal(a.bits[..i]), a.bits[i]);
      }
      v := if k == 0 then a.bits[i] else BitOr(v, ShiftRight(a.bits[i], k));
      LowerStep(a.bits, bits, i, j, k, v);
      bits := bits[j := v];
      v := if k == 0 then a.bits[i] else ShiftLeft(a.bits[i], 32 - k);
      i, j := i + 1, j + 1;
    }
    LowerDone(a.bits, bits, skip, k);
    SrlBound(w, Value(a), shift);
    Fits(w, bits);
    res := BV(w, bits);
  }

  lemma ShiftByNothing(high: nat, x: nat)
    ensures SrlVal(high * BASE + x, 0) == SrlVal(high, 0) * BASE + x
  {
  }

  // ---------------------------------------------------------------------------
  // Concatenation, extraction and extension
  // ---------------------------------------------------------------------------

  /** A longer vector that ends with the limbs of `b`. */
  method CopyLow(b: seq<nat>, n: nat) returns (bits: seq<nat>)
    requires IsLimbs(b) && |b| <= n
    ensures |bits| == n && IsLimbs(bits) && bits[n - |b|..] == b
  {
    hide IsLimbs, Zeros, LVal;
    bits := Zeros(n);
    ZerosValue(n);
    var i, j := |b| - 1, n - 1;
    SliceEnds(b);
    SliceEnds(bits);
    while i >= 0
      invariant -1 <= i < |b| && n == |bits| && j == i + (n - |b|) && IsLimbs(bits)
      invariant bits[j + 1..] == b[i + 1..]
    {
      CopyLimb(b, bits, i, j);
      StillLimbs(b, bits, i, j);
      bits := bits[j := b[i]];
      i, j := i - 1, j - 1;
    }
    SliceEnds(b);
  }

  lemma StillLimbs(b: seq<nat>, r: seq<nat>, i: nat, j: nat)
    requires IsLimbs(b) && IsLimbs(r) && i < |b| && j < |r|
    ensures IsLimbs(r[j := b[i]])
  {
  }

  lemma CopyLimb(b: seq<nat>, r: seq<nat>, i: nat, j: nat)
    requires i < |b| && j < |r| && r[j + 1..] == b[i + 1..]
    ensures r[j := b[i]][j..] == b[i..]
  {
    var r' := r[j := b[i]];
    assert r'[j + 1..] == r[j + 1..];
    SuffixCons(r', j);
    SuffixCons(b, i);
  }

  /** The upper limbs, when the lower part fills its limbs. */
  method ConcatAligned(a: seq<nat>, b: seq<nat>, low: seq<nat>) returns (bits: seq<nat>)
    requires IsLimbs(a) && IsLimbs(low) && |low| == |a| + |b| && low[|a|..] == b
    ensures bits == a + b
  {
    bits := low;
    var i := |a| - 1;
    SliceEnds(a);
    while i >= 0
      invariant -1 <= i < |a| && |bits| == |low| && bits[i + 1..] == a[i + 1..] + b
    {
      CopyLimbs(a, b, bits, i);
      bits := bits[i := a[i]];
      i := i - 1;
    }
    SliceEnds(a);
    SliceEnds(bits);
  }

  lemma CopyLimbs(a: seq<nat>, b: seq<nat>, r: seq<nat>, i: nat)
    requires i < |a| && i < |r| && r[i + 1..] == a[i + 1..] + b
    ensures r[i := a[i]][i..] == a[i..] + b
  {
    var r' := r[i := a[i]];
    assert r'[i + 1..] == r[i + 1..];
    SuffixCons(r', i);
    SuffixCons(a, i);
  }

  /** The upper limbs, shifted by `k` bits into the first limb of the lower part. */
  method ConcatShifted(a: seq<nat>, k: nat, s: nat, ghost total: nat, low: seq<nat>, start: nat)
    returns (bits: seq<nat>, j: int, v: nat)
    requires 0 < k < 32 && IsLimbs(a) && IsLimbs(low) && |a| <= start + 1 <= |low| && low[start] < Pow2(k)
    requires a != [] && Raised(a, low, |a| - 1, start, s, Pow2(k), low[start], total)
    ensures |bits| == |low| && IsLimbs(bits) && j == start - |a| && v < Pow2(k)
    ensures Raised(a, bits, -1, j, s, Pow2(k), v, total)
  {
    hide Pow2, LVal, Weight, BitOr, Raised;
    bits, j, v := low, start, low[start];
    var i := |a| - 1;
    while i >= 0
      invariant -1 <= i < |a| && |bits| == |low| && j == start - |a| + 1 + i && IsLimbs(bits)
      invariant Raised(a, bits, i, j, s, Pow2(k), v, total) && v < Pow2(k)
    {
      ShiftedLimb(a[i], v, k);
      var limb, carry := BitOr(v, ShiftLeft(a[i], k)), ShiftRight(a[i], 32 - k);
      RaiseStep(a, bits, i, j, s, Pow2(k), v, total, limb, carry);
      bits := bits[j := limb];
      v := carry;
      i, j := i - 1, j - 1;
    }
  }

  /** `a` becomes the high part, `b` the low part. */
  method Concat(a: BV, b: BV) returns (res: BV)
    requires Wf(a) && Wf(b)
    ensures IsBV(res, a.width + b.width, Value(a) * Pow2(b.width) + Value(b))
  {
    hide Pow2, LVal, Weight, Raised, LenOf;
    var w := a.width + b.width;
    ConcatLens(a.width, b.width);
    ConcatFits(a, b);
    var n, k := LenOf(w), b.width % 32;
    var low := CopyLow(b.bits, n);
    var bits;
    if k == 0 {
      bits := ConcatAligned(a.bits, b.bits, low);
      AlignedValue(a, b);
    } else {
      var start := n - |b.bits|;
      var j, v;
      StartConcat(a.bits, b, low, start);
      bits, j, v := ConcatShifted(a.bits, k, |b.bits| - 1, Value(b), low, start);
      ConcatEnd(a, b, bits, j, k, v);
      if j == 0 {
        bits := bits[0 := v];
      }
    }
    Fits(w, bits);
    res := BV(w, bits);
  }

  lemma ConcatLens(wa: nat, wb: nat)
    requires wa > 0 && wb > 0
    ensures LenOf(wa) > 0 && LenOf(wb) > 0
    ensures wb % 32 == 0 ==> LenOf(wa + wb) == LenOf(wa) + LenOf(wb) && wb == 32 * LenOf(wb)
    ensures wb % 32 > 0 ==> wb == 32 * (LenOf(wb) - 1) + wb % 32
    ensures wb % 32 > 0 ==> LenOf(wa + wb) == LenOf(wa) + LenOf(wb) || LenOf(wa + wb) == LenOf(wa) + LenOf(wb) - 1
  {
  }

  lemma AlignedValue(a: BV, b: BV)
    requires Wf(a) && Wf(b) && b.width == 32 * |b.bits|
    ensures IsLimbs(a.bits + b.bits) && LVal(a.bits + b.bits) == Value(a) * Pow2(b.width) + Value(b)
  {
    hide Pow2, LVal;
    LConcat(a.bits, b.bits);
    WeightIs(|b.bits|);
  }

  lemma ConcatFits(a: BV, b: BV)
    requires Wf(a) && Wf(b)
    ensures Value(a) * Pow2(b.width) + Value(b) < Pow2(a.width + b.width)
  {
    hide Pow2, LVal;
    ValueBound(a);
    ValueBound(b);
    Pow2Add(a.width, b.width);
    PartsFit(Value(a), Value(b), Pow2(a.width), Pow2(b.width));
  }

  lemma StartConcat(a: seq<nat>, b: BV, r: seq<nat>, j: nat)
    requires Wf(b) && b.width % 32 > 0 && a != [] && j < |r| && r[j..] == b.bits
    ensures Raised(a, r, |a| - 1, j, |b.bits| - 1, Pow2(b.width % 32), r[j], Value(b)) && r[j] < Pow2(b.width % 32)
  {
    hide Pow2, Weight;
    SliceEnds(a);
    LZero([]);
    LSuffix(r, j);
    assert r[j] == b.bits[0];
  }

  /** The limbs and the last carry are the concatenation; without room for the
      carry it is zero. */
  lemma ConcatEnd(a: BV, b: BV, r: seq<nat>, j: int, k: nat, v: nat)
    requires Wf(a) && Wf(b) && k == b.width % 32 > 0 && |r| == LenOf(a.width + b.width) && IsLimbs(r)
    requires Raised(a.bits, r, -1, j, |b.bits| - 1, Pow2(k), v, Value(b)) && v < Pow2(k)
    ensures j == -1 || j == 0
    ensures v < BASE
    ensures j == 0 ==> r != [] && LVal(r[0 := v]) == Value(a) * Pow2(b.width) + Value(b)
    ensures j == -1 ==> LVal(r) == Value(a) * Pow2(b.width) + Value(b)
  {
    hide Pow2, LVal, Weight, LenOf;
    ConcatLens(a.width, b.width);
    Pow2Is32();
    Pow2Mono(k, 32);
    var s, total := |b.bits| - 1, Value(a) * Pow2(b.width) + Value(b);
    SliceEnds(a.bits);
    ScaledHigh(Value(a), k, s);
    ConcatFits(a, b);
    LessThanWeight(a.width + b.width);
    if j == 0 {
      CarryStored(r, v, total);
    } else {
      CarryLost(r, v, total);
    }
  }

  lemma ScaledHigh(x: nat, k: nat, s: nat)
    ensures x * Pow2(k) * Weight(s) == x * Pow2(32 * s + k)
  {
    hide Pow2;
    WeightIs(s);
    Pow2Add(k, 32 * s);
    MulAssoc(x, Pow2(k), Weight(s));
  }

  lemma CarryStored(r: seq<nat>, v: nat, total: nat)
    requires r != [] && LVal(r[1..]) + v * Weight(|r| - 1) == total
    ensures LVal(r[0 := v]) == total
  {
    hide LVal, Weight;
    var r' := r[0 := v];
    LSuffix(r', 0);
    SliceEnds(r');
    assert r'[1..] == r[1..];
  }

  lemma CarryLost(r: seq<nat>, v: nat, total: nat)
    requires LVal(r[0..]) + v * Weight(|r|) == total < Weight(|r|)
    ensures LVal(r) == total
  {
    hide LVal, Weight;
    SliceEnds(r);
    NoCarry(v, Weight(|r|), LVal(r), total);
  }

  lemma LessThanWeight(w: nat)
    requires w > 0
    ensures Pow2(w) <= Weight(LenOf(w))
  {
    WeightOverWidth(w);
    Pow2Mono(w, 32 * LenOf(w));
  }

  lemma NoCarry(v: nat, p: nat, low: nat, total: nat)
    requires low + v * p == total && total < p
    ensures v == 0
  {
    if v > 0 {
      MulLe(1, v, p);
    }
  }

  /** The bits from `lower` to `upper`. */
  ghost function SliceVal(x: nat, upper: nat, lower: nat): nat
    requires lower <= upper
  {
    Quotient(x, Pow2(lower)) % Pow2(upper - lower + 1)
  }

  lemma SliceStep(x: nat, j: nat, bit: bool)
    requires bit == TestBit(x, j)
    ensures x % Pow2(j) < Pow2(j + 1) && !TestBit(x % Pow2(j), j)
    ensures WithBit(x % Pow2(j), j, bit) == x % Pow2(j + 1)
  {
    hide Pow2;
    var p := Pow2(j);
    Pow2Unfold(j + 1);
    var k, b, u := BitParts(x, p, 2 * p);
    DivModUnique(x, 2 * p, k, b * p + u);
    assert b == 0 || b == 1;
    ParityPart(k, b, u, p);
    DivModUnique(u, p, 0, u);
  }

  lemma ParityPart(k: nat, b: nat, u: nat, p: nat)
    requires u < p
    ensures (k * (2 * p) + (b * p + u)) % p == u
  {
    assert k * (2 * p) + (b * p + u) == (2 * k + b) * p + u by {
      Distribute(2 * k, b, p);
      assert 2 * k * p == k * (2 * p);
    }
    DivModUnique(k * (2 * p) + (b * p + u), p, 2 * k + b, u);
  }

  lemma BitAbove(x: nat, lower: nat, j: nat)
    ensures TestBit(x, lower + j) == TestBit(Quotient(x, Pow2(lower)), j)
  {
    hide Pow2;
    Pow2Add(lower, j);
    DivDiv(x, Pow2(lower), Pow2(j));
  }

  /** Extraction, one bit after the other. */
  method Slice(v: BV, upper: nat, lower: nat) returns (res: BV)
    requires Wf(v) && lower <= upper < v.width
    ensures IsBV(res, upper - lower + 1, SliceVal(Value(v), upper, lower))
  {
    hide Pow2, LVal, WithBit, TestBit;
    res := New(upper - lower + 1);
    ghost var x := Quotient(Value(v), Pow2(lower));
    var i, j := lower, 0;
    Pow2Is2();
    while i <= upper
      invariant lower <= i <= upper + 1 && j == i - lower
      invariant IsBV(res, upper - lower + 1, x % Pow2(j))
    {
      GetBitIs(v, i);
      BitAbove(Value(v), lower, j);
      SliceStep(x, j, GetBit(v, i));
      res := SetBit(res, j, GetBit(v, i));
      i, j := i + 1, j + 1;
    }
  }

  /** Zero extension: the limbs move to the end of a longer vector. */
  method Uext(v: BV, len: nat) returns (res: BV)
    requires Wf(v)
    ensures IsBV(res, v.width + len, Value(v))
  {
    hide Pow2, LVal, Weight;
    if len == 0 {
      return v;
    }
    var w := v.width + len;
    var n := LenOf(w) - LenOf(v.width);
    var bits := Zeros(n) + v.bits;
    ZerosValue(n);
    LConcat(Zeros(n), v.bits);
    ValueBound(v);
    Pow2Mono(v.width, w);
    Fits(w, bits);
    res := BV(w, bits);
  }

  /** The value of a vector in two's complement. */
  ghost function Signed(w: nat, x: nat): int {
    if w > 0 && x >= Pow2(w - 1) then x - Pow2(w) else x
  }

  /** The highest bit tells the sign. */
  lemma SignBit(v: BV)
    requires Wf(v)
    ensures (v.width - 1) / 32 < |v.bits|
    ensures GetBit(v, v.width - 1) <==> Value(v) >= Pow2(v.width - 1)
  {
    hide Pow2, LVal;
    GetBitIs(v, v.width - 1);
    ValueBound(v);
    Pow2Unfold(v.width);
    var p := Pow2(v.width - 1);
    if Value(v) >= p {
      DivModUnique(Value(v), p, 1, Value(v) - p);
    } else {
      DivModUnique(Value(v), p, 0, Value(v));
    }
  }

  /** Sign extension keeps the signed value. */
  method Sext(v: BV, len: nat) returns (res: BV)
    requires Wf(v)
    ensures Wf(res) && res.width == v.width + len
    ensures Signed(res.width, Value(res)) == Signed(v.width, Value(v))
  {
    hide Pow2, LVal;
    if len == 0 {
      return v;
    }
    SignBit(v);
    ValueBound(v);
    var tmp := New(len);
    if GetBit(v, v.width - 1) {
      tmp := Not(tmp);
    }
    res := Concat(tmp, v);
    ExtendSign(v.width, len, Value(v));
  }

  lemma ExtendSign(w: nat, len: nat, x: nat)
    requires w > 0 && len > 0 && x < Pow2(w)
    ensures x >= Pow2(w - 1) ==> Signed(w + len, (Pow2(len) - 1) * Pow2(w) + x) == Signed(w, x)
    ensures x < Pow2(w - 1) ==> Signed(w + len, 0 * Pow2(w) + x) == Signed(w, x)
  {
    hide Pow2;
    Pow2Unfold(w);
    Pow2Unfold(w + len);
    Pow2Unfold(len);
    Pow2Add(len, w);
    Pow2Add(len - 1, w);
    Pow2Mono(w - 1, w + len - 1);
    Distribute(Pow2(len) - 1, 1, Pow2(w));
    MulLe(1, Pow2(len - 1), Pow2(w));
  }

  // ---------------------------------------------------------------------------
  // Leading zeros and ones
  // ---------------------------------------------------------------------------

  /** Exactly `z` of the `w` bits of `x`, from the top, are zero. */
  ghost predicate LeadingZeros(x: nat, w: nat, z: nat) {
    z <= w && x < Pow2(w - z) && (z < w ==> x >= Pow2(w - z - 1))
  }

  /** The number of leading zeros of a limb that is not zero. */
  method ClzLimb(limb: nat) returns (res: nat)
    requires 0 < limb < BASE
    ensures res < 32 && Pow2(31 - res) <= limb < Pow2(32 - res)
  {
    hide Pow2, BitAnd;
    Pow2Is2();
    Pow2Is32();
    var w, mask := 0, 0;
    while w < 32
      invariant 0 <= w <= 32 && mask == Pow2(w) - 1 && limb >= Pow2(w)
    {
      mask := mask + Pow2(w);
      Pow2Unfold(w + 1);
      Pow2Mono(w + 1, 32);
      AndHighMask(limb, 32, w + 1);
      DivModFacts(limb, Pow2(w + 1));
      SmallIffNoHighPart(limb, Pow2(w + 1));
      if BitAnd(limb, Complement(mask)) == 0 {
        break;
      }
      w := w + 1;
    }
    res := 31 - w;
  }

  lemma SmallIffNoHighPart(x: nat, p: nat)
    requires p > 0
    ensures x - x % p == 0 <==> x < p
  {
    if x < p {
      DivModUnique(x, p, 0, x);
    }
  }

  /** The limbs whose leading zeros are counted: those of the vector, or those of
      its complement when ones are counted. */
  ghost function CountedLimb(v: BV, zeros: bool, i: nat): nat
    requires i < |v.bits|
  {
    if zeros then v.bits[i]
    else if i == 0 && v.width % 32 > 0 then Monus(Pow2(v.width % 32) - 1, v.bits[0])
    else Monus(BASE - 1, v.bits[i])
  }

  ghost function Monus(x: nat, y: nat): nat {
    if y <= x then x - y else 0
  }

  ghost function CountedLimbs(v: BV, zeros: bool): seq<nat> {
    seq(|v.bits|, i requires 0 <= i < |v.bits| => CountedLimb(v, zeros, i))
  }

  ghost function CountedValue(v: BV, zeros: bool): nat {
    if zeros then Value(v) else Monus(Pow2(v.width) - 1, Value(v))
  }

  /** The limbs that are searched have the value that is searched. */
  lemma CountedOk(v: BV, zeros: bool)
    requires Wf(v)
    ensures IsLimbs(CountedLimbs(v, zeros)) && LVal(CountedLimbs(v, zeros)) == CountedValue(v, zeros)
  {
    hide Pow2, LVal, Weight;
    var c := CountedLimbs(v, zeros);
    var r := v.width % 32;
    if zeros {
      assert c == v.bits;
    } else {
      Pow2Is32();
      Pow2Mono(r, 32);
      WidthSplit(v.width);
      ValueBound(v);
      if r == 0 {
        ComplementValue(v.bits, c);
      } else {
        LSuffix(v.bits, 0);
        LSuffix(c, 0);
        SliceEnds(v.bits);
        SliceEnds(c);
        ComplementValue(v.bits[1..], c[1..]);
        var w := Weight(|c| - 1);
        Distribute(Pow2(r) - 1 - v.bits[0], v.bits[0], w);
        Distribute(Pow2(r) - 1, 1, w);
      }
    }
  }

  lemma MaskedComplement(x: nat, r: nat)
    requires 0 < r < 32 && x < Pow2(r)
    ensures ShiftLeft(BASE - 1, r) < BASE && BitOr(x, ShiftLeft(BASE - 1, r)) < BASE
    ensures Complement(BitOr(x, ShiftLeft(BASE - 1, r))) == Pow2(r) - 1 - x
  {
    hide Pow2, BitOr;
    var p, q := Pow2(r), Pow2(32 - r);
    Pow2Is32();
    Pow2Add(32 - r, r);
    Distribute(q - 1, 1, p);
    Distribute(BASE - 1, 1, p);
    DivModUnique((BASE - 1) * p, BASE, p - 1, BASE - p);
    assert (p - 1) * BASE == BASE * p - BASE by { Distribute(p - 1, 1, BASE); }
    OrDisjoint(x, q - 1, r);
  }

  /** The first limb that is not zero, and the number of limbs from there on. */
  method GetLimb(v: BV, nbitsRem: nat, zeros: bool) returns (limb: nat, n: nat)
    requires Wf(v) && nbitsRem == v.width % 32
    ensures n <= |v.bits| && forall k :: 0 <= k < |v.bits| - n ==> CountedLimb(v, zeros, k) == 0
    ensures n > 0 ==> limb > 0 && limb == CountedLimb(v, zeros, |v.bits| - n)
  {
    hide Pow2, BitOr;
    limb := 0;
    var i := 0;
    if zeros {
      while i < |v.bits|
        invariant 0 <= i <= |v.bits| && forall k :: 0 <= k < i ==> CountedLimb(v, zeros, k) == 0
      {
        limb := v.bits[i];
        if limb > 0 {
          break;
        }
        i := i + 1;
      }
    } else {
      var mask := ShiftLeft(BASE - 1, nbitsRem);
      while i < |v.bits|
        invariant 0 <= i <= |v.bits| && forall k :: 0 <= k < i ==> CountedLimb(v, zeros, k) == 0
      {
        limb := v.bits[i];
        if nbitsRem > 0 && i == 0 {
          MaskedComplement(limb, nbitsRem);
          limb := BitOr(limb, mask);
        }
        limb := Complement(limb);
        if limb > 0 {
          break;
        }
        i := i + 1;
      }
    }
    n := |v.bits| - i;
  }

  /** The value, from its first limb that is not zero. */
  lemma LeadingLimb(c: seq<nat>, n: nat)
    requires IsLimbs(c) && 0 < n <= |c| && forall k :: 0 <= k < |c| - n ==> c[k] == 0
    ensures c[|c| - n] * Weight(n - 1) <= LVal(c) < (c[|c| - n] + 1) * Weight(n - 1)
  {
    hide LVal, Weight;
    var m := |c| - n;
    LSplit(c, m);
    LZero(c[..m]);
    LSuffix(c, m);
    LBound(c[m + 1..]);
    Distribute(c[m], 1, Weight(n - 1));
  }

  lemma LeadingBits(x: nat, limb: nat, n: nat, z: nat)
    requires n > 0 && z < 32 && Pow2(31 - z) <= limb < Pow2(32 - z)
    requires limb * Weight(n - 1) <= x < (limb + 1) * Weight(n - 1)
    ensures Pow2(32 * n - z - 1) <= x < Pow2(32 * n - z)
  {
    hide Pow2, Weight;
    WeightIs(n - 1);
    Pow2Add(31 - z, 32 * (n - 1));
    Pow2Add(32 - z, 32 * (n - 1));
    MulLe(Pow2(31 - z), limb, Weight(n - 1));
    MulLe(limb + 1, Pow2(32 - z), Weight(n - 1));
  }

  /** The number of leading zeros, or of leading ones. */
  method GetNumLeading(v: BV, zeros: bool) returns (res: nat)
    requires Wf(v)
    ensures LeadingZeros(CountedValue(v, zeros), v.width, res)
  {
    hide Pow2, LVal, Weight, CountedLimb, CountedValue;
    var nbitsRem := v.width % 32;
    var limb, n := GetLimb(v, nbitsRem, zeros);
    ghost var c := CountedLimbs(v, zeros);
    CountedOk(v, zeros);
    Pow2Is2();
    if n == 0 {
      LZero(c);
      return v.width;
    }
    assert c[|c| - n] == limb;
    var z := ClzLimb(limb);
    LeadingLimb(c, n);
    LeadingBits(LVal(c), limb, n, z);
    CountedFits(v, zeros);
    NotBeyond(LVal(c), v.width, 32 * n - z - 1);
    var total := v.width / 32 + 1;
    var pad := 32 - nbitsRem;
    res := z + (total - n) * 32 - pad;
  }

  lemma CountedFits(v: BV, zeros: bool)
    requires Wf(v)
    ensures CountedValue(v, zeros) < Pow2(v.width)
  {
    hide Pow2;
    ValueBound(v);
  }

  lemma NotBeyond(x: nat, w: nat, m: nat)
    requires Pow2(m) <= x < Pow2(w)
    ensures m < w
  {
    if m >= w {
      Pow2Mono(w, m);
    }
  }

  // ---------------------------------------------------------------------------
  // Shifts by vectors
  // ---------------------------------------------------------------------------

  /** The shift amount, if it fits a machine word. */
  method ShiftIsUint64(b: BV) returns (fits: bool, res: nat)
    requires Wf(b)
    ensures fits <==> Value(b) < U64
    ensures fits ==> res == Value(b)
  {
    hide Pow2, LVal;
    U64Facts();
    ValueBound(b);
    if b.width <= 64 {
      Pow2Mono(b.width, 64);
      res := ToUint64(b);
      return true, res;
    }
    var zeroes := GetNumLeading(b, true);
    if zeroes < b.width - 64 {
      Pow2Mono(64, b.width - zeroes - 1);
      return false, 0;
    }
    Pow2Mono(b.width - zeroes, 64);
    var upper := if zeroes < b.width then b.width - 1 - zeroes else 0;
    var shift := Slice(b, upper, 0);
    Pow2Is2();
    WholeSlice(Value(b), upper);
    res := ToUint64(shift);
    fits := true;
  }

  lemma WholeSlice(x: nat, upper: nat)
    requires x < Pow2(upper + 1)
    ensures SliceVal(x, upper, 0) == x
  {
    hide Pow2;
    Pow2Is2();
    DivModUnique(x, 1, x, 0);
    DivModUnique(x, Pow2(upper + 1), 0, x);
  }

  /** Logical left shift.  Widths are 32-bit numbers, so an amount that does not
      fit a machine word shifts everything out. */
  method Sll(a: BV, b: BV) returns (res: BV)
    requires Wf(a) && Wf(b) && a.width == b.width < BASE
    ensures IsBV(res, a.width, SllVal(a.width, Value(a), Value(b)))
  {
    hide Pow2, LVal, SllVal;
    var fits, amount := ShiftIsUint64(b);
    if fits {
      res := SllUint64(a, amount);
    } else {
      ValueBound(a);
      ShiftOut(a.width, Value(a), Value(b));
      res := New(a.width);
    }
  }

  /** Logical right shift. */
  method Srl(a: BV, b: BV) returns (res: BV)
    requires Wf(a) && Wf(b) && a.width == b.width < BASE
    ensures IsBV(res, a.width, SrlVal(Value(a), Value(b)))
  {
    hide Pow2, LVal, SrlVal;
    var fits, amount := ShiftIsUint64(b);
    if fits {
      res := SrlUint64(a, amount);
    } else {
      ValueBound(a);
      ShiftOut(a.width, Value(a), Value(b));
      res := New(a.width);
    }
  }

  /** Arithmetic right shift: the signed value divided by a power of two,
      rounded down, modulo `2^w`. */
  ghost function SraVal(w: nat, x: nat, s: nat): int {
    (Signed(w, x) / Pow2(s)) % Pow2(w)
  }

  method Sra(a: BV, b: BV) returns (res: BV)
    requires Wf(a) && Wf(b) && a.width == b.width < BASE
    ensures Wf(res) && res.width == a.width && Value(res) == SraVal(a.width, Value(a), Value(b))
  {
    hide Pow2, LVal, SrlVal;
    SignBit(a);
    ValueBound(a);
    if GetBit(a, a.width - 1) {
      var notA := Not(a);
      var shifted := Srl(notA, b);
      res := Not(shifted);
      SraNegative(a.width, Value(a), Value(b));
    } else {
      res := Srl(a, b);
      SrlBound(a.width, Value(a), Value(b));
      SraPositive(a.width, Value(a), Value(b));
    }
  }

  lemma SraPositive(w: nat, x: nat, s: nat)
    requires w > 0 && x < Pow2(w - 1)
    ensures SraVal(w, x, s) == SrlVal(x, s)
  {
    hide Pow2;
    Pow2Mono(w - 1, w);
    SrlBound(w, x, s);
    DivModUnique(SrlVal(x, s), Pow2(w), 0, SrlVal(x, s));
  }

  /** Complementing, shifting in zeros and complementing back shifts in ones. */
  lemma SraNegative(w: nat, x: nat, s: nat)
    requires w > 0 && Pow2(w - 1) <= x < Pow2(w)
    ensures SraVal(w, x, s) == Pow2(w) - 1 - SrlVal(Pow2(w) - 1 - x, s)
  {
    hide Pow2;
    var p, y := Pow2(s), Pow2(w) - 1 - x;
    DivModFacts(y, p);
    var q, r := y / p, y % p;
    FloorNegative(y, p);
    SrlBound(w, y, s);
    NegativeMod(q + 1, Pow2(w));
  }

  lemma FloorNegative(y: nat, p: nat)
    requires p > 0
    ensures (-1 - y) / p == -1 - y / p
  {
    DivModFacts(y, p);
    var q, r := y / p, y % p;
    Distribute(-1 - q, q, p);
    Distribute(-1, -q, p);
    IntDivUnique(-1 - y, p, -1 - q, p - 1 - r);
  }

  /** Division rounds down, also for negative numbers. */
  lemma IntDivUnique(a: int, d: nat, q: int, r: nat)
    requires a == q * d + r && r < d
    ensures a / d == q
  {
    var q', r' := a / d, a % d;
    assert a == q' * d + r';
    Distribute(q, -q', d);
    if q' < q {
      BelowMultiple(q - q', d);
    } else if q < q' {
      BelowMultiple(q' - q, d);
    }
  }

  lemma BelowMultiple(k: int, d: nat)
    requires k >= 1
    ensures k * d >= d
  {
    Distribute(k - 1, 1, d);
    MulLe(0, k - 1, d);
  }

  lemma NegativeMod(q: int, p: int)
    requires 0 < q <= p
    ensures (-q) % p == p - q
  {
  }
}
