/** Bit-vectors on 32-bit limbs, most significant limb first, with the spare
    bits of the first limb zero. */
module BitVectors {
  import opened Bits
  import opened Limbs

  datatype BV = BV(width: nat, bits: seq<nat>)

  /** The number of limbs of a width. */
  function LenOf(w: nat): nat {
    w / 32 + if w % 32 > 0 then 1 else 0
  }

  ghost predicate SpareZero(w: nat, bits: seq<nat>) {
    w % 32 > 0 && bits != [] ==> bits[0] < Pow2(w % 32)
  }

  ghost predicate Wf(v: BV) {
    v.width > 0 && |v.bits| == LenOf(v.width) && IsLimbs(v.bits) && SpareZero(v.width, v.bits)
  }

  ghost function Value(v: BV): nat {
    LVal(v.bits)
  }

  /** A well-formed vector of this width and value. */
  ghost predicate IsBV(v: BV, w: nat, x: nat) {
    Wf(v) && v.width == w && Value(v) == x
  }

  // ---------------------------------------------------------------------------
  // Widths, limbs and spare bits
  // ---------------------------------------------------------------------------

  lemma WidthSplit(w: nat)
    requires w > 0
    ensures LenOf(w) > 0
    ensures if w % 32 > 0 then w == 32 * (LenOf(w) - 1) + w % 32 else w == 32 * LenOf(w)
    ensures Pow2(w) == if w % 32 > 0 then Pow2(w % 32) * Weight(LenOf(w) - 1) else Weight(LenOf(w))
  {
    hide Pow2;
    if w % 32 > 0 {
      Pow2Add(w % 32, 32 * (LenOf(w) - 1));
    }
  }

  /** The spare bits are zero exactly when the value fits the width. */
  lemma SpareIffFits(w: nat, bits: seq<nat>)
    requires w > 0 && |bits| == LenOf(w) && IsLimbs(bits)
    ensures SpareZero(w, bits) <==> LVal(bits) < Pow2(w)
  {
    hide Pow2, LVal, Weight;
    WidthSplit(w);
    LBound(bits);
    if w % 32 > 0 {
      var n := |bits| - 1;
      LSuffix(bits, 0);
      SliceEnds(bits);
      LBound(bits[1..]);
      if bits[0] < Pow2(w % 32) {
        MulLe(bits[0] + 1, Pow2(w % 32), Weight(n));
        Distribute(bits[0], 1, Weight(n));
      } else {
        MulLe(Pow2(w % 32), bits[0], Weight(n));
      }
    }
  }

  lemma ValueBound(v: BV)
    requires Wf(v)
    ensures Value(v) < Pow2(v.width)
  {
    SpareIffFits(v.width, v.bits);
  }

  lemma Fits(w: nat, bits: seq<nat>)
    requires w > 0 && |bits| == LenOf(w) && IsLimbs(bits) && LVal(bits) < Pow2(w)
    ensures Wf(BV(w, bits))
  {
    SpareIffFits(w, bits);
  }

  /** What is carried out of the limbs is lost by the width, too. */
  lemma DropCarry(w: nat, low: nat, carry: nat, total: nat)
    requires w > 0 && total == low + carry * Weight(LenOf(w))
    ensures low % Pow2(w) == total % Pow2(w)
  {
    hide Pow2, Weight;
    var k := 32 * LenOf(w) - w;
    WeightOverWidth(w);
    MulAssoc(carry, Pow2(k), Pow2(w));
    ModOfMultiple(carry * Pow2(k), Pow2(w), low);
  }

  lemma WeightOverWidth(w: nat)
    requires w > 0
    ensures w <= 32 * LenOf(w) && Weight(LenOf(w)) == Pow2(32 * LenOf(w) - w) * Pow2(w)
  {
    hide Pow2;
    Pow2Add(32 * LenOf(w) - w, w);
  }

  /** Masks the spare bits of the first limb: reduces the value modulo `2^w`. */
  method ClearSpare(w: nat, bits: seq<nat>) returns (res: BV)
    requires w > 0 && |bits| == LenOf(w) && IsLimbs(bits)
    ensures IsBV(res, w, LVal(bits) % Pow2(w))
  {
    hide Pow2, LVal, Weight, BitAnd;
    var out := bits;
    WidthSplit(w);
    if w != 32 * |bits| {
      var r := w % 32;
      MaskValue(r);
      out := out[0 := BitAnd(out[0], ShiftRight(Pow2(31) - 1, 31 - r))];
      AndMask(bits[0], r);
      ClearedValue(w, bits, out);
      ModLe(bits[0], Pow2(r));
    } else {
      LBound(bits);
      DivModUnique(LVal(bits), Pow2(w), 0, LVal(bits));
    }
    res := BV(w, out);
    DivModFacts(LVal(bits), Pow2(w));
    Fits(w, out);
  }

  lemma ModLe(x: nat, p: nat)
    requires p > 0
    ensures x % p <= x
  {
  }

  /** The mask of the source is `2^r - 1`. */
  lemma MaskValue(r: nat)
    requires 0 < r < 32
    ensures Pow2(31) > 0 && ShiftRight(Pow2(31) - 1, 31 - r) == Pow2(r) - 1
  {
    hide Pow2;
    var p, q := Pow2(31 - r), Pow2(r);
    Pow2Add(r, 31 - r);
    Distribute(q - 1, 1, p);
    DivModUnique(q * p - 1, p, q - 1, p - 1);
  }

  lemma ClearedValue(w: nat, bits: seq<nat>, out: seq<nat>)
    requires w % 32 > 0 && |bits| == LenOf(w) && IsLimbs(bits) && out == bits[0 := bits[0] % Pow2(w % 32)]
    ensures LVal(out) == LVal(bits) % Pow2(w)
  {
    hide Pow2, LVal, Weight;
    WidthSplit(w);
    LSuffix(bits, 0);
    LSuffix(out, 0);
    SliceEnds(bits);
    SliceEnds(out);
    assert out[1..] == bits[1..];
    LBound(bits[1..]);
    ScaleMod(bits[0], Weight(|bits| - 1), Pow2(w % 32), LVal(bits[1..]));
  }

  function Zeros(n: nat): seq<nat> {
    seq(n, _ => 0)
  }

  lemma ZerosValue(n: nat)
    ensures |Zeros(n)| == n && IsLimbs(Zeros(n)) && LVal(Zeros(n)) == 0
  {
    LZero(Zeros(n));
  }

  /** The zero vector. */
  method New(w: nat) returns (res: BV)
    requires w > 0
    ensures IsBV(res, w, 0)
  {
    ZerosValue(LenOf(w));
    res := BV(w, Zeros(LenOf(w)));
    Fits(w, res.bits);
  }

  // ---------------------------------------------------------------------------
  // Machine words
  // ---------------------------------------------------------------------------

  const U64: nat := 0x1_0000_0000_0000_0000

  lemma U64Facts()
    ensures U64 == BASE * BASE && Weight(2) == U64 && Pow2(64) == U64
  {
    hide Pow2;
    Pow2Is32();
    Pow2Add(32, 32);
  }

  /** The low limbs of a machine word, cut to the width. */
  method FromUint64(value: nat, w: nat) returns (res: BV)
    requires value < U64 && w > 0
    ensures IsBV(res, w, value % Pow2(w))
  {
    hide Pow2, LVal, Weight;
    var bits := Zeros(LenOf(w));
    var n := |bits|;
    WidthSplit(w);
    bits := bits[n - 1 := value % BASE];
    if w > 32 {
      bits := bits[n - 2 := ShiftRight(value, 32) % BASE];
    }
    WordLimbs(value, w, bits);
    res := ClearSpare(w, bits);
  }

  lemma WordLimbs(value: nat, w: nat, bits: seq<nat>)
    requires value < U64 && w > 0 && |bits| == LenOf(w)
    requires w <= 32 ==> bits == [value % BASE]
    requires w > 32 ==> bits == Zeros(LenOf(w) - 2) + [ShiftRight(value, 32) % BASE, value % BASE]
    ensures IsLimbs(bits) && LVal(bits) % Pow2(w) == value % Pow2(w)
  {
    hide Pow2, LVal, Weight;
    Pow2Is32();
    DivModFacts(value, BASE);
    var hi, lo := value / BASE, value % BASE;
    if w <= 32 {
      LOne(lo);
      Pow2Add(w, 32 - w);
      ModMod(value, Pow2(w), Pow2(32 - w));
    } else {
      U64Facts();
      QuotientBound(value, BASE, BASE);
      DivModUnique(hi, BASE, 0, hi);
      ZerosValue(LenOf(w) - 2);
      LConcat(Zeros(LenOf(w) - 2), [hi, lo]);
      assert [hi, lo] == [hi] + [lo];
      LSnoc([hi], lo);
      LOne(hi);
    }
  }

  /** The value of a vector of at most 64 bits. */
  method ToUint64(v: BV) returns (res: nat)
    requires Wf(v) && v.width <= 64
    ensures res == Value(v) && res < U64
  {
    hide Pow2, LVal, Weight, BitOr;
    var n := |v.bits|;
    var i := 0;
    res := 0;
    SliceEnds(v.bits);
    LZero([]);
    while i < n
      invariant 0 <= i <= n <= 2 && res == LVal(v.bits[..i]) * Weight(n - i)
    {
      WordStep(v.bits, i);
      res := BitOr(res, v.bits[i] * Pow2(32 * (n - 1 - i)));
      i := i + 1;
    }
    WeightFacts(0);
    ValueBound(v);
    Pow2Mono(v.width, 64);
    U64Facts();
  }

  lemma WordStep(bits: seq<nat>, i: nat)
    requires IsLimbs(bits) && i < |bits|
    ensures BitOr(LVal(bits[..i]) * Weight(|bits| - i), bits[i] * Pow2(32 * (|bits| - 1 - i)))
            == LVal(bits[..i + 1]) * Weight(|bits| - (i + 1))
  {
    hide Pow2, LVal, BitOr;
    var n, high, m := |bits|, LVal(bits[..i]), |bits| - 1 - i;
    PrefixSnoc(bits, i);
    LSnoc(bits[..i], bits[i]);
    WeightFacts(m);
    MulLe(bits[i] + 1, BASE, Weight(m));
    Distribute(bits[i], 1, Weight(m));
    OrDisjoint(bits[i] * Weight(m), high, 32 * (n - i));
    OrCommutes(bits[i] * Weight(m), high * Weight(n - i));
    Distribute(high * BASE, bits[i], Weight(m));
    MulAssoc(high, BASE, Weight(m));
  }

  // ---------------------------------------------------------------------------
  // Bits
  // ---------------------------------------------------------------------------

  function GetBit(v: BV, pos: nat): bool
    requires pos / 32 < |v.bits|
  {
    BitAnd(ShiftRight(v.bits[|v.bits| - 1 - pos / 32], pos % 32), 1) == 1
  }

  lemma TestBitDrop(h: nat, v: nat, j: nat, n: nat)
    requires j < n
    ensures TestBit(h * Pow2(n) + v, j) == TestBit(v, j)
  {
    hide Pow2;
    var p, q := Pow2(j), Pow2(n - j - 1);
    Pow2Add(n - j, j);
    Pow2Unfold(n - j);
    EvenDrop(h, q, p, v);
  }

  lemma EvenDrop(h: nat, q: nat, p: nat, v: nat)
    requires p > 0
    ensures ((h * (2 * q * p) + v) / p) % 2 == (v / p) % 2
  {
    var m := h * q;
    DivModFacts(v, p);
    EvenFactor(h, q, p);
    Distribute(2 * m, v / p, p);
    DivModUnique(2 * m * p + v, p, 2 * m + v / p, v % p);
    EvenSum(m, v / p);
  }

  lemma EvenSum(m: nat, x: nat)
    ensures (2 * m + x) % 2 == x % 2
  {
  }

  lemma EvenFactor(h: nat, q: nat, p: nat)
    ensures h * (2 * q * p) == 2 * (h * q) * p
  {
    MulAssoc(h, 2 * q, p);
    assert h * (2 * q) == 2 * (h * q);
  }

  lemma TestBitShift(x: nat, low: nat, n: nat, j: nat)
    requires low < Pow2(n)
    ensures TestBit(x * Pow2(n) + low, n + j) == TestBit(x, j)
  {
    hide Pow2;
    Pow2Add(n, j);
    DropLow(x, low, Pow2(n), Pow2(j));
  }

  lemma DropLow(x: nat, low: nat, p: nat, q: nat)
    requires low < p && q > 0
    ensures p * q > 0 && (x * p + low) / (p * q) == x / q
  {
    DivModUnique(x * p + low, p, x, low);
    DivDiv(x * p + low, p, q);
  }

  lemma BitOfLimbs(bits: seq<nat>, i: nat, j: nat)
    requires IsLimbs(bits) && i < |bits| && j < 32
    ensures TestBit(LVal(bits), 32 * i + j) == TestBit(bits[|bits| - 1 - i], j)
  {
    hide Pow2, LVal, TestBit;
    var m := |bits| - 1 - i;
    LSplit(bits, m + 1);
    LBound(bits[m + 1..]);
    TestBitShift(LVal(bits[..m + 1]), LVal(bits[m + 1..]), 32 * i, j);
    PrefixSnoc(bits, m);
    LSnoc(bits[..m], bits[m]);
    Pow2Is32();
    TestBitDrop(LVal(bits[..m]), bits[m], j, 32);
  }

  /** The bit read from the limbs is the bit of the value. */
  lemma GetBitIs(v: BV, pos: nat)
    requires Wf(v) && pos < v.width
    ensures pos / 32 < |v.bits| && GetBit(v, pos) == TestBit(Value(v), pos)
  {
    hide Pow2, LVal, BitAnd;
    BitOfLimbs(v.bits, pos / 32, pos % 32);
    AndMask(ShiftRight(v.bits[|v.bits| - 1 - pos / 32], pos % 32), 1);
    Pow2Is2();
  }

  lemma Pow2Is2()
    ensures Pow2(0) == 1 && Pow2(1) == 2
  {
  }

  /** A number with one bit set to `b`. */
  ghost function WithBit(x: nat, pos: nat, b: bool): nat {
    (if TestBit(x, pos) then x - TakeOut(x, pos) else x) + if b then Pow2(pos) else 0
  }

  ghost function TakeOut(x: nat, pos: nat): (p: nat)
    requires TestBit(x, pos)
    ensures p == Pow2(pos) && p <= x
  {
    BitWeight(x, pos);
    Pow2(pos)
  }

  lemma BitWeight(x: nat, pos: nat)
    requires TestBit(x, pos)
    ensures Pow2(pos) <= x
  {
    if x < Pow2(pos) {
      DivModUnique(x, Pow2(pos), 0, x);
    }
  }

  lemma WithBitFits(x: nat, pos: nat, b: bool, w: nat)
    requires x < Pow2(w) && pos < w
    ensures WithBit(x, pos, b) < Pow2(w)
  {
    hide Pow2;
    var p := Pow2(pos);
    var k, c, u := BitParts(x, p, 2 * p);
    var h := Pow2(w - pos - 1);
    Pow2Add(w - pos - 1, pos + 1);
    Pow2Unfold(pos + 1);
    LeadingPart(k, 2 * p, c * p + u, h);
    MulLe(k + 1, h, 2 * p);
    Distribute(k, 1, 2 * p);
    assert c == 0 || c == 1;
  }

  /** Overwrites one bit. */
  method SetBit(v: BV, pos: nat, b: bool) returns (res: BV)
    requires Wf(v) && pos < v.width
    ensures IsBV(res, v.width, WithBit(Value(v), pos, b))
  {
    hide Pow2, LVal, Weight, BitAnd, BitOr, TestBit, WithBit;
    var i, j := pos / 32, pos % 32;
    var m := |v.bits| - 1 - i;
    var limb := v.bits[m];
    WordBit(limb, j);
    var word := if b then BitOr(limb, Pow2(j)) else BitAnd(limb, Complement(Pow2(j)));
    res := BV(v.width, v.bits[m := word]);
    WithBitLimbs(v.bits, i, j, b, word);
    ValueBound(v);
    WithBitFits(Value(v), pos, b, v.width);
    Fits(v.width, res.bits);
  }

  lemma WordBit(limb: nat, j: nat)
    requires limb < BASE && j < 32
    ensures Pow2(j) < BASE
    ensures BitOr(limb, Pow2(j)) == WithBit(limb, j, true) && BitOr(limb, Pow2(j)) < BASE
    ensures BitAnd(limb, Complement(Pow2(j))) == WithBit(limb, j, false)
    ensures BitAnd(limb, Complement(Pow2(j))) < BASE
  {
    hide Pow2, BitAnd, BitOr;
    Pow2Is32();
    AndNotBit(limb, j, 32);
    OrBit(limb, j);
    WithBitFits(limb, j, true, 32);
  }

  lemma WithBitLimbs(bits: seq<nat>, i: nat, j: nat, b: bool, word: nat)
    requires IsLimbs(bits) && i < |bits| && j < 32 && word == WithBit(bits[|bits| - 1 - i], j, b)
    ensures LVal(bits[|bits| - 1 - i := word]) == WithBit(LVal(bits), 32 * i + j, b)
  {
    hide Pow2, LVal, TestBit;
    var m := |bits| - 1 - i;
    LUpdate(bits, m, word);
    BitOfLimbs(bits, i, j);
    Pow2Add(32 * i, j);
    var p := Pow2(j);
    assert Weight(i) * p == p * Weight(i);
    if TestBit(bits[m], j) {
      BitWeight(bits[m], j);
      Distribute(bits[m] - p, p, Weight(i));
      Distribute(bits[m], p, Weight(i));
    } else {
      Distribute(bits[m], p, Weight(i));
    }
  }
}
