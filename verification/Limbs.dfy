/** Bitwise operations on numbers, and numbers as sequences of 32-bit limbs. */
module Limbs {
  import opened Bits

  const BASE: nat := 0x1_0000_0000

  // ---------------------------------------------------------------------------
  // Bitwise operations
  // ---------------------------------------------------------------------------

  function BitAnd(x: nat, y: nat): nat {
    if x == 0 || y == 0 then 0
    else 2 * BitAnd(x / 2, y / 2) + (if x % 2 == 1 && y % 2 == 1 then 1 else 0)
  }

  function BitOr(x: nat, y: nat): nat
    decreases x + y
  {
    if x == 0 then y else if y == 0 then x
    else 2 * BitOr(x / 2, y / 2) + (if x % 2 == 1 || y % 2 == 1 then 1 else 0)
  }

  /** Complement of a 32-bit word. */
  function Complement(x: nat): nat
    requires x < BASE
  {
    BASE - 1 - x
  }

  /** Left shift of a 32-bit word; bits that leave the word are lost. */
  function ShiftLeft(x: nat, k: nat): nat {
    (x * Pow2(k)) % BASE
  }

  function ShiftRight(x: nat, k: nat): nat {
    Quotient(x, Pow2(k))
  }

  /** Bit `i` of a number. */
  predicate TestBit(x: nat, i: nat) {
    (x / Pow2(i)) % 2 == 1
  }

  lemma Halves(x: nat, k: nat)
    requires k > 0
    ensures x % Pow2(k) == 2 * ((x / 2) % Pow2(k - 1)) + x % 2
  {
    hide Pow2;
    Pow2Unfold(k);
    var h, b, p := x / 2, x % 2, Pow2(k - 1);
    DivModFacts(h, p);
    assert x == (h / p) * (2 * p) + (2 * (h % p) + b);
    DivModUnique(x, 2 * p, h / p, 2 * (h % p) + b);
  }

  /** Masking with the `k` low bits is the remainder. */
  lemma {:induction false} AndMask(x: nat, k: nat)
    ensures BitAnd(x, Pow2(k) - 1) == x % Pow2(k)
  {
    hide BitAnd, Pow2;
    Pow2Unfold(k);
    AndUnfold(x, Pow2(k) - 1);
    if k == 0 {
      AndZero(x);
    } else {
      AndMask(x / 2, k - 1);
      Halves(x, k);
      HalfOfOnes(Pow2(k - 1));
    }
  }

  lemma HalfOfOnes(p: nat)
    requires p > 0
    ensures (2 * p - 1) / 2 == p - 1 && (2 * p - 1) % 2 == 1
  {
  }

  lemma {:induction false} AndCommutes(x: nat, y: nat)
    ensures BitAnd(x, y) == BitAnd(y, x)
  {
    if x != 0 && y != 0 {
      AndCommutes(x / 2, y / 2);
    }
  }

  /** A disjunction of disjoint parts is their sum. */
  lemma {:induction false} OrDisjoint(x: nat, y: nat, k: nat)
    requires x < Pow2(k)
    ensures BitOr(x, y * Pow2(k)) == x + y * Pow2(k)
  {
    if x > 0 && y > 0 && k > 0 {
      assert y * Pow2(k) == 2 * (y * Pow2(k - 1));
      OrDisjoint(x / 2, y, k - 1);
    }
  }

  lemma {:induction false} OrCommutes(x: nat, y: nat)
    ensures BitOr(x, y) == BitOr(y, x)
    decreases x + y
  {
    if x != 0 && y != 0 {
      OrCommutes(x / 2, y / 2);
    }
  }

  lemma TestBitStep(x: nat, i: nat)
    requires i > 0
    ensures TestBit(x, i) == TestBit(x / 2, i - 1)
  {
    DivDiv(x, 2, Pow2(i - 1));
  }

  /** Setting a bit. */
  lemma {:induction false} OrBit(x: nat, j: nat)
    ensures BitOr(x, Pow2(j)) == if TestBit(x, j) then x else x + Pow2(j)
  {
    if x > 0 && j > 0 {
      OrBit(x / 2, j - 1);
      TestBitStep(x, j);
    } else if x > 0 {
      assert BitOr(x, 1) == 2 * BitOr(x / 2, 0) + 1;
    } else {
      assert x / Pow2(j) == 0 by { DivModUnique(x, Pow2(j), 0, 0); }
    }
  }

  lemma AndUnfold(x: nat, y: nat)
    ensures BitAnd(x, y) == 2 * BitAnd(x / 2, y / 2) + (if x % 2 == 1 && y % 2 == 1 then 1 else 0)
  {
  }

  lemma AndZero(x: nat)
    ensures BitAnd(x, 0) == 0 && BitAnd(0, x) == 0
  {
  }

  lemma HalfOfSum(x: nat, u: nat, p: nat)
    ensures (x * (2 * p) + u) / 2 == x * p + u / 2 && (x * (2 * p) + u) % 2 == u % 2
  {
    var m := x * p;
    assert x * (2 * p) == 2 * m;
  }

  /** Bitwise conjunction acts on the parts of a number separately. */
  lemma {:induction false} AndSplit(x: nat, u: nat, y: nat, v: nat, k: nat)
    requires u < Pow2(k) && v < Pow2(k)
    ensures BitAnd(x * Pow2(k) + u, y * Pow2(k) + v) == BitAnd(x, y) * Pow2(k) + BitAnd(u, v)
  {
    hide BitAnd, Pow2;
    Pow2Unfold(k);
    if k == 0 {
      AndZero(0);
    } else {
      var p := Pow2(k - 1);
      HalfOfSum(x, u, p);
      HalfOfSum(y, v, p);
      AndSplit(x, u / 2, y, v / 2, k - 1);
      AndUnfold(x * Pow2(k) + u, y * Pow2(k) + v);
      AndUnfold(u, v);
      MulAssoc(BitAnd(x, y), 2, p);
      assert BitAnd(x, y) * (2 * p) == 2 * (BitAnd(x, y) * p);
    }
  }

  /** Masking out the `k` low bits of a number below `2^n`. */
  lemma AndHighMask(x: nat, n: nat, k: nat)
    requires k <= n && x < Pow2(n)
    ensures Pow2(k) <= Pow2(n) && BitAnd(x, Pow2(n) - Pow2(k)) == x - x % Pow2(k)
  {
    hide BitAnd, Pow2;
    var p, h := Pow2(k), Pow2(n - k);
    Pow2Mono(k, n);
    Pow2Add(n - k, k);
    DivModFacts(x, p);
    Distribute(h - 1, 1, p);
    var t, u := x / p, x % p;
    QuotientBound(x, h, p);
    AndHighPart(t, u, h - 1, k);
    MaskSmall(t, n - k);
  }

  lemma AndHighPart(t: nat, u: nat, m: nat, k: nat)
    requires u < Pow2(k)
    ensures BitAnd(t * Pow2(k) + u, m * Pow2(k)) == BitAnd(t, m) * Pow2(k)
  {
    hide BitAnd, Pow2;
    AndSplit(t, u, m, 0, k);
    AndZero(u);
  }

  lemma QuotientBound(x: nat, h: nat, p: nat)
    requires p > 0 && x < h * p
    ensures x / p < h
  {
    DivModFacts(x, p);
    if x / p >= h {
      MulLe(h, x / p, p);
    }
  }

  /** A number around the bit of weight `p`, with `q` the next weight. */
  lemma BitParts(x: nat, p: nat, q: nat) returns (k: nat, b: nat, u: nat)
    requires p > 0 && q == 2 * p
    ensures x == k * q + (b * p + u) && b <= 1 && u < p
    ensures b * p + u < q && (x / p) % 2 == b
  {
    var t := x / p;
    DivModFacts(x, p);
    k, b, u := t / 2, t % 2, x % p;
    Distribute(2 * k, b, p);
    assert 2 * k * p == k * q;
  }

  lemma MaskForm(h: nat, p: nat, q: nat)
    requires h > 0 && q == 2 * p
    ensures h * q - 1 - p == (h - 1) * q + p - 1
  {
  }

  lemma LeadingPart(k: nat, q: nat, low: nat, h: nat)
    requires k * q + low < h * q
    ensures k < h
  {
    if k >= h {
      MulLe(h, k, q);
    }
  }

  lemma MaskSmall(x: nat, k: nat)
    requires x < Pow2(k)
    ensures BitAnd(x, Pow2(k) - 1) == x
  {
    hide BitAnd, Pow2;
    AndMask(x, k);
    DivModUnique(x, Pow2(k), 0, x);
  }

  /** Clearing a bit of a number below `2^n`. */
  lemma AndNotBit(x: nat, j: nat, n: nat)
    requires j < n && x < Pow2(n)
    ensures Pow2(j) < Pow2(n)
    ensures BitAnd(x, Pow2(n) - 1 - Pow2(j)) == if TestBit(x, j) then x - Pow2(j) else x
  {
    hide BitAnd, Pow2;
    var p, q, h := Pow2(j), Pow2(j + 1), Pow2(n - j - 1);
    Pow2Unfold(j + 1);
    Pow2Add(n - j - 1, j + 1);
    Pow2Mono(j + 1, n);
    var k, b, u := BitParts(x, p, q);
    MaskForm(h, p, q);
    LeadingPart(k, q, b * p + u, h);
    ClearLow(k, b, u, h, j, n);
    OneBitTimes(b, p);
  }

  lemma OneBitTimes(b: nat, p: nat)
    requires b <= 1
    ensures b * p == if b == 1 then p else 0
  {
  }

  lemma ClearLow(k: nat, b: nat, u: nat, h: nat, j: nat, n: nat)
    requires j < n && h == Pow2(n - j - 1) && k < h && u < Pow2(j) && b * Pow2(j) + u < Pow2(j + 1)
    ensures BitAnd(k * Pow2(j + 1) + (b * Pow2(j) + u), (h - 1) * Pow2(j + 1) + (Pow2(j) - 1)) == k * Pow2(j + 1) + u
  {
    hide BitAnd, Pow2;
    Pow2Unfold(j + 1);
    AndSplit(k, b * Pow2(j) + u, h - 1, Pow2(j) - 1, j + 1);
    AndLowBit(b, u, j);
    MaskSmall(k, n - j - 1);
  }

  lemma AndLowBit(b: nat, u: nat, j: nat)
    requires u < Pow2(j)
    ensures BitAnd(b * Pow2(j) + u, Pow2(j) - 1) == u
  {
    hide BitAnd, Pow2;
    AndSplit(b, u, 0, Pow2(j) - 1, j);
    AndZero(b);
    MaskSmall(u, j);
  }

  lemma {:induction false} AndLe(x: nat, y: nat)
    ensures BitAnd(x, y) <= x
  {
    if x != 0 && y != 0 {
      AndLe(x / 2, y / 2);
    }
  }

  // ---------------------------------------------------------------------------
  // Limbs
  // ---------------------------------------------------------------------------

  ghost predicate IsLimbs(s: seq<nat>) {
    forall i :: 0 <= i < |s| ==> s[i] < BASE
  }

  /** The value of a sequence of limbs, most significant first. */
  ghost function LVal(s: seq<nat>): nat {
    if s == [] then 0 else LVal(s[..|s| - 1]) * BASE + s[|s| - 1]
  }

  /** The weight of a limb with `n` limbs below it. */
  ghost function Weight(n: nat): (p: nat)
    ensures p > 0
  {
    Pow2(32 * n)
  }

  lemma WeightFacts(n: nat)
    ensures Pow2(32) == BASE && Weight(0) == 1 && Weight(1) == BASE
    ensures Weight(n + 1) == Weight(n) * BASE
  {
    Pow2Is32();
    Pow2Add(32 * n, 32);
  }

  lemma Pow2Is32()
    ensures Pow2(32) == BASE
  {
    hide Pow2;
    Pow2Is16();
    Pow2Add(16, 16);
  }

  lemma Pow2Is16()
    ensures Pow2(16) == 0x1_0000
  {
    hide Pow2;
    Pow2Is4();
    Pow2Add(4, 4);
    Pow2Add(8, 8);
  }

  lemma Pow2Is4()
    ensures Pow2(4) == 16
  {
    assert Pow2(2) == 4;
  }

  lemma WeightAdd(m: nat, n: nat)
    ensures Weight(m + n) == Weight(m) * Weight(n)
  {
    Pow2Add(32 * m, 32 * n);
  }

  lemma LValUnfold(s: seq<nat>)
    ensures LVal(s) == if s == [] then 0 else LVal(s[..|s| - 1]) * BASE + s[|s| - 1]
  {
  }

  lemma LSnoc(s: seq<nat>, v: nat)
    ensures LVal(s + [v]) == LVal(s) * BASE + v
  {
    assert (s + [v])[..|s|] == s;
  }

  lemma {:induction false} LConcat(s: seq<nat>, t: seq<nat>)
    ensures LVal(s + t) == LVal(s) * Weight(|t|) + LVal(t)
  {
    hide Weight, LVal;
    WeightFacts(0);
    if t == [] {
      LValUnfold(t);
      assert s + t == s;
    } else {
      var t', v := t[..|t| - 1], t[|t| - 1];
      LConcat(s, t');
      LSnoc(t', v);
      LSnoc(s + t', v);
      assert t == t' + [v] && s + t == s + t' + [v];
      WeightFacts(|t'|);
      Carried(LVal(s), Weight(|t'|), LVal(t'), v);
    }
  }

  lemma Carried(a: nat, p: nat, n: nat, v: nat)
    ensures (a * p + n) * BASE + v == a * (p * BASE) + (n * BASE + v)
  {
    Distribute(a * p, n, BASE);
    MulAssoc(a, p, BASE);
  }

  lemma LOne(v: nat)
    ensures LVal([v]) == v
  {
    hide LVal;
    LValUnfold([v]);
    LValUnfold([]);
    assert [v][..0] == [];
  }

  lemma LCons(v: nat, t: seq<nat>)
    ensures LVal([v] + t) == v * Weight(|t|) + LVal(t)
  {
    hide LVal, Weight;
    LConcat([v], t);
    LOne(v);
  }

  lemma LSuffix(s: seq<nat>, i: nat)
    requires i < |s|
    ensures LVal(s[i..]) == s[i] * Weight(|s| - 1 - i) + LVal(s[i + 1..])
  {
    hide LVal, Weight;
    SuffixCons(s, i);
    LCons(s[i], s[i + 1..]);
  }

  lemma LSplit(s: seq<nat>, i: nat)
    requires i <= |s|
    ensures LVal(s) == LVal(s[..i]) * Weight(|s| - i) + LVal(s[i..])
  {
    hide LVal, Weight;
    assert s == s[..i] + s[i..];
    LConcat(s[..i], s[i..]);
  }

  lemma {:induction false} LBound(s: seq<nat>)
    requires IsLimbs(s)
    ensures LVal(s) < Weight(|s|)
  {
    hide Weight;
    if s == [] {
      WeightFacts(0);
    } else {
      var n := |s| - 1;
      LBound(s[..n]);
      WeightFacts(n);
      MulLe(LVal(s[..n]) + 1, Weight(n), BASE);
      Distribute(LVal(s[..n]), 1, BASE);
    }
  }

  /** Replacing one limb. */
  lemma LUpdate(s: seq<nat>, i: nat, v: nat)
    requires i < |s|
    ensures LVal(s[i := v]) + s[i] * Weight(|s| - 1 - i) == LVal(s) + v * Weight(|s| - 1 - i)
  {
    hide LVal, Weight;
    var s' := s[i := v];
    LSplit(s, i);
    LSplit(s', i);
    LSuffix(s, i);
    LSuffix(s', i);
    assert s'[..i] == s[..i] && s'[i + 1..] == s[i + 1..];
  }

  /** The first different limb decides. */
  lemma LLess(s: seq<nat>, t: seq<nat>, i: nat)
    requires IsLimbs(s) && IsLimbs(t) && |s| == |t| && i < |s| && s[..i] == t[..i] && s[i] < t[i]
    ensures LVal(s) < LVal(t)
  {
    hide LVal, Weight;
    LSplit(s, i);
    LSplit(t, i);
    LSuffix(s, i);
    LSuffix(t, i);
    LBound(s[i + 1..]);
    MulLe(s[i] + 1, t[i], Weight(|s| - 1 - i));
    Distribute(s[i], 1, Weight(|s| - 1 - i));
  }

  lemma {:induction false} LZero(s: seq<nat>)
    ensures LVal(s) == 0 <==> forall i :: 0 <= i < |s| ==> s[i] == 0
  {
    if s != [] {
      LZero(s[..|s| - 1]);
      assert forall i :: 0 <= i < |s| - 1 ==> s[..|s| - 1][i] == s[i];
    }
  }
}
