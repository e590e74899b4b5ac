/** Powers of two and bit sequences, most significant bit first, and the
    meaning of the bit-vector operations on their values. */
module Bits {

  function Pow2(n: nat): (p: nat)
    ensures p > 0
  {
    if n == 0 then 1 else 2 * Pow2(n - 1)
  }

  function Bit(b: bool): nat {
    if b then 1 else 0
  }

  /** The value of a bit sequence. */
  function Num(s: seq<bool>): nat {
    if s == [] then 0 else 2 * Num(s[..|s| - 1]) + Bit(s[|s| - 1])
  }

  /** The value of a bit sequence that starts with the least significant bit. */
  function NumLsb(s: seq<bool>): nat {
    if s == [] then 0 else Bit(s[0]) + 2 * NumLsb(s[1..])
  }

  // ---------------------------------------------------------------------------
  // Operations on values
  // ---------------------------------------------------------------------------

  function AddVal(w: nat, x: nat, y: nat): nat { (x + y) % Pow2(w) }

  function MulVal(w: nat, x: nat, y: nat): nat { (x * y) % Pow2(w) }

  /** Division by zero gives all ones. */
  function UdivVal(w: nat, x: nat, y: nat): nat { if y == 0 then Pow2(w) - 1 else x / y }

  /** The remainder of a division by zero is the dividend. */
  function UremVal(x: nat, y: nat): nat { if y == 0 then x else x % y }

  function SllVal(w: nat, x: nat, s: nat): nat { (x * Pow2(s)) % Pow2(w) }

  function SrlVal(x: nat, s: nat): nat { Quotient(x, Pow2(s)) }

  function Quotient(x: nat, d: nat): nat
    requires d > 0
  {
    x / d
  }

  // ---------------------------------------------------------------------------
  // Slices
  // ---------------------------------------------------------------------------

  lemma SuffixCons<T>(v: seq<T>, i: nat)
    requires i < |v|
    ensures v[i..] == [v[i]] + v[i + 1..]
  {
  }

  lemma PrefixSnoc<T>(v: seq<T>, i: nat)
    requires i < |v|
    ensures v[..i + 1] == v[..i] + [v[i]]
  {
  }

  lemma SliceSnoc<T>(v: seq<T>, j: nat, i: nat)
    requires j <= i < |v|
    ensures v[j..i + 1] == v[j..i] + [v[i]]
  {
  }

  lemma SliceForms<T>(v: seq<T>, k: nat)
    requires k <= |v|
    ensures v[k..|v|] == v[k..] && v[0..k] == v[..k]
  {
  }

  lemma LastSuffix<T>(v: seq<T>)
    requires v != []
    ensures v[|v| - 1..] == [v[|v| - 1]]
  {
  }

  lemma EmptySlice<T>(v: seq<T>, i: nat)
    requires i <= |v|
    ensures v[i..i] == []
  {
  }

  lemma SliceEnds<T>(v: seq<T>)
    ensures v[|v|..] == [] && v[0..] == v && v[..0] == [] && v[..|v|] == v
  {
  }

  // ---------------------------------------------------------------------------
  // Arithmetic
  // ---------------------------------------------------------------------------

  lemma MulLe(a: nat, b: nat, c: nat)
    requires a <= b
    ensures a * c <= b * c
  {
  }

  lemma MulAssoc(a: int, b: int, c: int)
    ensures a * b * c == a * (b * c)
  {
  }

  lemma Distribute(a: int, b: int, c: int)
    ensures (a + b) * c == a * c + b * c
  {
  }

  lemma {:induction false} Pow2Add(a: nat, b: nat)
    ensures Pow2(a + b) == Pow2(a) * Pow2(b)
  {
    if a > 0 {
      Pow2Add(a - 1, b);
      MulAssoc(2, Pow2(a - 1), Pow2(b));
    }
  }

  lemma {:induction false} Pow2Mono(a: nat, b: nat)
    requires a <= b
    ensures Pow2(a) <= Pow2(b)
    decreases b
  {
    if a < b {
      Pow2Mono(a, b - 1);
    }
  }

  /** Quotient and remainder are determined by the division equation. */
  lemma DivModUnique(a: nat, d: nat, q: nat, r: nat)
    requires a == q * d + r && r < d
    ensures a / d == q && a % d == r
  {
    var q', r' := a / d, a % d;
    assert a == q' * d + r';
    if q' < q {
      MulLe(q' + 1, q, d);
      Distribute(q', 1, d);
    } else if q < q' {
      MulLe(q + 1, q', d);
      Distribute(q, 1, d);
    }
  }

  lemma DivModFacts(a: nat, d: nat)
    requires d > 0
    ensures a == (a / d) * d + a % d && a % d < d
  {
  }

  lemma ModOfMultiple(q: nat, d: nat, r: nat)
    requires d > 0
    ensures (q * d + r) % d == r % d
  {
    DivModFacts(r, d);
    Distribute(q, r / d, d);
    DivModUnique(q * d + r, d, q + r / d, r % d);
  }

  /** A remainder modulo a multiple, reduced further. */
  lemma ModMod(a: nat, d: nat, e: nat)
    requires d > 0 && e > 0
    ensures d * e > 0 && (a % (d * e)) % d == a % d
  {
    MulLe(1, e, d);
    var q := a / (d * e);
    DivModFacts(a, d * e);
    assert q * (d * e) == (q * e) * d;
    ModOfMultiple(q * e, d, a % (d * e));
  }

  /** Scaling both sides of a remainder. */
  lemma ModScale(a: nat, d: nat, e: nat)
    requires d > 0 && e > 0
    ensures d * e > 0 && (a * e) % (d * e) == (a % d) * e
  {
    MulLe(1, e, d);
    DivModFacts(a, d);
    var q, r := a / d, a % d;
    Distribute(q * d, r, e);
    MulAssoc(q, d, e);
    MulLe(r + 1, d, e);
    Distribute(r, 1, e);
    DivModUnique(a * e, d * e, q, r * e);
  }

  /** The same with a lower part that the scaling leaves room for. */
  lemma ScaleMod(t: nat, p: nat, q: nat, low: nat)
    requires q > 0 && low < p
    ensures q * p > 0 && (t * p + low) % (q * p) == (t % q) * p + low
  {
    var k, r := t / q, t % q;
    MulLe(1, q, p);
    DivModFacts(t, q);
    Distribute(k * q, r, p);
    MulAssoc(k, q, p);
    MulLe(r + 1, q, p);
    Distribute(r, 1, p);
    DivModUnique(t * p + low, q * p, k, r * p + low);
  }

  lemma ModAdd(a: nat, b: nat, d: nat)
    requires d > 0
    ensures (a % d + b) % d == (a + b) % d
  {
    DivModFacts(a, d);
    ModOfMultiple(a / d, d, a % d + b);
  }

  lemma ModMul(a: nat, b: nat, d: nat)
    requires d > 0
    ensures ((a % d) * b) % d == (a * b) % d
  {
    DivModFacts(a, d);
    var q, r := a / d, a % d;
    Distribute(q * d, r, b);
    assert (q * d) * b == (q * b) * d;
    ModOfMultiple(q * b, d, r * b);
  }

  lemma DivDiv(a: nat, d: nat, e: nat)
    requires d > 0 && e > 0
    ensures d * e > 0 && a / d / e == a / (d * e)
  {
    MulLe(1, e, d);
    DivModFacts(a, d);
    DivModFacts(a / d, e);
    var q, r := a / d / e, (a / d) % e;
    Distribute(q * e, r, d);
    assert q * e * d == q * (d * e);
    MulLe(r + 1, e, d);
    Distribute(r, 1, d);
    assert e * d == d * e;
    DivModUnique(a, d * e, q, r * d + a % d);
  }

  // ---------------------------------------------------------------------------
  // Values of bit sequences
  // ---------------------------------------------------------------------------

  lemma {:induction false} NumBound(s: seq<bool>)
    ensures Num(s) < Pow2(|s|)
  {
    if s != [] {
      NumBound(s[..|s| - 1]);
    }
  }

  lemma {:induction false} NumConcat(s: seq<bool>, t: seq<bool>)
    ensures Num(s + t) == Num(s) * Pow2(|t|) + Num(t)
  {
    hide Pow2, Num;
    Pow2Unfold(|t|);
    if t == [] {
      NumUnfold(t);
      assert s + t == s;
    } else {
      var t', b := t[..|t| - 1], t[|t| - 1];
      NumConcat(s, t');
      NumSnoc(t', b);
      NumSnoc(s + t', b);
      assert t == t' + [b] && s + t == s + t' + [b];
      Doubled(Num(s), Pow2(|t'|), Num(t'), Bit(b));
    }
  }

  lemma Doubled(a: nat, p: nat, n: nat, b: nat)
    ensures 2 * (a * p + n) + b == a * (2 * p) + (2 * n + b)
  {
  }

  lemma Pow2Unfold(n: nat)
    ensures Pow2(n) == if n == 0 then 1 else 2 * Pow2(n - 1)
  {
  }

  lemma NumUnfold(s: seq<bool>)
    ensures Num(s) == if s == [] then 0 else 2 * Num(s[..|s| - 1]) + Bit(s[|s| - 1])
  {
  }

  lemma NumCons(b: bool, s: seq<bool>)
    ensures Num([b] + s) == Bit(b) * Pow2(|s|) + Num(s)
  {
    hide Pow2, Num;
    NumConcat([b], s);
    NumSnoc([], b);
    NumUnfold([]);
    assert [] + [b] == [b];
  }

  lemma NumSnoc(s: seq<bool>, b: bool)
    ensures Num(s + [b]) == 2 * Num(s) + Bit(b)
  {
    assert (s + [b])[..|s|] == s;
  }

  lemma NumSplit(s: seq<bool>, k: nat)
    requires k <= |s|
    ensures Num(s) == Num(s[..k]) * Pow2(|s| - k) + Num(s[k..])
    ensures Num(s) / Pow2(|s| - k) == Num(s[..k]) && Num(s) % Pow2(|s| - k) == Num(s[k..])
  {
    assert s == s[..k] + s[k..];
    NumConcat(s[..k], s[k..]);
    NumBound(s[k..]);
    DivModUnique(Num(s), Pow2(|s| - k), Num(s[..k]), Num(s[k..]));
  }

  /** Bit sequences of the same length with the same value are the same. */
  lemma {:induction false} NumInjective(s: seq<bool>, t: seq<bool>)
    requires |s| == |t| && Num(s) == Num(t)
    ensures s == t
  {
    if s != [] {
      var k := |s| - 1;
      NumInjective(s[..k], t[..k]);
      assert s == s[..k] + [s[k]] && t == t[..k] + [t[k]];
    }
  }

  lemma {:induction false} NumZeros(s: seq<bool>)
    ensures Num(s) == 0 <==> forall i :: 0 <= i < |s| ==> !s[i]
  {
    if s != [] {
      NumZeros(s[..|s| - 1]);
      assert forall i :: 0 <= i < |s| - 1 ==> s[..|s| - 1][i] == s[i];
    }
  }

  lemma {:induction false} NumLsbSnoc(s: seq<bool>, b: bool)
    ensures NumLsb(s + [b]) == NumLsb(s) + Bit(b) * Pow2(|s|)
  {
    if s == [] {
      assert s + [b] == [b] && [b][1..] == [];
    } else {
      NumLsbSnoc(s[1..], b);
      assert (s + [b])[1..] == s[1..] + [b];
    }
  }

  /** Reading a sequence backwards. */
  lemma {:induction false} NumLsbReversed(s: seq<bool>, t: seq<bool>)
    requires |s| == |t| && forall i :: 0 <= i < |s| ==> t[i] == s[|s| - 1 - i]
    ensures NumLsb(t) == Num(s)
  {
    if s != [] {
      NumLsbReversed(s[..|s| - 1], t[1..]);
    }
  }

  // ---------------------------------------------------------------------------
  // Shifts by parts
  // ---------------------------------------------------------------------------

  lemma SllCompose(w: nat, x: nat, s: nat, t: nat)
    ensures SllVal(w, SllVal(w, x, s), t) == SllVal(w, x, s + t)
  {
    hide Pow2;
    ModMul(x * Pow2(s), Pow2(t), Pow2(w));
    MulAssoc(x, Pow2(s), Pow2(t));
    Pow2Add(s, t);
  }

  lemma SrlCompose(x: nat, s: nat, t: nat)
    ensures SrlVal(SrlVal(x, s), t) == SrlVal(x, s + t)
  {
    hide Pow2;
    DivDiv(x, Pow2(s), Pow2(t));
    Pow2Add(s, t);
  }

  lemma ShiftByZero(w: nat, x: nat)
    requires x < Pow2(w)
    ensures SllVal(w, x, 0) == x && SrlVal(x, 0) == x
  {
    DivModUnique(x, Pow2(w), 0, x);
  }

  /** Shifting by the width or more leaves nothing. */
  lemma ShiftOut(w: nat, x: nat, s: nat)
    requires x < Pow2(w) && w <= s
    ensures SllVal(w, x, s) == 0 && SrlVal(x, s) == 0
  {
    hide Pow2;
    Pow2Add(s - w, w);
    MulAssoc(x, Pow2(s - w), Pow2(w));
    ModOfMultiple(x * Pow2(s - w), Pow2(w), 0);
    Pow2Mono(w, s);
    DivModUnique(x, Pow2(s), 0, x);
  }

  /** Shifting left in a wider vector and cutting back to the width. */
  lemma SllNarrow(w: nat, w': nat, x: nat, s: nat)
    requires w <= w'
    ensures SllVal(w', x, s) % Pow2(w) == SllVal(w, x, s)
  {
    hide Pow2;
    Pow2Add(w, w' - w);
    ModMod(x * Pow2(s), Pow2(w), Pow2(w' - w));
  }

  lemma SrlBound(w: nat, x: nat, s: nat)
    requires x < Pow2(w)
    ensures SrlVal(x, s) < Pow2(w)
  {
    DivModFacts(x, Pow2(s));
    MulLe(1, Pow2(s), x / Pow2(s));
  }
}
