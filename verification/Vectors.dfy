/** Vectors of AIG handles, most significant bit first: their values under an
    input assignment, the references they hold, and the meaning of the adder,
    comparator and shifter cells. */
module Vectors {
  import opened AigNodes
  import opened AigTable
  import opened Bits

  ghost function EvalVec(env: Env, v: seq<Aig>): seq<bool> {
    seq(|v|, i requires 0 <= i < |v| => Eval(env, v[i]))
  }

  ghost function Value(env: Env, v: seq<Aig>): nat {
    Num(EvalVec(env, v))
  }

  // ---------------------------------------------------------------------------
  // References held by vectors
  // ---------------------------------------------------------------------------

  lemma {:induction false} HsConcat(v: seq<Aig>, w: seq<Aig>)
    ensures Hs(v + w) == Hs(v) + Hs(w)
  {
    hide H;
    if w == [] {
      assert v + w == v;
    } else {
      var w', last := w[..|w| - 1], |w| - 1;
      HsConcat(v, w');
      assert (v + w)[..|v + w| - 1] == v + w';
    }
  }

  lemma HsOne(a: Aig)
    ensures Hs([a]) == H(a)
  {
    assert [a][..0] == [];
  }

  lemma HsCons(a: Aig, v: seq<Aig>)
    ensures Hs([a] + v) == H(a) + Hs(v)
  {
    HsConcat([a], v);
    HsOne(a);
  }

  lemma HsSnoc(v: seq<Aig>, a: Aig)
    ensures Hs(v + [a]) == Hs(v) + H(a)
  {
    HsConcat(v, [a]);
    HsOne(a);
  }

  lemma HsSplit(v: seq<Aig>, i: nat)
    requires i < |v|
    ensures Hs(v) == Hs(v[..i]) + H(v[i]) + Hs(v[i + 1..])
  {
    hide H, Hs;
    HsConcat(v[..i], v[i..]);
    HsCons(v[i], v[i + 1..]);
    assert v == v[..i] + v[i..] && v[i..] == [v[i]] + v[i + 1..];
  }

  /** The references of a vector apart from one component. */
  ghost function Others(v: seq<Aig>, i: nat): multiset<Node>
    requires i < |v|
  {
    Hs(v[..i]) + Hs(v[i + 1..])
  }

  lemma HsUpdate(v: seq<Aig>, i: nat, a: Aig)
    requires i < |v|
    ensures Hs(v) == Others(v, i) + H(v[i]) && Hs(v[i := a]) == Others(v, i) + H(a)
    ensures Hs(v[i := a]) + H(v[i]) == Hs(v) + H(a)
  {
    hide H, Hs;
    var w := v[i := a];
    HsSplit(v, i);
    HsSplit(w, i);
    assert w[..i] == v[..i] && w[i + 1..] == v[i + 1..];
  }

  /** Every component of a vector is held when the vector is. */
  lemma HsIndex(v: seq<Aig>, i: nat)
    requires i < |v|
    ensures H(v[i]) <= Hs(v)
  {
    hide H, Hs;
    HsSplit(v, i);
  }

  // ---------------------------------------------------------------------------
  // Values
  // ---------------------------------------------------------------------------

  lemma EvalVecConcat(env: Env, v: seq<Aig>, w: seq<Aig>)
    ensures EvalVec(env, v + w) == EvalVec(env, v) + EvalVec(env, w)
    ensures |EvalVec(env, v)| == |v| && |EvalVec(env, w)| == |w|
  {
    hide Eval;
  }

  lemma ValueConcat(env: Env, v: seq<Aig>, w: seq<Aig>)
    ensures EvalVec(env, v + w) == EvalVec(env, v) + EvalVec(env, w)
    ensures Value(env, v + w) == Value(env, v) * Pow2(|w|) + Value(env, w)
  {
    hide Num, Pow2, EvalVec;
    EvalVecConcat(env, v, w);
    NumConcat(EvalVec(env, v), EvalVec(env, w));
  }

  lemma ValueCons(env: Env, a: Aig, v: seq<Aig>)
    ensures Value(env, [a] + v) == Bit(Eval(env, a)) * Pow2(|v|) + Value(env, v)
  {
    hide Num, Pow2, Eval;
    assert EvalVec(env, [a] + v) == [Eval(env, a)] + EvalVec(env, v);
    NumCons(Eval(env, a), EvalVec(env, v));
  }

  lemma ValueOne(env: Env, v: seq<Aig>)
    requires |v| == 1
    ensures Value(env, v) == Bit(Eval(env, v[0]))
  {
    ValueCons(env, v[0], []);
    Pow2Unfold(0);
    assert [v[0]] + [] == v && EvalVec(env, []) == [];
  }

  lemma ValueBound(env: Env, v: seq<Aig>)
    ensures Value(env, v) < Pow2(|v|)
  {
    NumBound(EvalVec(env, v));
  }

  lemma ValueSplit(env: Env, v: seq<Aig>, k: nat)
    requires k <= |v|
    ensures Value(env, v) == Value(env, v[..k]) * Pow2(|v| - k) + Value(env, v[k..])
    ensures Value(env, v) / Pow2(|v| - k) == Value(env, v[..k])
    ensures Value(env, v) % Pow2(|v| - k) == Value(env, v[k..])
  {
    hide Num, Pow2, Eval;
    var s := EvalVec(env, v);
    NumSplit(s, k);
    assert s[..k] == EvalVec(env, v[..k]) && s[k..] == EvalVec(env, v[k..]);
  }

  // ---------------------------------------------------------------------------
  // Adder cells
  // ---------------------------------------------------------------------------

  /** `c` and `s` are the two bits of the sum of `x` and `y`. */
  ghost predicate IsHalfSum(x: Aig, y: Aig, s: Aig, c: Aig) {
    forall env :: 2 * Bit(Eval(env, c)) + Bit(Eval(env, s)) == Bit(Eval(env, x)) + Bit(Eval(env, y))
  }

  /** `co` and `s` are the two bits of the sum of `x`, `y` and `ci`. */
  ghost predicate IsFullSum(x: Aig, y: Aig, ci: Aig, s: Aig, co: Aig) {
    forall env :: 2 * Bit(Eval(env, co)) + Bit(Eval(env, s))
                  == Bit(Eval(env, x)) + Bit(Eval(env, y)) + Bit(Eval(env, ci))
  }

  lemma HalfAdderCorrect(x: Aig, y: Aig, both: Aig, none: Aig, xnor: Aig)
    requires IsConj(both, x, y) && IsConj(none, Not(x), Not(y)) && IsDisj(xnor, both, none)
    ensures IsHalfSum(x, y, Not(xnor), both)
  {
    forall env
      ensures 2 * Bit(Eval(env, both)) + Bit(Eval(env, Not(xnor))) == Bit(Eval(env, x)) + Bit(Eval(env, y))
    {
      EvalNot(env, x);
      EvalNot(env, y);
      EvalNot(env, xnor);
    }
  }

  lemma FullAdderCorrect(x: Aig, y: Aig, ci: Aig, sum: Aig, c1: Aig, res: Aig, c2: Aig, co: Aig)
    requires IsHalfSum(x, y, sum, c1) && IsHalfSum(sum, ci, res, c2) && IsDisj(co, c1, c2)
    ensures IsFullSum(x, y, ci, res, co)
  {
    forall env
      ensures 2 * Bit(Eval(env, co)) + Bit(Eval(env, res))
              == Bit(Eval(env, x)) + Bit(Eval(env, y)) + Bit(Eval(env, ci))
    {
      var _ := Eval(env, sum);
    }
  }

  /** `r`, with carry `c` above it, is the sum of `a` and `b`. */
  ghost predicate IsSum(a: seq<Aig>, b: seq<Aig>, r: seq<Aig>, c: Aig) {
    && |a| == |b| == |r|
    && forall env :: SumAt(env, a, b, r, c)
  }

  ghost predicate SumAt(env: Env, a: seq<Aig>, b: seq<Aig>, r: seq<Aig>, c: Aig) {
    Value(env, r) + Bit(Eval(env, c)) * Pow2(|r|) == Value(env, a) + Value(env, b)
  }

  lemma SumStart()
    ensures IsSum([], [], [], False)
  {
    forall env
      ensures SumAt(env, [], [], [], False)
    {
      assert EvalVec(env, []) == [];
    }
  }

  /** One more full adder at the most significant end. */
  lemma SumStep(a: seq<Aig>, b: seq<Aig>, r: seq<Aig>, ci: Aig, x: Aig, y: Aig, s: Aig, co: Aig)
    requires IsSum(a, b, r, ci) && IsFullSum(x, y, ci, s, co)
    ensures IsSum([x] + a, [y] + b, [s] + r, co)
  {
    hide Num, Eval, EvalVec, Value, Pow2, Bit;
    forall env
      ensures SumAt(env, [x] + a, [y] + b, [s] + r, co)
    {
      assert SumAt(env, a, b, r, ci);
      var vx, vy, vc, vs, vo := Bit(Eval(env, x)), Bit(Eval(env, y)), Bit(Eval(env, ci)),
        Bit(Eval(env, s)), Bit(Eval(env, co));
      assert 2 * vo + vs == vx + vy + vc;
      Pow2Unfold(|r| + 1);
      CarryStep(Pow2(|r|), vx, vy, vc, vs, vo, Value(env, a), Value(env, b), Value(env, r));
      ValueCons(env, x, a);
      ValueCons(env, y, b);
      ValueCons(env, s, r);
    }
  }

  lemma CarryStep(p: nat, x: nat, y: nat, c: nat, s: nat, o: nat, a: nat, b: nat, r: nat)
    requires 2 * o + s == x + y + c && r + c * p == a + b
    ensures s * p + r + o * (2 * p) == x * p + a + (y * p + b)
  {
    assert (2 * o + s) * p == (x + y + c) * p;
  }

  /** Dropping the carry reduces the sum modulo the width. */
  lemma SumMod(a: seq<Aig>, b: seq<Aig>, r: seq<Aig>, c: Aig)
    requires IsSum(a, b, r, c)
    ensures forall env :: Value(env, r) == AddVal(|a|, Value(env, a), Value(env, b))
  {
    hide Num, Eval, EvalVec, Value, Pow2;
    forall env
      ensures Value(env, r) == AddVal(|a|, Value(env, a), Value(env, b))
    {
      assert SumAt(env, a, b, r, c);
      ValueBound(env, r);
      DivModUnique(Value(env, a) + Value(env, b), Pow2(|r|), Bit(Eval(env, c)), Value(env, r));
    }
  }

  // ---------------------------------------------------------------------------
  // Comparators
  // ---------------------------------------------------------------------------

  /** `c` says whether the value of `a` is below that of `b`. */
  ghost predicate IsLess(a: seq<Aig>, b: seq<Aig>, c: Aig) {
    |a| == |b| && forall env :: Eval(env, c) == (Value(env, a) < Value(env, b))
  }

  lemma LessStart()
    ensures IsLess([], [], False)
  {
    forall env
      ensures Eval(env, False) == (Value(env, []) < Value(env, []))
    {
    }
  }

  /** Comparing one more bit at the most significant end. */
  lemma LessStep(a: seq<Aig>, b: seq<Aig>, c: Aig, x: Aig, y: Aig, gt: Aig, keep: Aig, lt: Aig, c': Aig)
    requires IsLess(a, b, c)
    requires IsConj(gt, x, Not(y)) && IsConj(keep, Not(gt), c) && IsConj(lt, Not(x), y) && IsDisj(c', lt, keep)
    ensures IsLess([x] + a, [y] + b, c')
  {
    hide Value, Pow2;
    forall env
      ensures Eval(env, c') == (Value(env, [x] + a) < Value(env, [y] + b))
    {
      EvalNot(env, x);
      EvalNot(env, y);
      EvalNot(env, gt);
      ValueCons(env, x, a);
      ValueCons(env, y, b);
      ValueBound(env, a);
      ValueBound(env, b);
      assert Eval(env, gt) == (Eval(env, x) && !Eval(env, y));
      assert Eval(env, c) == (Value(env, a) < Value(env, b));
    }
  }

  lemma LessMeaning(a: seq<Aig>, b: seq<Aig>, c: Aig)
    requires IsLess(a, b, c)
    ensures forall env :: Eval(env, c) == (Value(env, a) < Value(env, b))
  {
  }

  /** `c` says whether the two vectors have the same bits. */
  ghost predicate IsSame(a: seq<Aig>, b: seq<Aig>, c: Aig) {
    |a| == |b| && forall env :: Eval(env, c) == (EvalVec(env, a) == EvalVec(env, b))
  }

  lemma SameStart(x: Aig, y: Aig, e: Aig)
    requires IsEquiv(e, x, y)
    ensures IsSame([x], [y], e)
  {
    forall env
      ensures Eval(env, e) == (EvalVec(env, [x]) == EvalVec(env, [y]))
    {
      assert EvalVec(env, [x])[0] == Eval(env, x) && EvalVec(env, [y])[0] == Eval(env, y);
    }
  }

  lemma SameStep(a: seq<Aig>, b: seq<Aig>, c: Aig, x: Aig, y: Aig, e: Aig, c': Aig)
    requires IsSame(a, b, c) && IsEquiv(e, x, y) && IsConj(c', c, e)
    ensures IsSame(a + [x], b + [y], c')
  {
    hide EvalVec;
    forall env
      ensures Eval(env, c') == (EvalVec(env, a + [x]) == EvalVec(env, b + [y]))
    {
      EvalVecConcat(env, a, [x]);
      EvalVecConcat(env, b, [y]);
      EvalVecOne(env, x);
      EvalVecOne(env, y);
      var (p, q, s, t) := (EvalVec(env, a), EvalVec(env, b), Eval(env, x), Eval(env, y));
      assert p + [s] == q + [t] <==> p == q && s == t by {
        if p + [s] == q + [t] {
          assert p == (p + [s])[..|p|] && q == (q + [t])[..|p|] && (p + [s])[|p|] == (q + [t])[|p|];
        }
      }
    }
  }

  lemma EvalVecOne(env: Env, x: Aig)
    ensures EvalVec(env, [x]) == [Eval(env, x)]
  {
  }

  lemma SameValue(a: seq<Aig>, b: seq<Aig>, c: Aig)
    requires IsSame(a, b, c)
    ensures forall env :: Eval(env, c) == (Value(env, a) == Value(env, b))
  {
    hide Num, Eval;
    forall env
      ensures (EvalVec(env, a) == EvalVec(env, b)) == (Value(env, a) == Value(env, b))
    {
      if Value(env, a) == Value(env, b) {
        NumInjective(EvalVec(env, a), EvalVec(env, b));
      }
    }
  }

  // ---------------------------------------------------------------------------
  // Multiplexers and shifters
  // ---------------------------------------------------------------------------

  ghost predicate IsConjVec(r: seq<Aig>, a: seq<Aig>, b: seq<Aig>) {
    |r| == |a| == |b| && forall i :: 0 <= i < |a| ==> IsConj(r[i], a[i], b[i])
  }

  /** `r` is `t` or `e`, depending on `c`. */
  ghost predicate IsIteVec(r: seq<Aig>, c: Aig, t: seq<Aig>, e: seq<Aig>) {
    && |r| == |t| == |e|
    && forall env :: EvalVec(env, r) == if Eval(env, c) then EvalVec(env, t) else EvalVec(env, e)
  }

  lemma IteStart(c: Aig)
    ensures IsIteVec([], c, [], [])
  {
  }

  lemma IteStep(r: seq<Aig>, c: Aig, t: seq<Aig>, e: seq<Aig>, a: Aig, x: Aig, y: Aig)
    requires IsIteVec(r, c, t, e) && IsIte(a, c, x, y)
    ensures IsIteVec(r + [a], c, t + [x], e + [y])
  {
    hide EvalVec;
    forall env
      ensures EvalVec(env, r + [a]) == if Eval(env, c) then EvalVec(env, t + [x]) else EvalVec(env, e + [y])
    {
      EvalVecConcat(env, r, [a]);
      EvalVecConcat(env, t, [x]);
      EvalVecConcat(env, e, [y]);
      EvalVecOne(env, a);
      EvalVecOne(env, x);
      EvalVecOne(env, y);
    }
  }

  lemma IteConcat(c: Aig, r: seq<Aig>, t: seq<Aig>, e: seq<Aig>, r': seq<Aig>, t': seq<Aig>, e': seq<Aig>)
    requires IsIteVec(r, c, t, e) && IsIteVec(r', c, t', e')
    ensures IsIteVec(r + r', c, t + t', e + e')
  {
    hide EvalVec;
    forall env
      ensures EvalVec(env, r + r') == if Eval(env, c) then EvalVec(env, t + t') else EvalVec(env, e + e')
    {
      EvalVecConcat(env, r, r');
      EvalVecConcat(env, t, t');
      EvalVecConcat(env, e, e');
    }
  }

  /** The same, with the vectors given in full. */
  lemma IteExtend(r: seq<Aig>, c: Aig, t: seq<Aig>, e: seq<Aig>, i: nat, a: Aig)
    requires i < |t| == |e| && IsIteVec(r, c, t[..i], e[..i]) && IsIte(a, c, t[i], e[i])
    ensures IsIteVec(r + [a], c, t[..i + 1], e[..i + 1])
  {
    hide IsIteVec, IsIte;
    IteStep(r, c, t[..i], e[..i], a, t[i], e[i]);
    PrefixSnoc(t, i);
    PrefixSnoc(e, i);
  }

  lemma MaskIte(a: Aig, c: Aig, e: Aig)
    requires IsConj(a, e, Not(c))
    ensures IsIte(a, c, False, e)
  {
    forall env
      ensures Eval(env, a) == if Eval(env, c) then Eval(env, False) else Eval(env, e)
    {
      EvalNot(env, c);
    }
  }

  function Zeros(n: nat): (v: seq<Aig>)
    ensures |v| == n && forall i :: 0 <= i < n ==> v[i] == False
  {
    seq(n, _ => False)
  }

  lemma {:induction false} ZerosFacts(n: nat)
    ensures Hs(Zeros(n)) == multiset{}
    ensures forall env :: Value(env, Zeros(n)) == 0
  {
    if n > 0 {
      ZerosFacts(n - 1);
      assert Zeros(n) == Zeros(n - 1) + [False];
      HsSnoc(Zeros(n - 1), False);
      HOfConst();
    }
    forall env
      ensures Value(env, Zeros(n)) == 0
    {
      NumZeros(EvalVec(env, Zeros(n)));
    }
  }

  datatype Direction = Left | Right

  function ShiftVal(dir: Direction, w: nat, x: nat, s: nat): nat {
    match dir
    case Left => SllVal(w, x, s)
    case Right => SrlVal(x, s)
  }

  /** The vector moved by a constant number of places. */
  function Moved(dir: Direction, v: seq<Aig>, n: nat): (r: seq<Aig>)
    requires n <= |v|
    ensures |r| == |v|
  {
    match dir
    case Left => v[n..] + Zeros(n)
    case Right => Zeros(n) + v[..|v| - n]
  }

  lemma MovedValue(dir: Direction, env: Env, v: seq<Aig>, n: nat)
    requires n <= |v|
    ensures Value(env, Moved(dir, v, n)) == ShiftVal(dir, |v|, Value(env, v), n)
  {
    hide Value, Pow2, Zeros;
    var w := |v|;
    ZerosFacts(n);
    match dir
    case Left =>
      ValueConcat(env, v[n..], Zeros(n));
      ValueSplit(env, v, n);
      ModScale(Value(env, v), Pow2(w - n), Pow2(n));
      Pow2Add(w - n, n);
    case Right =>
      ValueConcat(env, Zeros(n), v[..w - n]);
      ValueSplit(env, v, w - n);
  }

  /** One stage of the shifter moves by `n` places or not at all. */
  lemma StageValue(dir: Direction, env: Env, v: seq<Aig>, n: nat, c: Aig, r: seq<Aig>)
    requires n <= |v| && IsIteVec(r, c, Moved(dir, v, n), v)
    ensures Value(env, r) == ShiftVal(dir, |v|, Value(env, v), Bit(Eval(env, c)) * n)
  {
    hide Moved, Pow2, SllVal, SrlVal, Num, Eval, EvalVec;
    MovedValue(dir, env, v, n);
    ValueBound(env, v);
    ShiftByZero(|v|, Value(env, v));
    assert EvalVec(env, r) == if Eval(env, c) then EvalVec(env, Moved(dir, v, n)) else EvalVec(env, v);
  }

  /** A left stage is a part that moves in and a part that is cleared. */
  lemma LeftStage(v: seq<Aig>, n: nat, c: Aig, high: seq<Aig>, low: seq<Aig>)
    requires n <= |v| && IsIteVec(high, c, v[n..], v[..|v| - n]) && IsIteVec(low, c, Zeros(n), v[|v| - n..])
    ensures |high + low| == |v| && IsIteVec(high + low, c, Moved(Left, v, n), v)
  {
    hide Eval, EvalVec;
    IteConcat(c, high, v[n..], v[..|v| - n], low, Zeros(n), v[|v| - n..]);
    assert v[..|v| - n] + v[|v| - n..] == v;
  }

  lemma RightStage(v: seq<Aig>, n: nat, c: Aig, high: seq<Aig>, low: seq<Aig>)
    requires n <= |v| && IsIteVec(high, c, Zeros(n), v[..n]) && IsIteVec(low, c, v[..|v| - n], v[n..])
    ensures |high + low| == |v| && IsIteVec(high + low, c, Moved(Right, v, n), v)
  {
    hide Eval, EvalVec;
    IteConcat(c, high, Zeros(n), v[..n], low, v[..|v| - n], v[n..]);
    assert v[..n] + v[n..] == v;
  }

  lemma MovedByZero(dir: Direction, v: seq<Aig>, c: Aig)
    ensures Moved(dir, v, 0) == v && IsIteVec(v, c, Moved(dir, v, 0), v)
  {
    hide Eval, EvalVec;
  }

  /** `r` is `v` shifted by the value of `s`. */
  ghost predicate IsShift(dir: Direction, v: seq<Aig>, s: seq<Aig>, r: seq<Aig>) {
    |r| == |v| && forall env :: ShiftAt(dir, env, v, s, r)
  }

  ghost predicate ShiftAt(dir: Direction, env: Env, v: seq<Aig>, s: seq<Aig>, r: seq<Aig>) {
    Value(env, r) == ShiftVal(dir, |v|, Value(env, v), Value(env, s))
  }

  lemma ShiftNone(dir: Direction, v: seq<Aig>)
    ensures IsShift(dir, v, [], v)
  {
    hide SllVal, SrlVal;
    forall env
      ensures ShiftAt(dir, env, v, [], v)
    {
      ValueBound(env, v);
      ShiftByZero(|v|, Value(env, v));
    }
  }

  /** Stage `|s|` adds the next bit of the shift amount. */
  lemma ShiftStage(dir: Direction, v: seq<Aig>, s: seq<Aig>, r: seq<Aig>, c: Aig, r': seq<Aig>)
    requires IsShift(dir, v, s, r) && Pow2(|s|) <= |v| && |r'| == |r|
    requires IsIteVec(r', c, Moved(dir, r, Pow2(|s|)), r)
    ensures IsShift(dir, v, [c] + s, r')
  {
    hide Moved, SllVal, SrlVal, Value, IsIteVec, Pow2;
    forall env
      ensures ShiftAt(dir, env, v, [c] + s, r')
    {
      assert ShiftAt(dir, env, v, s, r);
      var x, k := Value(env, v), Bit(Eval(env, c)) * Pow2(|s|);
      StageValue(dir, env, r, Pow2(|s|), c, r');
      ValueCons(env, c, s);
      SllCompose(|v|, x, Value(env, s), k);
      SrlCompose(x, Value(env, s), k);
    }
  }
}
