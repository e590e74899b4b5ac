/** The bit-blaster and the limb evaluator compute the same bits. */
module Agreement {
  import opened AigNodes
  import opened AigTable
  import opened AigManager
  import opened Bits
  import V = Vectors
  import BitBlast
  import Shifter
  import Multiplier
  import Divider
  import L = Limbs
  import B = BitVectors
  import BvOps
  import BvShift
  import BvArith

  /** The bits of a vector, most significant first. */
  function BitsOf(v: B.BV): seq<bool>
    requires v.width <= 32 * |v.bits|
  {
    seq(v.width, i requires 0 <= i < v.width => B.GetBit(v, v.width - 1 - i))
  }

  /** Under `env` the circuit has exactly the bits of the vector. */
  ghost predicate SameBits(env: Env, a: seq<Aig>, v: B.BV) {
    B.Wf(v) && v.width <= 32 * |v.bits| && V.EvalVec(env, a) == BitsOf(v)
  }

  // ---------------------------------------------------------------------------
  // Bits and values
  // ---------------------------------------------------------------------------

  /** The `n` low bits of a number, most significant first. */
  ghost function LowBitsOf(x: nat, n: nat): seq<bool> {
    seq(n, i requires 0 <= i < n => L.TestBit(x, n - 1 - i))
  }

  lemma {:induction false} LowBitsValue(x: nat, n: nat)
    ensures Num(LowBitsOf(x, n)) == x % Pow2(n)
  {
    hide Pow2, Num, L.TestBit;
    if n == 0 {
      B.Pow2Is2();
      assert LowBitsOf(x, 0) == [];
      NumUnfold([]);
    } else {
      LowBitsValue(x, n - 1);
      assert LowBitsOf(x, n) == [L.TestBit(x, n - 1)] + LowBitsOf(x, n - 1);
      NumCons(L.TestBit(x, n - 1), LowBitsOf(x, n - 1));
      BvArith.LowBits(x, n - 1);
      BitTimes(L.TestBit(x, n - 1), Pow2(n - 1));
    }
  }

  lemma BitTimes(b: bool, p: nat)
    ensures Bit(b) * p == if b then p else 0
  {
  }

  lemma BitsOfValue(v: B.BV)
    requires B.Wf(v)
    ensures v.width <= 32 * |v.bits| && Num(BitsOf(v)) == B.Value(v)
  {
    hide Pow2, Num, L.LVal, L.TestBit, B.GetBit;
    B.WidthSplit(v.width);
    var x, w := B.Value(v), v.width;
    forall i | 0 <= i < w
      ensures BitsOf(v)[i] == LowBitsOf(x, w)[i]
    {
      B.GetBitIs(v, w - 1 - i);
    }
    assert BitsOf(v) == LowBitsOf(x, w);
    LowBitsValue(x, w);
    B.ValueBound(v);
    DivModUnique(x, Pow2(w), 0, x);
  }

  /** Circuits and vectors of one width have the same bits exactly when they have
      the same value. */
  lemma SameBitsIffValue(env: Env, a: seq<Aig>, v: B.BV)
    requires B.Wf(v)
    ensures SameBits(env, a, v) <==> |a| == v.width && V.Value(env, a) == B.Value(v)
  {
    hide Num, L.LVal, Eval, B.GetBit;
    BitsOfValue(v);
    var s, t := V.EvalVec(env, a), BitsOf(v);
    assert |s| == |a| && |t| == v.width;
    if |a| == v.width && V.Value(env, a) == B.Value(v) {
      NumInjective(s, t);
    }
  }

  // ---------------------------------------------------------------------------
  // Bitwise operations on bit sequences
  // ---------------------------------------------------------------------------

  lemma {:induction false} AndBits(s: seq<bool>, t: seq<bool>, r: seq<bool>)
    requires |s| == |t| == |r| && forall i :: 0 <= i < |s| ==> r[i] == (s[i] && t[i])
    ensures Num(r) == L.BitAnd(Num(s), Num(t))
  {
    hide L.BitAnd;
    if s == [] {
      L.AndZero(0);
    } else {
      var k := |s| - 1;
      AndBits(s[..k], t[..k], r[..k]);
      L.AndUnfold(Num(s), Num(t));
    }
  }

  lemma {:induction false} NotBits(s: seq<bool>, r: seq<bool>)
    requires |s| == |r| && forall i :: 0 <= i < |s| ==> r[i] == !s[i]
    ensures Num(s) + Num(r) + 1 == Pow2(|s|)
  {
    if s != [] {
      NotBits(s[..|s| - 1], r[..|s| - 1]);
    }
  }

  lemma NotValue(env: Env, a: seq<Aig>, r: seq<Aig>)
    requires |r| == |a| && forall i :: 0 <= i < |a| ==> r[i] == Not(a[i])
    ensures V.Value(env, a) + V.Value(env, r) + 1 == Pow2(|a|)
  {
    hide Eval, Num;
    forall i | 0 <= i < |a| ensures Eval(env, r[i]) == !Eval(env, a[i]) { EvalNot(env, a[i]); }
    NotBits(V.EvalVec(env, a), V.EvalVec(env, r));
  }

  lemma AndValue(env: Env, a: seq<Aig>, b: seq<Aig>, r: seq<Aig>)
    requires V.IsConjVec(r, a, b)
    ensures V.Value(env, r) == L.BitAnd(V.Value(env, a), V.Value(env, b))
  {
    hide Eval, Num, L.BitAnd;
    forall i | 0 <= i < |a| ensures Eval(env, r[i]) == (Eval(env, a[i]) && Eval(env, b[i])) {
      assert IsConj(r[i], a[i], b[i]);
    }
    AndBits(V.EvalVec(env, a), V.EvalVec(env, b), V.EvalVec(env, r));
  }

  lemma SliceValue(env: Env, a: seq<Aig>, upper: nat, lower: nat)
    requires lower <= upper < |a|
    ensures V.Value(env, a[|a| - 1 - upper..|a| - lower]) == BvShift.SliceVal(V.Value(env, a), upper, lower)
  {
    hide V.Value, Pow2;
    var high := a[..|a| - lower];
    V.ValueSplit(env, a, |a| - lower);
    V.ValueSplit(env, high, |a| - 1 - upper);
    assert high[|a| - 1 - upper..] == a[|a| - 1 - upper..|a| - lower];
  }

  // ---------------------------------------------------------------------------
  // Running both
  // ---------------------------------------------------------------------------

  datatype Operator = AndOp | AddOp | MulOp | UdivOp | UremOp | SllOp | SrlOp

  /** The value that both sides have to compute. */
  ghost function Meaning(op: Operator, w: nat, x: nat, y: nat): nat {
    match op
    case AndOp => L.BitAnd(x, y)
    case AddOp => AddVal(w, x, y)
    case MulOp => MulVal(w, x, y)
    case UdivOp => UdivVal(w, x, y)
    case UremOp => UremVal(x, y)
    case SllOp => SllVal(w, x, y)
    case SrlOp => SrlVal(x, y)
  }

  /** The circuit of an operator. */
  method Circuit(m: AigMgr, op: Operator, a: seq<Aig>, b: seq<Aig>) returns (c: seq<Aig>)
    requires m.Valid() && BitBlast.HeldVec(m, a) && BitBlast.HeldVec(m, b) && |a| == |b| > 0
    modifies m
    ensures m.Valid() && m.handles == old(m.handles) + Hs(c) && |c| == |a|
    ensures forall env :: V.Value(env, c) == Meaning(op, |a|, V.Value(env, a), V.Value(env, b))
  {
    hide AigMgr.Valid, Hs, V.Value, L.BitAnd, AddVal, MulVal, UdivVal, UremVal, SllVal, SrlVal, V.IsConjVec, V.IsShift;
    match op {
      case AndOp =>
        c := BitBlast.AndVec(m, a, b);
        AndValues(a, b, c);
      case AddOp => c := BitBlast.Add(m, a, b);
      case MulOp => c := Multiplier.Mul(m, a, b);
      case UdivOp => c := Divider.Udiv(m, a, b);
      case UremOp => c := Divider.Urem(m, a, b);
      case SllOp =>
        c := Shifter.TranslateShift(m, V.Left, a, b);
        ShiftValues(V.Left, a, b, c);
      case SrlOp =>
        c := Shifter.TranslateShift(m, V.Right, a, b);
        ShiftValues(V.Right, a, b, c);
    }
  }

  lemma AndValues(a: seq<Aig>, b: seq<Aig>, c: seq<Aig>)
    requires V.IsConjVec(c, a, b)
    ensures |c| == |a| && forall env :: V.Value(env, c) == L.BitAnd(V.Value(env, a), V.Value(env, b))
  {
    hide V.Value, L.BitAnd;
    forall env
      ensures V.Value(env, c) == L.BitAnd(V.Value(env, a), V.Value(env, b))
    {
      AndValue(env, a, b, c);
    }
  }

  lemma ShiftValues(dir: V.Direction, a: seq<Aig>, b: seq<Aig>, c: seq<Aig>)
    requires V.IsShift(dir, a, b, c)
    ensures |c| == |a|
    ensures forall env :: V.Value(env, c) == V.ShiftVal(dir, |a|, V.Value(env, a), V.Value(env, b))
  {
    hide V.Value, V.ShiftVal;
    forall env
      ensures V.Value(env, c) == V.ShiftVal(dir, |a|, V.Value(env, a), V.Value(env, b))
    {
      assert V.ShiftAt(dir, env, a, b, c);
    }
  }

  /** The evaluator's result of an operator. */
  method Evaluate(op: Operator, x: B.BV, y: B.BV) returns (z: B.BV)
    requires B.Wf(x) && B.Wf(y) && x.width == y.width < L.BASE
    ensures B.IsBV(z, x.width, Meaning(op, x.width, B.Value(x), B.Value(y)))
  {
    hide B.Wf, L.LVal, L.BitAnd, AddVal, MulVal, UdivVal, UremVal, SllVal, SrlVal;
    match op {
      case AndOp => z := BvOps.And(x, y);
      case AddOp => z := BvOps.Add(x, y);
      case MulOp => z := BvArith.Mul(x, y);
      case UdivOp => z := BvArith.Udiv(x, y);
      case UremOp => z := BvArith.Urem(x, y);
      case SllOp => z := BvShift.Sll(x, y);
      case SrlOp => z := BvShift.Srl(x, y);
    }
  }

  /** Whatever circuit and whatever vector have the operator's value, they have
      the same bits, for all inputs. */
  lemma OperatorAgrees(op: Operator, env: Env, a: seq<Aig>, b: seq<Aig>, c: seq<Aig>, x: B.BV, y: B.BV, z: B.BV)
    requires SameBits(env, a, x) && SameBits(env, b, y) && |c| == |a| == |b| && x.width == y.width
    requires V.Value(env, c) == Meaning(op, |a|, V.Value(env, a), V.Value(env, b))
    requires B.IsBV(z, x.width, Meaning(op, x.width, B.Value(x), B.Value(y)))
    ensures SameBits(env, c, z)
  {
    hide SameBits, Meaning, B.Wf, L.LVal, V.Value;
    BitsWf(env, a, x);
    BitsWf(env, b, y);
    SameBitsIffValue(env, a, x);
    SameBitsIffValue(env, b, y);
    SameBitsIffValue(env, c, z);
  }

  lemma BitsWf(env: Env, a: seq<Aig>, x: B.BV)
    requires SameBits(env, a, x)
    ensures B.Wf(x)
  {
  }

  /** Bit-blasting and evaluating a binary operator give the same bits. */
  method Binary(m: AigMgr, op: Operator, a: seq<Aig>, b: seq<Aig>, x: B.BV, y: B.BV, ghost env: Env)
      returns (c: seq<Aig>, z: B.BV)
    requires m.Valid() && BitBlast.HeldVec(m, a) && BitBlast.HeldVec(m, b) && |a| == |b| > 0
    requires x.width == y.width < L.BASE && SameBits(env, a, x) && SameBits(env, b, y)
    modifies m
    ensures m.Valid() && m.handles == old(m.handles) + Hs(c)
    ensures |c| == |a| && V.Value(env, c) == Meaning(op, |a|, V.Value(env, a), V.Value(env, b))
    ensures SameBits(env, c, z)
  {
    hide AigMgr.Valid, Hs, SameBits, Meaning, B.Wf, L.LVal, V.Value;
    BitsWf(env, a, x);
    BitsWf(env, b, y);
    c := Circuit(m, op, a, b);
    z := Evaluate(op, x, y);
    OperatorAgrees(op, env, a, b, c, x, y, z);
  }

  method Negation(m: AigMgr, a: seq<Aig>, x: B.BV, ghost env: Env) returns (c: seq<Aig>, z: B.BV)
    requires m.Valid() && BitBlast.HeldVec(m, a) && SameBits(env, a, x)
    modifies m
    ensures m.Valid() && m.handles == old(m.handles) + Hs(c)
    ensures |c| == |a| && V.Value(env, c) == Pow2(|a|) - 1 - V.Value(env, a)
    ensures SameBits(env, c, z)
  {
    hide AigMgr.Valid, Hs, SameBits, B.Wf, L.LVal, V.Value, Pow2;
    BitsWf(env, a, x);
    c := BitBlast.NotVec(m, a);
    z := BvOps.Not(x);
    NotValue(env, a, c);
    SameBitsIffValue(env, a, x);
    SameBitsIffValue(env, c, z);
  }

  /** Equality and unsigned comparison give one bit. */
  method Comparison(m: AigMgr, eq: bool, a: seq<Aig>, b: seq<Aig>, x: B.BV, y: B.BV, ghost env: Env)
      returns (c: Aig, z: B.BV)
    requires m.Valid() && BitBlast.HeldVec(m, a) && BitBlast.HeldVec(m, b) && |a| == |b| > 0
    requires x.width == y.width && SameBits(env, a, x) && SameBits(env, b, y)
    modifies m
    ensures m.Valid() && m.handles == old(m.handles) + H(c)
    ensures Eval(env, c) == if eq then V.Value(env, a) == V.Value(env, b) else V.Value(env, a) < V.Value(env, b)
    ensures SameBits(env, [c], z)
  {
    hide AigMgr.Valid, H, Hs, SameBits, B.Wf, L.LVal, V.Value, Eval;
    BitsWf(env, a, x);
    BitsWf(env, b, y);
    if eq {
      c := BitBlast.Eq(m, a, b);
      z := BvOps.Eq(x, y);
    } else {
      c := BitBlast.Ult(m, a, b);
      z := BvOps.Ult(x, y);
    }
    V.ValueOne(env, [c]);
    SameBitsIffValue(env, a, x);
    SameBitsIffValue(env, b, y);
    SameBitsIffValue(env, [c], z);
  }

  lemma SliceIs(x: nat, upper: nat, lower: nat)
    requires lower <= upper
    ensures BvShift.SliceVal(x, upper, lower) == x / Pow2(lower) % Pow2(upper - lower + 1)
  {
    hide Pow2;
  }

  method Extraction(m: AigMgr, a: seq<Aig>, upper: nat, lower: nat, x: B.BV, ghost env: Env)
      returns (c: seq<Aig>, z: B.BV)
    requires m.Valid() && BitBlast.HeldVec(m, a) && SameBits(env, a, x) && lower <= upper < |a| == x.width
    modifies m
    ensures m.Valid() && m.handles == old(m.handles) + Hs(c)
    ensures |c| == upper - lower + 1
    ensures V.Value(env, c) == V.Value(env, a) / Pow2(lower) % Pow2(upper - lower + 1)
    ensures SameBits(env, c, z)
  {
    hide AigMgr.Valid, Hs, SameBits, B.Wf, L.LVal, V.Value, BvShift.SliceVal;
    BitsWf(env, a, x);
    c := BitBlast.Slice(m, a, upper, lower);
    z := BvShift.Slice(x, upper, lower);
    SliceValue(env, a, upper, lower);
    SliceIs(V.Value(env, a), upper, lower);
    SameBitsIffValue(env, a, x);
    SameBitsIffValue(env, c, z);
  }

  method Concatenation(m: AigMgr, a: seq<Aig>, b: seq<Aig>, x: B.BV, y: B.BV, ghost env: Env)
      returns (c: seq<Aig>, z: B.BV)
    requires m.Valid() && BitBlast.HeldVec(m, a) && BitBlast.HeldVec(m, b)
    requires SameBits(env, a, x) && SameBits(env, b, y)
    modifies m
    ensures m.Valid() && m.handles == old(m.handles) + Hs(c)
    ensures |c| == |a| + |b| && V.Value(env, c) == V.Value(env, a) * Pow2(|b|) + V.Value(env, b)
    ensures SameBits(env, c, z)
  {
    hide AigMgr.Valid, Hs, SameBits, B.Wf, L.LVal, V.Value, Pow2;
    BitsWf(env, a, x);
    BitsWf(env, b, y);
    c := BitBlast.Concat(m, a, b);
    z := BvShift.Concat(x, y);
    V.ValueConcat(env, a, b);
    SameBitsIffValue(env, a, x);
    SameBitsIffValue(env, b, y);
    SameBitsIffValue(env, c, z);
  }

  method Conditional(m: AigMgr, s: Aig, a: seq<Aig>, b: seq<Aig>, u: B.BV, x: B.BV, y: B.BV, ghost env: Env)
      returns (c: seq<Aig>, z: B.BV)
    requires m.Valid() && m.Held(s) && BitBlast.HeldVec(m, a) && BitBlast.HeldVec(m, b)
    requires |a| == |b| && x.width == y.width && u.width == 1
    requires SameBits(env, [s], u) && SameBits(env, a, x) && SameBits(env, b, y)
    modifies m
    ensures m.Valid() && m.handles == old(m.handles) + Hs(c)
    ensures |c| == |a| && V.Value(env, c) == if Eval(env, s) then V.Value(env, a) else V.Value(env, b)
    ensures SameBits(env, c, z)
  {
    hide AigMgr.Valid, Hs, H, SameBits, B.Wf, L.LVal, V.EvalVec, Eval;
    BitsWf(env, [s], u);
    BitsWf(env, a, x);
    BitsWf(env, b, y);
    c := BitBlast.CondVec(m, s, a, b);
    z := BvOps.Ite(u, x, y);
    V.ValueOne(env, [s]);
    SameBitsIffValue(env, [s], u);
    SameBitsIffValue(env, a, x);
    SameBitsIffValue(env, b, y);
    SameBitsIffValue(env, c, z);
  }
}
