/** Logical shifts: the logarithmic shifter for power-of-two widths, and its
    use for vectors of every width. */
module Shifter {
  import opened AigNodes
  import opened AigTable
  import opened AigManager
  import opened Bits
  import opened Vectors
  import opened BitBlast

  lemma HeldMore(s: multiset<Node>, extra: multiset<Node>, p: multiset<Node>)
    requires p <= s
    ensures p <= s + extra && extra <= s + extra && s + extra - extra == s
  {
  }

  lemma Settle(s: multiset<Node>, p: multiset<Node>, q: multiset<Node>)
    ensures s + p + q - p == s + q && p <= s + p + q
  {
  }

  /** One bit of a stage: `moved` if `shift` is set, else `kept`. */
  method SelectBit(m: AigMgr, kept: Aig, moved: Aig, shift: Aig, notShift: Aig) returns (res: Aig)
    requires m.Valid() && m.Held(kept) && m.Held(moved) && m.Held(shift) && notShift == Not(shift)
    modifies m
    ensures m.Valid() && m.handles == old(m.handles) + H(res)
    ensures IsIte(res, shift, moved, kept)
  {
    hide AigMgr.Valid, H, IsConj, IsDisj, IsIte;
    HOfNot(shift);
    var and1 := m.And(kept, notShift);
    var and2 := m.And(moved, shift);
    res := m.Or(and1, and2);
    IteMeaning(res, and2, and1, shift, moved, kept);
    Settle2(old(m.handles), H(and1), H(and2), H(res));
    m.Release(and1);
    m.Release(and2);
  }

  /** Positions `lo` to `hi` of a stage that move in from position `from` on. */
  method SelectRange(m: AigMgr, v: seq<Aig>, from: nat, lo: nat, hi: nat, shift: Aig, notShift: Aig)
      returns (result: seq<Aig>)
    requires m.Valid() && HeldVec(m, v) && m.Held(shift) && notShift == Not(shift)
    requires lo <= hi <= |v| && from + hi - lo <= |v|
    modifies m
    ensures m.Valid() && m.handles == old(m.handles) + Hs(result)
    ensures IsIteVec(result, shift, v[from..from + hi - lo], v[lo..hi])
  {
    hide AigMgr.Valid, H, Hs, IsIte, IsIteVec;
    HsNil();
    IteStart(shift);
    EmptySlice(v, lo);
    EmptySlice(v, from);
    result := [];
    for i := lo to hi
      invariant m.Valid() && m.handles == old(m.handles) + Hs(result)
      invariant IsIteVec(result, shift, v[from..from + i - lo], v[lo..i])
    {
      HeldMore(old(m.handles), Hs(result), H(shift));
      HeldAt(m.handles, v, i, old(m.handles));
      HeldAt(m.handles, v, from + i - lo, old(m.handles));
      var a := SelectBit(m, v[i], v[from + i - lo], shift, notShift);
      IteStep(result, shift, v[from..from + i - lo], v[lo..i], a, v[from + i - lo], v[i]);
      SliceSnoc(v, lo, i);
      SliceSnoc(v, from, from + i - lo);
      Assoc(old(m.handles), Hs(result), H(a));
      HsSnoc(result, a);
      result := result + [a];
    }
  }

  /** Positions `lo` to `hi` of a stage that a shift clears. */
  method MaskRange(m: AigMgr, v: seq<Aig>, lo: nat, hi: nat, shift: Aig, notShift: Aig) returns (result: seq<Aig>)
    requires m.Valid() && HeldVec(m, v) && m.Held(notShift) && notShift == Not(shift) && lo <= hi <= |v|
    modifies m
    ensures m.Valid() && m.handles == old(m.handles) + Hs(result)
    ensures IsIteVec(result, shift, Zeros(hi - lo), v[lo..hi])
  {
    hide AigMgr.Valid, H, Hs, IsConj, IsIte, IsIteVec;
    HsNil();
    IteStart(shift);
    EmptySlice(v, lo);
    assert Zeros(0) == [];
    result := [];
    for i := lo to hi
      invariant m.Valid() && m.handles == old(m.handles) + Hs(result)
      invariant IsIteVec(result, shift, Zeros(i - lo), v[lo..i])
    {
      HeldMore(old(m.handles), Hs(result), H(notShift));
      HeldAt(m.handles, v, i, old(m.handles));
      var a := m.And(v[i], notShift);
      MaskIte(a, shift, v[i]);
      IteStep(result, shift, Zeros(i - lo), v[lo..i], a, False, v[i]);
      SliceSnoc(v, lo, i);
      ZerosSnoc(i - lo);
      Assoc(old(m.handles), Hs(result), H(a));
      HsSnoc(result, a);
      result := result + [a];
    }
  }

  lemma ZerosSnoc(n: nat)
    ensures Zeros(n + 1) == Zeros(n) + [False]
  {
  }

  lemma SettleStage(s: multiset<Node>, n: multiset<Node>, p: multiset<Node>, q: multiset<Node>)
    ensures s + n + p + q - n == s + (p + q) && n <= s + n + p + q && s <= s + n + p && n <= s + n + p && n <= s + n
  {
  }

  /** One left stage: moves by `n` places if `shift` is set. */
  method SllNBits(m: AigMgr, v: seq<Aig>, n: nat, shift: Aig) returns (result: seq<Aig>)
    requires m.Valid() && HeldVec(m, v) && m.Held(shift) && 0 < n < |v|
    modifies m
    ensures m.Valid() && m.handles == old(m.handles) + Hs(result)
    ensures |result| == |v| && IsIteVec(result, shift, Moved(Left, v, n), v)
  {
    hide AigMgr.Valid, H, Hs, Zeros, IsIteVec, Moved;
    var width := |v|;
    var notShift := m.Negate(shift);
    HeldMore(old(m.handles), H(notShift), Hs(v));
    HeldMore(old(m.handles), H(notShift), H(shift));
    var high := SelectRange(m, v, n, 0, width - n, shift, notShift);
    SettleStage(old(m.handles), H(notShift), Hs(high), multiset{});
    var low := MaskRange(m, v, width - n, width, shift, notShift);
    SliceForms(v, n);
    SliceForms(v, width - n);
    LeftStage(v, n, shift, high, low);
    HsConcat(high, low);
    SettleStage(old(m.handles), H(notShift), Hs(high), Hs(low));
    result := high + low;
    m.Release(notShift);
  }

  /** One right stage. */
  method SrlNBits(m: AigMgr, v: seq<Aig>, n: nat, shift: Aig) returns (result: seq<Aig>)
    requires m.Valid() && HeldVec(m, v) && m.Held(shift) && 0 < n < |v|
    modifies m
    ensures m.Valid() && m.handles == old(m.handles) + Hs(result)
    ensures |result| == |v| && IsIteVec(result, shift, Moved(Right, v, n), v)
  {
    hide AigMgr.Valid, H, Hs, Zeros, IsIteVec, Moved;
    var width := |v|;
    var notShift := m.Negate(shift);
    HeldMore(old(m.handles), H(notShift), Hs(v));
    SettleStage(old(m.handles), H(notShift), multiset{}, multiset{});
    var high := MaskRange(m, v, 0, n, shift, notShift);
    SettleStage(old(m.handles), H(notShift), Hs(high), multiset{});
    var low := SelectRange(m, v, 0, n, width, shift, notShift);
    SliceForms(v, n);
    SliceForms(v, width - n);
    RightStage(v, n, shift, high, low);
    HsConcat(high, low);
    SettleStage(old(m.handles), H(notShift), Hs(high), Hs(low));
    result := high + low;
    m.Release(notShift);
  }

  /** A stage in either direction; a move by no places is a copy. */
  method StageNBits(m: AigMgr, dir: Direction, v: seq<Aig>, n: nat, shift: Aig) returns (result: seq<Aig>)
    requires m.Valid() && HeldVec(m, v) && m.Held(shift) && n < |v|
    modifies m
    ensures m.Valid() && m.handles == old(m.handles) + Hs(result)
    ensures |result| == |v| && IsIteVec(result, shift, Moved(dir, v, n), v)
  {
    hide AigMgr.Valid, H, Hs, Moved, IsIteVec;
    if n == 0 {
      MovedByZero(dir, v, shift);
      result := CopyVec(m, v);
    } else {
      match dir
      case Left => result := SllNBits(m, v, n, shift);
      case Right => result := SrlNBits(m, v, n, shift);
    }
  }

  /** The shifter for a vector of 2^k bits and a shift amount of k bits. */
  method LogShift(m: AigMgr, dir: Direction, v: seq<Aig>, amount: seq<Aig>) returns (result: seq<Aig>)
    requires m.Valid() && HeldVec(m, v) && HeldVec(m, amount)
    requires |amount| > 0 && |v| == Pow2(|amount|)
    modifies m
    ensures m.Valid() && m.handles == old(m.handles) + Hs(result)
    ensures |result| == |v| && IsShift(dir, v, amount, result)
  {
    hide AigMgr.Valid, H, Hs, IsIteVec, IsShift, Pow2, Moved;
    var width := |amount|;
    SliceEnds(amount);
    ShiftNone(dir, v);
    Pow2Unfold(0);
    Pow2Less(0, width);
    HeldAt(m.handles, amount, width - 1, m.handles);
    result := StageNBits(m, dir, v, 1, amount[width - 1]);
    SuffixCons(amount, width - 1);
    ShiftStage(dir, v, [], v, amount[width - 1], result);
    for i := width - 1 downto 0
      invariant m.Valid() && m.handles == old(m.handles) + Hs(result)
      invariant |result| == |v| && IsShift(dir, v, amount[i..], result)
    {
      var temp := result;
      ghost var low := amount[i + 1..];
      assert |low| == width - i - 1;
      Pow2Less(|low|, width);
      HeldAt(m.handles, amount, i, old(m.handles));
      SettleLast2(old(m.handles), Hs(temp), multiset{});
      result := StageNBits(m, dir, temp, Pow2(width - i - 1), amount[i]);
      SettleLast2(old(m.handles), Hs(temp), Hs(result));
      ReleaseVec(m, temp);
      SuffixCons(amount, i);
      ShiftStage(dir, v, low, temp, amount[i], result);
    }
  }

  lemma SettleLast2(s: multiset<Node>, p: multiset<Node>, q: multiset<Node>)
    ensures p <= s + p && p <= s + p + q && s + p + q - p == s + q
  {
  }

  lemma Pow2Less(a: nat, b: nat)
    requires a < b
    ensures Pow2(a) < Pow2(b)
  {
    Pow2Mono(a, b - 1);
  }

  // ---------------------------------------------------------------------------
  // Any width
  // ---------------------------------------------------------------------------

  /** A vector of one bit is shifted by one place or not at all. */
  lemma OneBitShift(dir: Direction, v: seq<Aig>, s: seq<Aig>, n: seq<Aig>, r: seq<Aig>)
    requires |v| == |s| == |n| == 1 && n[0] == Not(s[0]) && IsConjVec(r, v, n)
    ensures IsShift(dir, v, s, r)
  {
    forall env
      ensures ShiftAt(dir, env, v, s, r)
    {
      EvalNot(env, s[0]);
      assert IsConj(r[0], v[0], n[0]);
      ValueOne(env, v);
      ValueOne(env, s);
      ValueOne(env, r);
      Pow2Unfold(1);
      Pow2Unfold(0);
    }
  }

  /** What the pieces of the translation compute, put together. */
  lemma TranslateCorrect(dir: Direction, v: seq<Aig>, s: seq<Aig>, k: nat, wide: seq<Aig>, shifted: seq<Aig>,
                         big: Aig, res: seq<Aig>)
    requires 0 < k < |v| == |s| <= Pow2(k)
    requires wide == Zeros(Pow2(k) - |v|) + v
    requires IsShift(dir, wide, s[|s| - k..], shifted)
    requires forall env :: Eval(env, big) == (Value(env, s[..|s| - k]) != 0)
    requires IsIteVec(res, big, Zeros(|v|), shifted[|shifted| - |v|..])
    ensures IsShift(dir, v, s, res)
  {
    forall env
      ensures ShiftAt(dir, env, v, s, res)
    {
      TranslateAt(dir, env, v, s, k, wide, shifted, big, res);
    }
  }

  lemma TranslateAt(dir: Direction, env: Env, v: seq<Aig>, s: seq<Aig>, k: nat, wide: seq<Aig>, shifted: seq<Aig>,
                    big: Aig, res: seq<Aig>)
    requires 0 < k < |v| == |s| <= Pow2(k)
    requires wide == Zeros(Pow2(k) - |v|) + v
    requires IsShift(dir, wide, s[|s| - k..], shifted)
    requires Eval(env, big) == (Value(env, s[..|s| - k]) != 0)
    requires IsIteVec(res, big, Zeros(|v|), shifted[|shifted| - |v|..])
    ensures ShiftAt(dir, env, v, s, res)
  {
    hide Pow2, ShiftVal, Value, Zeros, IsIteVec;
    var w, p := |v|, Pow2(k);
    var low, high := s[w - k..], s[..w - k];
    ValueBound(env, v);
    ValueSplit(env, s, w - k);
    ZerosFacts(p - w);
    ZerosFacts(w);
    ValueConcat(env, Zeros(p - w), v);
    assert ShiftAt(dir, env, wide, low, shifted);
    ValueSplit(env, shifted, p - w);
    IteValue(env, res, big, Zeros(w), shifted[p - w..]);
    Narrow(dir, w, p, Value(env, v), Value(env, high), Value(env, low));
  }

  /** Shifting in the wider vector by the low part of the amount, unless the
      high part already moves everything out. */
  lemma Narrow(dir: Direction, w: nat, p: nat, x: nat, high: nat, low: nat)
    requires x < Pow2(w) && w <= p
    ensures ShiftVal(dir, w, x, high * p + low) ==
            if high != 0 then 0 else ShiftVal(dir, p, x, low) % Pow2(w)
  {
    hide Pow2, SllVal, SrlVal;
    if high != 0 {
      MulLe(1, high, p);
      ShiftOut(w, x, high * p + low);
    } else {
      SllNarrow(w, p, x, low);
      SrlBound(w, x, low);
      DivModUnique(SrlVal(x, low), Pow2(w), 0, SrlVal(x, low));
    }
  }

  lemma IteValue(env: Env, r: seq<Aig>, c: Aig, t: seq<Aig>, e: seq<Aig>)
    requires IsIteVec(r, c, t, e)
    ensures Value(env, r) == if Eval(env, c) then Value(env, t) else Value(env, e)
  {
    hide Num, Eval, EvalVec;
    assert EvalVec(env, r) == if Eval(env, c) then EvalVec(env, t) else EvalVec(env, e);
  }

  /** The number of address bits is below the width. */
  lemma LogLess(k: nat, width: nat)
    requires width > 1 && k > 0 && Pow2(k - 1) < width
    ensures k < width
  {
    PowBig(k - 1);
  }

  lemma {:induction false} PowBig(n: nat)
    ensures n < Pow2(n)
  {
    if n > 0 {
      PowBig(n - 1);
    }
  }

  /** Whether any bit of the vector is set. */
  method NonZero(m: AigMgr, v: seq<Aig>) returns (res: Aig)
    requires m.Valid() && HeldVec(m, v) && |v| > 0
    modifies m
    ensures m.Valid() && m.handles == old(m.handles) + H(res)
    ensures forall env :: Eval(env, res) == (Value(env, v) != 0)
  {
    hide AigMgr.Valid, H, Hs, Value, Zeros, Eval;
    if |v| > 1 {
      ZerosFacts(|v|);
      var tmp := BitBlast.Eq(m, Zeros(|v|), v);
      HeldMore(old(m.handles), H(tmp), multiset{});
      res := m.Negate(tmp);
      Settle(old(m.handles), H(tmp), H(res));
      m.Release(tmp);
      forall env
        ensures Eval(env, res) == (Value(env, v) != 0)
      {
        EvalNot(env, tmp);
      }
    } else {
      HeldAt(m.handles, v, 0, m.handles);
      m.HeldIsLive(v[0]);
      res := m.Copy(v[0]);
      forall env
        ensures Eval(env, res) == (Value(env, v) != 0)
      {
        ValueOne(env, v);
      }
    }
  }

  /** `v` with zeros in front, up to `width` bits. */
  method ZeroExtend(m: AigMgr, v: seq<Aig>, width: nat) returns (res: seq<Aig>)
    requires m.Valid() && HeldVec(m, v) && |v| <= width
    modifies m
    ensures m.Valid() && m.handles == old(m.handles) + Hs(res)
    ensures res == Zeros(width - |v|) + v
  {
    hide AigMgr.Valid, H, Hs, Zeros;
    var delta := width - |v|;
    if delta == 0 {
      res := CopyVec(m, v);
      assert Zeros(0) + v == v;
    } else {
      ZerosFacts(delta);
      res := BitBlast.Concat(m, Zeros(delta), v);
    }
  }

  /** Whether the amount has a bit above its `k` low ones. */
  method HighBits(m: AigMgr, amount: seq<Aig>, k: nat) returns (cond: Aig)
    requires m.Valid() && HeldVec(m, amount) && k < |amount|
    modifies m
    ensures m.Valid() && m.handles == old(m.handles) + H(cond)
    ensures forall env :: Eval(env, cond) == (Value(env, amount[..|amount| - k]) != 0)
  {
    hide AigMgr.Valid, H, Hs, Value, Eval;
    var upper := BitBlast.Slice(m, amount, |amount| - 1, k);
    SliceForms(amount, |amount| - k);
    HeldMore(old(m.handles), Hs(upper), multiset{});
    cond := NonZero(m, upper);
    Settle(old(m.handles), Hs(upper), H(cond));
    ReleaseVec(m, upper);
  }

  /** Zero if `cond` holds, else the low bits of `v`. */
  method ZeroOrLow(m: AigMgr, cond: Aig, v: seq<Aig>, width: nat) returns (res: seq<Aig>)
    requires m.Valid() && m.Held(cond) && HeldVec(m, v) && 0 < width <= |v|
    modifies m
    ensures m.Valid() && m.handles == old(m.handles) + Hs(res)
    ensures IsIteVec(res, cond, Zeros(width), v[|v| - width..])
  {
    hide AigMgr.Valid, H, Hs, IsIteVec, Zeros;
    ZerosFacts(width);
    if width == |v| {
      SliceEnds(v);
      res := CondVec(m, cond, Zeros(width), v);
    } else {
      var low := BitBlast.Slice(m, v, width - 1, 0);
      assert low == v[|v| - width..];
      HeldMore(old(m.handles), Hs(low), H(cond));
      res := CondVec(m, cond, Zeros(width), low);
      Settle(old(m.handles), Hs(low), Hs(res));
      ReleaseVec(m, low);
    }
  }

  lemma SettleWide(s: multiset<Node>, l: multiset<Node>, c: multiset<Node>, w: multiset<Node>, sh: multiset<Node>,
                   r: multiset<Node>)
    ensures s + l + c + w + sh - w == s + l + c + sh && w <= s + l + c + w + sh
    ensures s + l + c + sh - l == s + c + sh && l <= s + l + c + sh
    ensures s + c + sh + r - c == s + sh + r && c <= s + c + sh + r
    ensures s + sh + r - sh == s + r && sh <= s + sh + r
    ensures c <= s + c + sh && sh <= s + c + sh
  {
  }

  /** The case of more than one bit, with `k` the number of low amount bits. */
  method WideShift(m: AigMgr, dir: Direction, v: seq<Aig>, amount: seq<Aig>, k: nat) returns (res: seq<Aig>)
    requires m.Valid() && HeldVec(m, v) && HeldVec(m, amount) && 0 < k < |v| == |amount| <= Pow2(k)
    modifies m
    ensures m.Valid() && m.handles == old(m.handles) + Hs(res)
    ensures IsShift(dir, v, amount, res)
  {
    hide AigMgr.Valid, H, Hs, IsShift, IsIteVec, Value, Zeros, Pow2, Eval;
    ghost var s := m.handles;
    var lower := BitBlast.Slice(m, amount, k - 1, 0);
    assert lower == amount[|amount| - k..];
    HeldMore(s, Hs(lower), Hs(v));
    HeldMore(s, Hs(lower), Hs(amount));
    var cond := HighBits(m, amount, k);
    HeldMore(s + Hs(lower), H(cond), Hs(v));
    HeldMore(s + Hs(lower), H(cond), Hs(lower));
    var wide := ZeroExtend(m, v, Pow2(k));
    HeldMore(s + Hs(lower) + H(cond), Hs(wide), Hs(lower));
    var shifted := LogShift(m, dir, wide, lower);
    SettleWide(s, Hs(lower), H(cond), Hs(wide), Hs(shifted), multiset{});
    ReleaseVec(m, wide);
    ReleaseVec(m, lower);
    res := ZeroOrLow(m, cond, shifted, |v|);
    SettleWide(s, Hs(lower), H(cond), Hs(wide), Hs(shifted), Hs(res));
    m.Release(cond);
    ReleaseVec(m, shifted);
    TranslateCorrect(dir, v, amount, k, wide, shifted, cond, res);
  }

  /** Shifts of vectors of any width by an amount of the same width.  The vector
      is extended to the next power of two and shifted by the low bits of the
      amount; a non-zero bit above those makes the result zero. */
  method TranslateShift(m: AigMgr, dir: Direction, v: seq<Aig>, amount: seq<Aig>) returns (res: seq<Aig>)
    requires m.Valid() && HeldVec(m, v) && HeldVec(m, amount) && |v| == |amount| > 0
    modifies m
    ensures m.Valid() && m.handles == old(m.handles) + Hs(res)
    ensures IsShift(dir, v, amount, res)
  {
    hide AigMgr.Valid, H, Hs, IsShift, IsIteVec, IsConjVec, Value, Zeros, Pow2, Eval;
    var width := |v|;
    var pow2, widthShift := 1, 0;
    Pow2Unfold(0);
    while pow2 < width
      modifies {}
      invariant pow2 == Pow2(widthShift)
      invariant widthShift > 0 ==> Pow2(widthShift - 1) < width
      decreases width - pow2
    {
      Pow2Unfold(widthShift + 1);
      pow2, widthShift := 2 * pow2, widthShift + 1;
    }
    if width == 1 {
      var tmp := NotVec(m, amount);
      HeldMore(old(m.handles), Hs(tmp), Hs(v));
      res := AndVec(m, v, tmp);
      OneBitShift(dir, v, amount, tmp, res);
      Settle(old(m.handles), Hs(tmp), Hs(res));
      ReleaseVec(m, tmp);
    } else {
      LogLess(widthShift, width);
      res := WideShift(m, dir, v, amount, widthShift);
    }
  }
}
