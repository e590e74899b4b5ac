/** The restoring array divider: every row subtracts the divisor from the
    partial remainder if it fits. */
module Divider {
  import opened AigNodes
  import opened AigTable
  import opened AigManager
  import opened Bits
  import opened Vectors
  import opened BitBlast

  // ---------------------------------------------------------------------------
  // Cells
  // ---------------------------------------------------------------------------

  /** Carry of adding `r`, `d` and `ci`. */
  ghost predicate IsCarryGate(co: Aig, r: Aig, d: Aig, ci: Aig) {
    forall env :: Eval(env, co) == (Bit(Eval(env, r)) + Bit(Eval(env, d)) + Bit(Eval(env, ci)) >= 2)
  }

  /** Sum bit of `r`, `d` and `ci` if `q` holds, else `r`. */
  ghost predicate IsSumGate(s: Aig, r: Aig, d: Aig, ci: Aig, q: Aig) {
    forall env :: Eval(env, s) ==
      if Eval(env, q) then Xor3(Eval(env, r), Eval(env, d), Eval(env, ci)) else Eval(env, r)
  }

  function Xor3(x: bool, y: bool, z: bool): bool {
    (x != y) != z
  }

  lemma SettleCarry(s: multiset<Node>, o: multiset<Node>, a: multiset<Node>, g: multiset<Node>, r: multiset<Node>)
    ensures s + o + a + g + r - o - a - g == s + r
    ensures o <= s + o + a + g + r && a <= s + o + a + g + r - o && g <= s + o + a + g + r - o - a
  {
  }

  lemma HeldTwo(s: multiset<Node>, o: multiset<Node>, a: multiset<Node>, p: multiset<Node>)
    requires p <= s
    ensures p <= s + o && p <= s + o + a && o <= s + o && o <= s + o + a && a <= s + o + a
  {
  }

  method CarryGate(m: AigMgr, r: Aig, d: Aig, ci: Aig) returns (co: Aig)
    requires m.Valid() && m.Held(r) && m.Held(d) && m.Held(ci)
    modifies m
    ensures m.Valid() && m.handles == old(m.handles) + H(co)
    ensures IsCarryGate(co, r, d, ci)
  {
    hide AigMgr.Valid, H, IsConj, IsDisj, IsCarryGate;
    var dOrCi := m.Or(d, ci);
    var dAndCi := m.And(d, ci);
    HeldTwo(old(m.handles), H(dOrCi), H(dAndCi), H(r));
    var both := m.And(dOrCi, r);
    co := m.Or(both, dAndCi);
    SettleCarry(old(m.handles), H(dOrCi), H(dAndCi), H(both), H(co));
    m.Release(dOrCi);
    m.Release(dAndCi);
    m.Release(both);
    CarryGateCorrect(co, r, d, ci, dOrCi, dAndCi, both);
  }

  lemma CarryGateCorrect(co: Aig, r: Aig, d: Aig, ci: Aig, o: Aig, a: Aig, g: Aig)
    requires IsDisj(o, d, ci) && IsConj(a, d, ci) && IsConj(g, o, r) && IsDisj(co, g, a)
    ensures IsCarryGate(co, r, d, ci)
  {
  }

  lemma SettleSum(s: multiset<Node>, o: multiset<Node>, a: multiset<Node>, t1: multiset<Node>, t2: multiset<Node>,
                  tr: multiset<Node>, ta: multiset<Node>, r: multiset<Node>)
    ensures s + o + a + t1 + t2 + tr + ta + r - t1 - t2 - a - o - ta - tr == s + r
    ensures t1 <= s + o + a + t1 + t2 + tr + ta + r
    ensures t2 <= s + o + a + t1 + t2 + tr + ta + r - t1
    ensures a <= s + o + a + t1 + t2 + tr + ta + r - t1 - t2
    ensures o <= s + o + a + t1 + t2 + tr + ta + r - t1 - t2 - a
    ensures ta <= s + o + a + t1 + t2 + tr + ta + r - t1 - t2 - a - o
    ensures tr <= s + o + a + t1 + t2 + tr + ta + r - t1 - t2 - a - o - ta
  {
  }

  method SumGate(m: AigMgr, r: Aig, d: Aig, ci: Aig, q: Aig) returns (s: Aig)
    requires m.Valid() && m.Held(r) && m.Held(d) && m.Held(ci) && m.Held(q)
    modifies m
    ensures m.Valid() && m.handles == old(m.handles) + H(s)
    ensures IsSumGate(s, r, d, ci, q)
  {
    hide AigMgr.Valid, H, IsConj, IsDisj, IsSumGate;
    ghost var hs := m.handles;
    var dOrCi := m.Or(d, ci);
    var dAndCi := m.And(d, ci);
    HOfNot(dAndCi);
    HeldTwo(hs, H(dOrCi), H(dAndCi), H(q));
    HeldTwo(hs, H(dOrCi), H(dAndCi), H(r));
    var t1 := m.And(dOrCi, Not(dAndCi));
    HeldTwo(hs + H(dOrCi) + H(dAndCi), H(t1), multiset{}, H(q));
    HeldTwo(hs + H(dOrCi) + H(dAndCi), H(t1), multiset{}, H(r));
    var t2 := m.And(t1, q);
    HeldTwo(hs + H(dOrCi) + H(dAndCi) + H(t1), H(t2), multiset{}, H(r));
    var t2OrR := m.Or(t2, r);
    HeldTwo(hs + H(dOrCi) + H(dAndCi) + H(t1) + H(t2), H(t2OrR), multiset{}, H(r));
    HeldTwo(hs + H(dOrCi) + H(dAndCi) + H(t1) + H(t2), H(t2OrR), multiset{}, H(t2));
    var t2AndR := m.And(t2, r);
    HOfNot(t2AndR);
    s := m.And(t2OrR, Not(t2AndR));
    SettleSum(hs, H(dOrCi), H(dAndCi), H(t1), H(t2), H(t2OrR), H(t2AndR), H(s));
    m.Release(t1);
    m.Release(t2);
    m.Release(dAndCi);
    m.Release(dOrCi);
    m.Release(t2AndR);
    m.Release(t2OrR);
    SumGateCorrect(s, r, d, ci, q, dOrCi, dAndCi, t1, t2, t2OrR, t2AndR);
  }

  lemma SumGateCorrect(s: Aig, r: Aig, d: Aig, ci: Aig, q: Aig, o: Aig, a: Aig, t1: Aig, t2: Aig, tr: Aig, ta: Aig)
    requires IsDisj(o, d, ci) && IsConj(a, d, ci) && IsConj(t1, o, Not(a)) && IsConj(t2, t1, q)
    requires IsDisj(tr, t2, r) && IsConj(ta, t2, r) && IsConj(s, tr, Not(ta))
    ensures IsSumGate(s, r, d, ci, q)
  {
    forall env
      ensures Eval(env, s) == if Eval(env, q) then Xor3(Eval(env, r), Eval(env, d), Eval(env, ci)) else Eval(env, r)
    {
      EvalNot(env, a);
      EvalNot(env, ta);
      assert Eval(env, t1) == (Eval(env, o) && Eval(env, Not(a)));
      assert Eval(env, t2) == (Eval(env, t1) && Eval(env, q));
    }
  }

  // ---------------------------------------------------------------------------
  // Rows, least significant bit first
  // ---------------------------------------------------------------------------

  ghost function Lsb(env: Env, v: seq<Aig>): nat {
    NumLsb(EvalVec(env, v))
  }

  ghost predicate IsCarryChain(s: seq<Aig>, nd: seq<Aig>, c: seq<Aig>) {
    && |s| == |c| == |nd| + 1 && c[0] == True
    && forall i :: 0 <= i < |nd| ==> IsCarryGate(c[i + 1], s[i], nd[i], c[i])
  }

  ghost predicate IsSumRow(d: seq<Aig>, s: seq<Aig>, nd: seq<Aig>, c: seq<Aig>, q: Aig) {
    && |d| == |nd| && |s| == |c| == |nd| + 1
    && forall i :: 0 <= i < |nd| ==> IsSumGate(d[i], s[i], nd[i], c[i], q)
  }

  /** The chain adds the complement of the divisor plus one: `x` are the sum bits. */
  ghost predicate SumBits(env: Env, s: seq<Aig>, nd: seq<Aig>, c: seq<Aig>, n: nat, x: seq<bool>)
    requires n <= |nd| && |s| == |c| == |nd| + 1
  {
    && |x| == n
    && (forall i :: 0 <= i < n ==> x[i] == Xor3(Eval(env, s[i]), Eval(env, nd[i]), Eval(env, c[i])))
    && NumLsb(x) + Bit(Eval(env, c[n])) * Pow2(n) == Lsb(env, s[..n]) + Lsb(env, nd[..n]) + 1
  }

  lemma {:induction false} ChainSum(env: Env, s: seq<Aig>, nd: seq<Aig>, c: seq<Aig>, n: nat) returns (x: seq<bool>)
    requires IsCarryChain(s, nd, c) && n <= |nd|
    ensures SumBits(env, s, nd, c, n, x)
  {
    hide IsCarryGate, Pow2, NumLsb, Eval;
    if n == 0 {
      x := [];
      Pow2Unfold(0);
      LsbEmpty(env, s);
      LsbEmpty(env, nd);
      EvalTrue(env);
    } else {
      var k := n - 1;
      var y := ChainSum(env, s, nd, c, k);
      var b := Xor3(Eval(env, s[k]), Eval(env, nd[k]), Eval(env, c[k]));
      x := y + [b];
      NumLsbSnoc(y, b);
      LsbSnoc(env, s, k);
      LsbSnoc(env, nd, k);
      CellSum(env, c[n], s[k], nd[k], c[k]);
      Pow2Unfold(n);
      CarryStep(Pow2(k), Bit(Eval(env, s[k])), Bit(Eval(env, nd[k])), Bit(Eval(env, c[k])), Bit(b),
                Bit(Eval(env, c[n])), Lsb(env, s[..k]), Lsb(env, nd[..k]) + 1, NumLsb(y));
    }
  }

  lemma EvalTrue(env: Env)
    ensures Eval(env, True) && !Eval(env, False)
  {
  }

  lemma LsbEmpty(env: Env, v: seq<Aig>)
    ensures Lsb(env, v[..0]) == 0 && NumLsb([]) == 0
  {
  }

  lemma LsbSnoc(env: Env, v: seq<Aig>, k: nat)
    requires k < |v|
    ensures Lsb(env, v[..k + 1]) == Lsb(env, v[..k]) + Bit(Eval(env, v[k])) * Pow2(k)
  {
    hide NumLsb, Pow2, Eval;
    NumLsbSnoc(EvalVec(env, v[..k]), Eval(env, v[k]));
    assert EvalVec(env, v[..k + 1]) == EvalVec(env, v[..k]) + [Eval(env, v[k])];
  }

  lemma LsbCons(env: Env, a: Aig, v: seq<Aig>)
    ensures Lsb(env, [a] + v) == Bit(Eval(env, a)) + 2 * Lsb(env, v)
  {
    hide Eval;
    assert EvalVec(env, [a] + v) == [Eval(env, a)] + EvalVec(env, v);
    assert ([Eval(env, a)] + EvalVec(env, v))[1..] == EvalVec(env, v);
  }

  lemma {:induction false} LsbBound(s: seq<bool>)
    ensures NumLsb(s) < Pow2(|s|)
  {
    if s != [] {
      LsbBound(s[1..]);
    }
  }

  lemma CellSum(env: Env, co: Aig, r: Aig, d: Aig, ci: Aig)
    requires IsCarryGate(co, r, d, ci)
    ensures 2 * Bit(Eval(env, co)) + Bit(Xor3(Eval(env, r), Eval(env, d), Eval(env, ci)))
            == Bit(Eval(env, r)) + Bit(Eval(env, d)) + Bit(Eval(env, ci))
  {
    hide Eval;
  }

  /** The complement of a number. */
  lemma {:induction false} Complement(s: seq<bool>, t: seq<bool>)
    requires |s| == |t| && forall i :: 0 <= i < |s| ==> t[i] == !s[i]
    ensures NumLsb(s) + NumLsb(t) == Pow2(|s|) - 1
  {
    if s != [] {
      Complement(s[1..], t[1..]);
    }
  }

  lemma ReversedBits(s: seq<bool>) returns (r: seq<bool>)
    ensures |r| == |s| && forall i :: 0 <= i < |s| ==> r[i] == s[|s| - 1 - i]
    ensures NumLsb(r) == Num(s)
  {
    hide Num, NumLsb;
    r := seq(|s|, i requires 0 <= i < |s| => s[|s| - 1 - i]);
    NumLsbReversed(s, r);
  }

  /** The reversed and inverted divisor. */
  lemma DivisorValue(env: Env, d: seq<Aig>, nd: seq<Aig>)
    requires |nd| == |d| && forall i :: 0 <= i < |d| ==> nd[i] == Not(d[|d| - 1 - i])
    ensures Lsb(env, nd) == Pow2(|d|) - 1 - Value(env, d)
  {
    hide NumLsb, Num, Pow2, Eval;
    var r := ReversedBits(EvalVec(env, d));
    forall i | 0 <= i < |d|
      ensures EvalVec(env, nd)[i] == !r[i]
    {
      EvalNot(env, d[|d| - 1 - i]);
    }
    Complement(r, EvalVec(env, nd));
  }

  // ---------------------------------------------------------------------------
  // One row of the division
  // ---------------------------------------------------------------------------

  /** Subtracting `d` from the partial remainder 2r + a if it fits.  The top bit
      of the shifted remainder is covered by the quotient bit. */
  lemma RowArith(p: nat, d: nat, r: nat, a: nat, low: nat, top: nat, x: nat, carry: nat, q: bool, r': nat)
    requires low < p && x < p && d < p && top <= 1 && carry <= 1
    requires a + 2 * r == low + top * p
    requires x + carry * p == low + (p - 1 - d) + 1
    requires q == (carry == 1 || top == 1) && r' == if q then x else low
    requires if d > 0 then r < d && a <= 1 else a + 2 * r < p
    ensures a + 2 * r == (if q then d else 0) + r'
    ensures d > 0 ==> r' < d
    ensures d == 0 ==> q
  {
    assert top == 0 || top == 1;
    assert carry == 0 || carry == 1;
  }

  /** The prefix `x` of the dividend, its quotient so far and the remainder. */
  ghost predicate DivInv(j: nat, x: nat, d: nat, q: nat, r: nat) {
    if d > 0 then x == q * d + r && r < d else r == x && q == Pow2(j) - 1
  }

  lemma DivStep(j: nat, n: nat, x: nat, d: nat, q: nat, r: nat, a: nat, qb: nat, r': nat)
    requires DivInv(j, x, d, q, r) && a + 2 * r == qb * d + r'
    requires d > 0 ==> r' < d
    requires d == 0 ==> qb == 1
    ensures DivInv(j + 1, 2 * x + a, d, 2 * q + qb, r')
  {
    if d > 0 {
      assert (2 * q + qb) * d == 2 * (q * d) + qb * d;
    }
  }

  /** The state after `j` rows: prefix of the dividend `a`, quotient bits `q`,
      and the remainder above position 0 of row `s`. */
  ghost predicate RowInv(a: seq<Aig>, d: seq<Aig>, j: nat, q: seq<Aig>, s: seq<Aig>)
    requires j <= |a|
  {
    |s| > 0 && forall env :: RowInvAt(env, a, d, j, q, s)
  }

  ghost predicate RowInvAt(env: Env, a: seq<Aig>, d: seq<Aig>, j: nat, q: seq<Aig>, s: seq<Aig>)
    requires j <= |a| && |s| > 0
  {
    DivInv(j, Value(env, a[..j]), Value(env, d), Value(env, q), Lsb(env, s[1..]))
  }

  /** What one row of cells does to the state. */
  lemma RowCorrect(env: Env, a: seq<Aig>, d: seq<Aig>, nd: seq<Aig>, j: nat, q: seq<Aig>, s: seq<Aig>, c: seq<Aig>,
                   qb: Aig, diff: seq<Aig>)
    requires j < |a| == |d| == |nd| && forall i :: 0 <= i < |d| ==> nd[i] == Not(d[|d| - 1 - i])
    requires |s| == |nd| + 1 && RowInvAt(env, a, d, j, q, s) && s[0] == a[j]
    requires IsCarryChain(s, nd, c) && IsDisj(qb, c[|d|], s[|d|]) && IsSumRow(diff, s, nd, c, qb)
    ensures RowInvAt(env, a, d, j + 1, q + [qb], [False] + diff)
  {
    hide NumLsb, Value, Pow2, Eval, IsCarryChain, DivInv, Lsb;
    var n := |d|;
    var x := ChainSum(env, s, nd, c, n);
    var low, top := Lsb(env, s[..n]), Bit(Eval(env, s[n]));
    var r, r', bit, dv := Lsb(env, s[1..]), Lsb(env, diff), Bit(Eval(env, a[j])), Value(env, d);
    SliceEnds(nd);
    DivisorValue(env, d, nd);
    LsbOfRow(env, s);
    LsbLow(env, s[..n]);
    LsbBound(x);
    ValueBound(env, d);
    DiffValue(env, s, nd, c, qb, diff, x);
    RemainderFits(env, a, d, j, q, s);
    RowArith(Pow2(n), dv, r, bit, low, top, NumLsb(x), Bit(Eval(env, c[n])), Eval(env, qb), r');
    DivStep(j, n, Value(env, a[..j]), dv, Value(env, q), r, bit, Bit(Eval(env, qb)), r');
    ValueSnoc(env, a, j);
    ValueAppend(env, q, qb);
    DropFirst(False, diff);
  }

  lemma DropFirst(a: Aig, v: seq<Aig>)
    ensures ([a] + v)[1..] == v
  {
  }

  lemma ValueAppend(env: Env, q: seq<Aig>, b: Aig)
    ensures Value(env, q + [b]) == 2 * Value(env, q) + Bit(Eval(env, b))
  {
    hide Num, Eval;
    NumSnoc(EvalVec(env, q), Eval(env, b));
    assert EvalVec(env, q + [b]) == EvalVec(env, q) + [Eval(env, b)];
  }

  lemma ValueSnoc(env: Env, a: seq<Aig>, j: nat)
    requires j < |a|
    ensures Value(env, a[..j + 1]) == 2 * Value(env, a[..j]) + Bit(Eval(env, a[j]))
  {
    hide Value, Eval;
    PrefixSnoc(a, j);
    ValueAppend(env, a[..j], a[j]);
  }

  /** A row as lowest bit and rest, and as low part and top bit. */
  lemma LsbOfRow(env: Env, s: seq<Aig>)
    requires |s| > 0
    ensures Bit(Eval(env, s[0])) + 2 * Lsb(env, s[1..])
            == Lsb(env, s[..|s| - 1]) + Bit(Eval(env, s[|s| - 1])) * Pow2(|s| - 1)
  {
    hide NumLsb, Pow2, Eval, Lsb;
    LsbSnoc(env, s, |s| - 1);
    LsbCons(env, s[0], s[1..]);
    SliceEnds(s);
    SuffixCons(s, 0);
  }

  lemma LsbLow(env: Env, v: seq<Aig>)
    ensures Lsb(env, v) < Pow2(|v|)
  {
    LsbBound(EvalVec(env, v));
  }

  lemma DiffValue(env: Env, s: seq<Aig>, nd: seq<Aig>, c: seq<Aig>, q: Aig, diff: seq<Aig>, x: seq<bool>)
    requires IsSumRow(diff, s, nd, c, q) && SumBits(env, s, nd, c, |nd|, x)
    ensures Lsb(env, diff) == if Eval(env, q) then NumLsb(x) else Lsb(env, s[..|nd|])
  {
    hide NumLsb, Pow2, Eval, IsSumGate;
    forall i | 0 <= i < |nd|
      ensures Eval(env, diff[i]) == if Eval(env, q) then x[i] else Eval(env, s[i])
    {
      SumCell(env, diff[i], s[i], nd[i], c[i], q);
    }
    if Eval(env, q) {
      assert EvalVec(env, diff) == x;
    } else {
      assert EvalVec(env, diff) == EvalVec(env, s[..|nd|]);
    }
  }

  lemma SumCell(env: Env, d: Aig, r: Aig, nd: Aig, ci: Aig, q: Aig)
    requires IsSumGate(d, r, nd, ci, q)
    ensures Eval(env, d) == if Eval(env, q) then Xor3(Eval(env, r), Eval(env, nd), Eval(env, ci)) else Eval(env, r)
  {
    hide Eval;
  }

  /** A zero divisor leaves the remainder a prefix of the dividend, which fits. */
  lemma RemainderFits(env: Env, a: seq<Aig>, d: seq<Aig>, j: nat, q: seq<Aig>, s: seq<Aig>)
    requires j < |a| == |d| && |s| > 0 && RowInvAt(env, a, d, j, q, s)
    ensures var r := Lsb(env, s[1..]);
            if Value(env, d) > 0 then r < Value(env, d)
            else Bit(Eval(env, a[j])) + 2 * r < Pow2(|d|)
  {
    hide Value, Lsb, Pow2, Eval;
    ValueBound(env, a[..j + 1]);
    ValueSnoc(env, a, j);
    Pow2Mono(j + 1, |d|);
  }

  // ---------------------------------------------------------------------------
  // Building a row
  // ---------------------------------------------------------------------------

  /** The carries of one row, from the least significant bit up. */
  method CarryRow(m: AigMgr, s: seq<Aig>, nd: seq<Aig>) returns (c: seq<Aig>)
    requires m.Valid() && HeldVec(m, s) && HeldVec(m, nd) && |s| == |nd| + 1
    modifies m
    ensures m.Valid() && m.handles == old(m.handles) + Hs(c)
    ensures |c| == |s| && IsCarryChain(s, nd, c)
  {
    hide AigMgr.Valid, H, Hs, IsCarryGate;
    HsOne(True);
    HOfConst();
    c := [True];
    for i := 0 to |nd|
      invariant m.Valid() && m.handles == old(m.handles) + Hs(c)
      invariant |c| == i + 1 && c[0] == True
      invariant forall k :: 0 <= k < i ==> IsCarryGate(c[k + 1], s[k], nd[k], c[k])
    {
      HeldAt(m.handles, s, i, old(m.handles));
      HeldAt(m.handles, nd, i, old(m.handles));
      HsIndex(c, i);
      HeldEntry(old(m.handles), Hs(c), H(c[i]));
      var co := CarryGate(m, s[i], nd[i], c[i]);
      HsSnoc(c, co);
      Assoc(old(m.handles), Hs(c), H(co));
      c := c + [co];
    }
  }

  lemma HeldEntry(s: multiset<Node>, v: multiset<Node>, p: multiset<Node>)
    requires p <= v
    ensures p <= s + v
  {
  }

  /** The next partial remainder: the difference if `q` holds, else unchanged. */
  method SumRow(m: AigMgr, s: seq<Aig>, nd: seq<Aig>, c: seq<Aig>, q: Aig) returns (d: seq<Aig>)
    requires m.Valid() && HeldVec(m, s) && HeldVec(m, nd) && HeldVec(m, c) && m.Held(q)
    requires |s| == |c| == |nd| + 1
    modifies m
    ensures m.Valid() && m.handles == old(m.handles) + Hs(d)
    ensures |d| == |nd| && IsSumRow(d, s, nd, c, q)
  {
    hide AigMgr.Valid, H, Hs, IsSumGate;
    HsNil();
    d := [];
    for i := 0 to |nd|
      invariant m.Valid() && m.handles == old(m.handles) + Hs(d)
      invariant |d| == i && forall k :: 0 <= k < i ==> IsSumGate(d[k], s[k], nd[k], c[k], q)
    {
      HeldAt(m.handles, s, i, old(m.handles));
      HeldAt(m.handles, nd, i, old(m.handles));
      HeldAt(m.handles, c, i, old(m.handles));
      StillHeld(old(m.handles), Hs(d), H(q));
      var x := SumGate(m, s[i], nd[i], c[i], q);
      HsSnoc(d, x);
      Assoc(old(m.handles), Hs(d), H(x));
      d := d + [x];
    }
  }

  lemma SettleRow(s: multiset<Node>, c: multiset<Node>, q: multiset<Node>, d: multiset<Node>, p: multiset<Node>)
    requires p <= s
    ensures p <= s + c && p <= s + c + q && c <= s + c + q && c <= s + c && q <= s + c + q
  {
  }

  // ---------------------------------------------------------------------------
  // The array of rows
  // ---------------------------------------------------------------------------

  ghost function Hss(rows: seq<seq<Aig>>): multiset<Node> {
    if rows == [] then multiset{} else Hss(rows[..|rows| - 1]) + Hs(rows[|rows| - 1])
  }

  lemma {:induction false} HssUpdate(rows: seq<seq<Aig>>, j: nat, r: seq<Aig>)
    requires j < |rows|
    ensures Hss(rows[j := r]) + Hs(rows[j]) == Hss(rows) + Hs(r)
  {
    hide Hs;
    var rows', k := rows[j := r], |rows| - 1;
    if j == k {
      assert rows'[..k] == rows[..k];
      Exchange(Hss(rows[..k]), Hss(rows[..k]), Hs(rows[j]), multiset{}, Hs(r));
    } else {
      assert rows'[..k] == rows[..k][j := r];
      HssUpdate(rows[..k], j, r);
      Exchange(Hss(rows[..k]), Hss(rows'[..k]), Hs(rows[j]), Hs(rows[k]), Hs(r));
    }
  }

  lemma Exchange(a: multiset<Node>, a': multiset<Node>, o: multiset<Node>, l: multiset<Node>, n: multiset<Node>)
    ensures a + n + o == a + o + n
    ensures a' + o == a + n ==> a' + l + o == a + l + n
    ensures o == multiset{} && a' + o == a + n ==> a' == a + n
  {
    if a' + o == a + n {
      forall x: Node
        ensures (a' + l + o)[x] == (a + l + n)[x]
      {
        assert (a' + o)[x] == (a + n)[x];
      }
    }
  }

  lemma Grow(base: multiset<Node>, a: multiset<Node>, n: multiset<Node>)
    ensures base + a + n == base + (a + n)
  {
  }

  lemma {:induction false} HssZeros(n: nat, k: nat)
    ensures Hss(seq(k, _ => Zeros(n))) == multiset{}
  {
    hide Hs, Zeros;
    var rows := seq(k, _ => Zeros(n));
    if k > 0 {
      ZerosFacts(n);
      assert rows[..k - 1] == seq(k - 1, _ => Zeros(n));
      HssZeros(n, k - 1);
    }
  }

  method ReleaseRows(m: AigMgr, rows: seq<seq<Aig>>, ghost base: multiset<Node>)
    requires m.Valid() && m.handles == base + Hss(rows)
    modifies m
    ensures m.Valid() && m.handles == base
  {
    hide AigMgr.Valid, H, Hs, Hss;
    HssNil();
    SliceEnds(rows);
    for j := |rows| downto 0
      invariant m.Valid() && m.handles == base + Hss(rows[..j])
    {
      PrefixSnoc(rows, j);
      HssSnoc(rows[..j], rows[j]);
      LastRow(base, Hss(rows[..j]), Hs(rows[j]));
      ReleaseVec(m, rows[j]);
    }
  }

  lemma HssNil()
    ensures Hss([]) == multiset{}
  {
  }

  lemma HssSnoc(rows: seq<seq<Aig>>, r: seq<Aig>)
    ensures Hss(rows + [r]) == Hss(rows) + Hs(r)
  {
    assert (rows + [r])[..|rows|] == rows;
  }

  lemma LastRow(base: multiset<Node>, p: multiset<Node>, q: multiset<Node>)
    ensures q <= base + (p + q) && base + (p + q) - q == base + p
  {
  }

  // ---------------------------------------------------------------------------
  // The circuit
  // ---------------------------------------------------------------------------

  /** The state between rows: the matrices of partial remainders and carries,
      and the quotient bits so far, hold all references taken. */
  method DivideRow(m: AigMgr, a: seq<Aig>, d: seq<Aig>, nd: seq<Aig>, j: nat, s: seq<Aig>, ghost q: seq<Aig>)
      returns (c: seq<Aig>, qb: Aig, diff: seq<Aig>)
    requires m.Valid() && HeldVec(m, s) && HeldVec(m, nd)
    requires j < |a| == |d| == |nd| && |s| == |nd| + 1 && s[0] == a[j] && RowInv(a, d, j, q, s)
    requires forall i :: 0 <= i < |d| ==> nd[i] == Not(d[|d| - 1 - i])
    modifies m
    ensures m.Valid() && m.handles == old(m.handles) + Hs(c) + H(qb) + Hs(diff)
    ensures |c| == |nd| + 1 && |diff| == |nd|
    ensures RowInv(a, d, j + 1, q + [qb], [False] + diff)
  {
    hide AigMgr.Valid, H, Hs, IsDisj, RowInv, IsCarryChain, IsSumRow;
    ghost var hs := m.handles;
    c := CarryRow(m, s, nd);
    SettleRow(hs, Hs(c), multiset{}, multiset{}, Hs(s));
    SettleRow(hs, Hs(c), multiset{}, multiset{}, Hs(nd));
    HeldAt(m.handles, c, |nd|, m.handles);
    HeldAt(m.handles, s, |nd|, m.handles);
    qb := m.Or(c[|nd|], s[|nd|]);
    SettleRow(hs, Hs(c), H(qb), multiset{}, Hs(s));
    SettleRow(hs, Hs(c), H(qb), multiset{}, Hs(nd));
    diff := SumRow(m, s, nd, c, qb);
    RowDone(a, d, nd, j, q, s, c, qb, diff);
  }

  lemma RowDone(a: seq<Aig>, d: seq<Aig>, nd: seq<Aig>, j: nat, q: seq<Aig>, s: seq<Aig>, c: seq<Aig>, qb: Aig,
                diff: seq<Aig>)
    requires j < |a| == |d| == |nd| && forall i :: 0 <= i < |d| ==> nd[i] == Not(d[|d| - 1 - i])
    requires |s| == |nd| + 1 && RowInv(a, d, j, q, s) && s[0] == a[j]
    requires IsCarryChain(s, nd, c) && IsDisj(qb, c[|d|], s[|d|]) && IsSumRow(diff, s, nd, c, qb)
    ensures RowInv(a, d, j + 1, q + [qb], [False] + diff)
  {
    hide RowInvAt, IsCarryGate, IsSumGate, IsCarryChain, IsSumRow, IsDisj;
    var (j', q', s') := (j + 1, q + [qb], [False] + diff);
    forall env
      ensures RowInvAt(env, a, d, j', q', s')
    {
      assert RowInvAt(env, a, d, j, q, s);
      RowCorrect(env, a, d, nd, j, q, s, c, qb, diff);
    }
  }

  lemma StartRows(a: seq<Aig>, d: seq<Aig>, n: nat)
    ensures RowInv(a, d, 0, [], Zeros(n + 1))
  {
    hide Value, Eval;
    var q, s := [], Zeros(n + 1);
    forall env
      ensures RowInvAt(env, a, d, 0, q, s)
    {
      EmptyValues(env, a);
      LsbZeros(env, n);
      assert Zeros(n + 1)[1..] == Zeros(n);
    }
  }

  lemma EmptyValues(env: Env, a: seq<Aig>)
    ensures Value(env, a[..0]) == 0 && Value(env, []) == 0
  {
    assert a[..0] == [] && EvalVec(env, []) == [];
  }

  lemma {:induction false} LsbZeros(env: Env, n: nat)
    ensures Lsb(env, Zeros(n)) == 0
  {
    hide Lsb;
    if n == 0 {
      LsbEmpty(env, Zeros(0));
      SliceEnds(Zeros(0));
    } else {
      LsbZeros(env, n - 1);
      LsbCons(env, False, Zeros(n - 1));
      assert Zeros(n) == [False] + Zeros(n - 1);
    }
  }

  /** Shifting the next dividend bit into position 0. */
  lemma ShiftIn(a: seq<Aig>, d: seq<Aig>, j: nat, q: seq<Aig>, s: seq<Aig>, b: Aig)
    requires j <= |a| && RowInv(a, d, j, q, s)
    ensures RowInv(a, d, j, q, s[0 := b])
  {
    hide RowInvAt;
    var s' := s[0 := b];
    assert s'[1..] == s[1..];
    forall env
      ensures RowInvAt(env, a, d, j, q, s')
    {
      assert RowInvAt(env, a, d, j, q, s);
      SameTail(env, a, d, j, q, s, s');
    }
  }

  lemma SameTail(env: Env, a: seq<Aig>, d: seq<Aig>, j: nat, q: seq<Aig>, s: seq<Aig>, s': seq<Aig>)
    requires j <= |a| && |s| > 0 && |s'| > 0 && RowInvAt(env, a, d, j, q, s) && s'[1..] == s[1..]
    ensures RowInvAt(env, a, d, j, q, s')
  {
  }

  /** After all rows: quotient and remainder. */
  lemma RowsDone(a: seq<Aig>, d: seq<Aig>, q: seq<Aig>, s: seq<Aig>, r: seq<Aig>)
    requires |a| == |d| && RowInv(a, d, |a|, q, s) && |s| == |r| + 1
    requires forall i :: 0 <= i < |r| ==> r[i] == s[|r| - i]
    ensures forall env :: Value(env, q) == UdivVal(|a|, Value(env, a), Value(env, d))
    ensures forall env :: Value(env, r) == UremVal(Value(env, a), Value(env, d))
  {
    hide Value, RowInvAt, Pow2, Lsb;
    SliceEnds(a);
    forall env
      ensures Value(env, q) == UdivVal(|a|, Value(env, a), Value(env, d))
      ensures Value(env, r) == UremVal(Value(env, a), Value(env, d))
    {
      assert RowInvAt(env, a, d, |a|, q, s);
      RowsDoneAt(env, a, d, q, s);
      RemainderValue(env, s, r);
    }
  }

  lemma RowsDoneAt(env: Env, a: seq<Aig>, d: seq<Aig>, q: seq<Aig>, s: seq<Aig>)
    requires |s| > 0 && RowInvAt(env, a, d, |a|, q, s)
    ensures Value(env, q) == UdivVal(|a|, Value(env, a), Value(env, d))
    ensures Lsb(env, s[1..]) == UremVal(Value(env, a), Value(env, d))
  {
    hide Value, Pow2, Lsb;
    SliceEnds(a);
    if Value(env, d) > 0 {
      DivModUnique(Value(env, a), Value(env, d), Value(env, q), Lsb(env, s[1..]));
    }
  }

  lemma RemainderValue(env: Env, s: seq<Aig>, r: seq<Aig>)
    requires |s| == |r| + 1 && forall i :: 0 <= i < |r| ==> r[i] == s[|r| - i]
    ensures Value(env, r) == Lsb(env, s[1..])
  {
    hide Num, NumLsb, Eval;
    NumLsbReversed(EvalVec(env, r), EvalVec(env, s[1..]));
  }

  /** Reverses and inverts the divisor; no reference is taken. */
  function InvertedLsbFirst(d: seq<Aig>): (nd: seq<Aig>)
    ensures |nd| == |d| && forall i :: 0 <= i < |d| ==> nd[i] == Not(d[|d| - 1 - i])
  {
    seq(|d|, i requires 0 <= i < |d| => Not(d[|d| - 1 - i]))
  }

  lemma {:induction false} InvertedHs(d: seq<Aig>)
    ensures Hs(InvertedLsbFirst(d)) == Hs(d)
  {
    hide H;
    if d != [] {
      var k := |d| - 1;
      InvertedHs(d[..k]);
      HsCons(Not(d[k]), InvertedLsbFirst(d[..k]));
      HOfNot(d[k]);
      assert InvertedLsbFirst(d) == [Not(d[k])] + InvertedLsbFirst(d[..k]);
      Grow(multiset{}, H(d[k]), Hs(d[..k]));
      assert H(d[k]) + Hs(d[..k]) == Hs(d[..k]) + H(d[k]);
    }
  }

  /** The matrices between rows.  Row `j` holds the remainder after `j` rows;
      the rows above it have not been filled yet. */
  ghost predicate RowsOk(rows: seq<seq<Aig>>, carries: seq<seq<Aig>>, n: nat, j: nat) {
    && |rows| == |carries| == n + 1
    && (forall k :: 0 <= k <= n ==> |rows[k]| == n + 1)
    && (forall k :: j < k <= n ==> rows[k] == Zeros(n + 1))
    && (forall k :: j <= k <= n ==> carries[k] == Zeros(n + 1))
  }

  /** Bookkeeping of one iteration: the new references move into the matrices. */
  lemma IterationRefs(base: multiset<Node>, q: seq<Aig>, rows: seq<seq<Aig>>, carries: seq<seq<Aig>>, n: nat, j: nat,
                      b: Aig, c: seq<Aig>, qb: Aig, diff: seq<Aig>)
    requires j < n && RowsOk(rows, carries, n, j) && rows[j][0] == False && |diff| == n
    ensures var s := rows[j][0 := b];
            var rows' := rows[j := s];
            && base + Hs(q) + Hss(rows) + Hss(carries) + H(b) == base + Hs(q) + Hss(rows') + Hss(carries)
            && base + Hs(q) + Hss(rows') + Hss(carries) + Hs(c) + H(qb) + Hs(diff)
               == base + Hs(q + [qb]) + Hss(rows'[j + 1 := [False] + diff]) + Hss(carries[j := c])
  {
    hide H, Hs, Hss, Zeros;
    var s := rows[j][0 := b];
    var rows' := rows[j := s];
    var r' := [False] + diff;
    ZerosFacts(n + 1);
    HOfConst();
    HsUpdate(rows[j], 0, b);
    Exchange(Hs(rows[j]), Hs(s), H(False), multiset{}, H(b));
    HssUpdate(rows, j, s);
    HssUpdate(rows', j + 1, r');
    HssUpdate(carries, j, c);
    HsCons(False, diff);
    HsSnoc(q, qb);
    SumUp(base, Hs(q), Hss(rows), Hss(carries), H(b), Hs(rows[j]), Hss(rows'), Hs(c), Hss(carries[j := c]), H(qb),
          Hs(diff), Hss(rows'[j + 1 := r']));
  }

  lemma SumUp(base: multiset<Node>, q: multiset<Node>, s: multiset<Node>, c: multiset<Node>, b: multiset<Node>,
              row: multiset<Node>, s1: multiset<Node>, nc: multiset<Node>, c1: multiset<Node>, qb: multiset<Node>,
              nd: multiset<Node>, s2: multiset<Node>)
    requires s1 + row == s + (row + b) && c1 + multiset{} == c + nc && s2 + multiset{} == s1 + (multiset{} + nd)
    ensures base + q + s + c + b == base + q + s1 + c
    ensures base + q + s1 + c + nc + qb + nd == base + (q + qb) + s2 + c1
  {
    assert s1 == s + b by {
      forall x: Node
        ensures s1[x] == (s + b)[x]
      {
        assert (s1 + row)[x] == (s + (row + b))[x];
      }
    }
    assert c1 == c + nc;
    assert s2 == s1 + nd by {
      forall x: Node
        ensures s2[x] == (s1 + nd)[x]
      {
        assert (s2 + multiset{})[x] == (s1 + (multiset{} + nd))[x];
      }
    }
  }

  lemma HeldRows(base: multiset<Node>, q: multiset<Node>, rows: seq<seq<Aig>>, c: multiset<Node>, j: nat,
                 p: multiset<Node>)
    requires p <= base && j < |rows|
    ensures p <= base + q + Hss(rows) + c && Hs(rows[j]) <= base + q + Hss(rows) + c
    ensures base <= base + q + Hss(rows) + c
  {
    hide Hs, Hss;
    HssUpdate(rows, j, []);
    HsNil();
    assert Hs(rows[j]) <= Hss(rows) by {
      forall x: Node
        ensures Hs(rows[j])[x] <= Hss(rows)[x]
      {
        assert (Hss(rows[j := []]) + Hs(rows[j]))[x] == (Hss(rows) + Hs([]))[x];
      }
    }
  }

  lemma Regroup(base: multiset<Node>, r: multiset<Node>, s: multiset<Node>, c: multiset<Node>)
    ensures base + s + c + r == base + r + s + c
  {
  }

  /** One iteration: shifts in a dividend bit, fills a row of carries and the
      next row of remainders, and appends a quotient bit. */
  method Iterate(m: AigMgr, ain: seq<Aig>, din: seq<Aig>, nd: seq<Aig>, j: nat, q0: seq<Aig>, rows0: seq<seq<Aig>>,
                 carries0: seq<seq<Aig>>, ghost base: multiset<Node>)
      returns (q: seq<Aig>, rows: seq<seq<Aig>>, carries: seq<seq<Aig>>)
    requires m.Valid() && m.handles == base + Hs(q0) + Hss(rows0) + Hss(carries0)
    requires j < |ain| == |din| && nd == InvertedLsbFirst(din) && Hs(nd) <= base && Hs(ain) <= base
    requires |q0| == j && RowsOk(rows0, carries0, |ain|, j) && rows0[j][0] == False
    requires RowInv(ain, din, j, q0, rows0[j])
    modifies m
    ensures m.Valid() && m.handles == base + Hs(q) + Hss(rows) + Hss(carries)
    ensures |q| == j + 1 && RowsOk(rows, carries, |ain|, j + 1) && rows[j + 1][0] == False
    ensures RowInv(ain, din, j + 1, q, rows[j + 1])
  {
    hide AigMgr.Valid, H, Hs, Hss, RowInv, Zeros, InvertedLsbFirst;
    var size := |ain|;
    HeldRows(base, Hs(q0), rows0, Hss(carries0), j, Hs(ain));
    HeldAt(m.handles, ain, j, m.handles);
    m.HeldIsLive(ain[j]);
    var b := m.Copy(ain[j]);
    ShiftIn(ain, din, j, q0, rows0[j], b);
    IterationRefs(base, q0, rows0, carries0, size, j, b, [], b, Zeros(size));
    rows := rows0[j := rows0[j][0 := b]];
    HeldRows(base, Hs(q0), rows, Hss(carries0), j, Hs(nd));
    var c, qb, diff := DivideRow(m, ain, din, nd, j, rows[j], q0);
    IterationRefs(base, q0, rows0, carries0, size, j, b, c, qb, diff);
    carries := carries0[j := c];
    rows := rows[j + 1 := [False] + diff];
    q := q0 + [qb];
  }

  /** Quotient and remainder of unsigned division. */
  method UdivUrem(m: AigMgr, ain: seq<Aig>, din: seq<Aig>) returns (q: seq<Aig>, r: seq<Aig>)
    requires m.Valid() && HeldVec(m, ain) && HeldVec(m, din) && |ain| == |din| > 0
    modifies m
    ensures m.Valid() && m.handles == old(m.handles) + Hs(q) + Hs(r)
    ensures |q| == |r| == |ain|
    ensures forall env :: Value(env, q) == UdivVal(|ain|, Value(env, ain), Value(env, din))
    ensures forall env :: Value(env, r) == UremVal(Value(env, ain), Value(env, din))
  {
    hide AigMgr.Valid, H, Hs, Hss, RowInv, Zeros, Value, UdivVal, UremVal, InvertedLsbFirst;
    var size := |ain|;
    var nd := InvertedLsbFirst(din);
    InvertedHs(din);
    var rows := seq(size + 1, _ => Zeros(size + 1));
    var carries := seq(size + 1, _ => Zeros(size + 1));
    HssZeros(size + 1, size + 1);
    HsNil();
    StartRows(ain, din, size);
    ZeroFirst(size + 1);
    ghost var base := m.handles;
    q := [];
    for j := 0 to size
      invariant m.Valid() && m.handles == base + Hs(q) + Hss(rows) + Hss(carries)
      invariant |q| == j && RowsOk(rows, carries, size, j) && rows[j][0] == False
      invariant RowInv(ain, din, j, q, rows[j])
    {
      q, rows, carries := Iterate(m, ain, din, nd, j, q, rows, carries, base);
    }
    r := FinishRows(m, rows, carries, base + Hs(q));
    RowsDone(ain, din, q, rows[size], r);
  }

  /** Copies the remainder out of the last row and gives all rows back. */
  method FinishRows(m: AigMgr, rows: seq<seq<Aig>>, carries: seq<seq<Aig>>, ghost base: multiset<Node>)
      returns (r: seq<Aig>)
    requires m.Valid() && m.handles == base + Hss(rows) + Hss(carries)
    requires |rows| > 0 && |rows[|rows| - 1]| > 0
    modifies m
    ensures m.Valid() && m.handles == base + Hs(r)
    ensures var s := rows[|rows| - 1];
            |r| == |s| - 1 && forall i :: 0 <= i < |r| ==> r[i] == s[|r| - i]
  {
    hide AigMgr.Valid, H, Hs, Hss;
    var size := |rows| - 1;
    HeldRows(base, multiset{}, rows, Hss(carries), size, multiset{});
    assert base + multiset{} == base;
    r := CopyRemainder(m, rows[size]);
    Regroup(base, Hs(r), Hss(rows), Hss(carries));
    ReleaseRows(m, carries, base + Hs(r) + Hss(rows));
    ReleaseRows(m, rows, base + Hs(r));
  }

  lemma ZeroFirst(n: nat)
    requires n > 0
    ensures Zeros(n)[0] == False
  {
  }

  /** Copies the last row, without position 0, most significant bit first. */
  method CopyRemainder(m: AigMgr, s: seq<Aig>) returns (r: seq<Aig>)
    requires m.Valid() && HeldVec(m, s) && |s| > 0
    modifies m
    ensures m.Valid() && m.handles == old(m.handles) + Hs(r)
    ensures |r| == |s| - 1 && forall i :: 0 <= i < |r| ==> r[i] == s[|r| - i]
  {
    hide AigMgr.Valid, H, Hs;
    HsNil();
    r := [];
    for i := |s| downto 1
      invariant m.Valid() && m.handles == old(m.handles) + Hs(r)
      invariant |r| == |s| - i && forall k :: 0 <= k < |r| ==> r[k] == s[|s| - 1 - k]
    {
      HeldAt(m.handles, s, i, old(m.handles));
      m.HeldIsLive(s[i]);
      var x := m.Copy(s[i]);
      HsSnoc(r, x);
      Assoc(old(m.handles), Hs(r), H(x));
      r := r + [x];
    }
  }

  lemma DropSecond(s: multiset<Node>, p: multiset<Node>, q: multiset<Node>)
    ensures q <= s + p + q && s + p + q - q == s + p && p <= s + p + q && s + p + q - p == s + q
  {
  }

  method Udiv(m: AigMgr, a: seq<Aig>, d: seq<Aig>) returns (quotient: seq<Aig>)
    requires m.Valid() && HeldVec(m, a) && HeldVec(m, d) && |a| == |d| > 0
    modifies m
    ensures m.Valid() && m.handles == old(m.handles) + Hs(quotient)
    ensures |quotient| == |a|
    ensures forall env :: Value(env, quotient) == UdivVal(|a|, Value(env, a), Value(env, d))
  {
    hide AigMgr.Valid, Hs, Value, UdivVal, UremVal;
    var remainder;
    quotient, remainder := UdivUrem(m, a, d);
    DropSecond(old(m.handles), Hs(quotient), Hs(remainder));
    ReleaseVec(m, remainder);
  }

  method Urem(m: AigMgr, a: seq<Aig>, d: seq<Aig>) returns (remainder: seq<Aig>)
    requires m.Valid() && HeldVec(m, a) && HeldVec(m, d) && |a| == |d| > 0
    modifies m
    ensures m.Valid() && m.handles == old(m.handles) + Hs(remainder)
    ensures |remainder| == |a|
    ensures forall env :: Value(env, remainder) == UremVal(Value(env, a), Value(env, d))
  {
    hide AigMgr.Valid, Hs, Value, UdivVal, UremVal;
    var quotient;
    quotient, remainder := UdivUrem(m, a, d);
    DropSecond(old(m.handles), Hs(quotient), Hs(remainder));
    ReleaseVec(m, quotient);
  }
}
