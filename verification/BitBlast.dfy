/** The bit-blaster: circuits for the bit-vector operations over the AIG store. */
module BitBlast {
  import opened AigLaws
  import opened AigNodes
  import opened AigTable
  import opened AigManager
  import opened Bits
  import opened Vectors

  ghost predicate HeldVec(m: AigMgr, v: seq<Aig>)
    reads m
  {
    Hs(v) <= m.handles
  }

  // ---------------------------------------------------------------------------
  // Adders
  // ---------------------------------------------------------------------------

  lemma Settle1(s: multiset<Node>, p: multiset<Node>, q: multiset<Node>, r: multiset<Node>)
    ensures s + p + q + r - q == s + r + p
  {
  }

  lemma Settle3(s: multiset<Node>, p: multiset<Node>, q: multiset<Node>, r: multiset<Node>, t: multiset<Node>,
                u: multiset<Node>)
    ensures s + p + q + (r + t) + u - p - q - t == s + r + u
  {
  }

  method HalfAdder(m: AigMgr, x: Aig, y: Aig) returns (res: Aig, cout: Aig)
    requires m.Valid() && m.Held(x) && m.Held(y)
    modifies m
    ensures m.Valid() && m.handles == old(m.handles) + H(res) + H(cout)
    ensures IsHalfSum(x, y, res, cout)
  {
    hide AigMgr.Valid, IsConj, IsDisj, IsHalfSum, H;
    HOfNot(x);
    HOfNot(y);
    var xAndY := m.And(x, y);
    var notXAndNotY := m.And(Not(x), Not(y));
    var xXnorY := m.Or(xAndY, notXAndNotY);
    res := Not(xXnorY);
    HOfNot(xXnorY);
    cout := xAndY;
    Settle1(old(m.handles), H(xAndY), H(notXAndNotY), H(xXnorY));
    m.Release(notXAndNotY);
    HalfAdderCorrect(x, y, xAndY, notXAndNotY, xXnorY);
  }

  method FullAdder(m: AigMgr, x: Aig, y: Aig, cin: Aig) returns (res: Aig, cout: Aig)
    requires m.Valid() && m.Held(x) && m.Held(y) && m.Held(cin)
    modifies m
    ensures m.Valid() && m.handles == old(m.handles) + H(res) + H(cout)
    ensures IsFullSum(x, y, cin, res, cout)
  {
    hide AigMgr.Valid, IsHalfSum, IsDisj, IsFullSum, H;
    var sum, c1 := HalfAdder(m, x, y);
    var c2;
    res, c2 := HalfAdder(m, sum, cin);
    cout := m.Or(c1, c2);
    Settle3(old(m.handles), H(sum), H(c1), H(res), H(c2), H(cout));
    m.Release(sum);
    m.Release(c1);
    m.Release(c2);
    FullAdderCorrect(x, y, cin, sum, c1, res, c2, cout);
  }

  // ---------------------------------------------------------------------------
  // Vectors
  // ---------------------------------------------------------------------------

  /** The vector's components may be used: all of them are held. */
  lemma HeldAt(hs: multiset<Node>, v: seq<Aig>, i: nat, base: multiset<Node>)
    requires Hs(v) <= base && base <= hs && i < |v|
    ensures H(v[i]) <= hs && H(Not(v[i])) <= hs
  {
    hide H, Hs;
    HsIndex(v, i);
    HOfNot(v[i]);
  }

  method ReleaseVec(m: AigMgr, v: seq<Aig>)
    requires m.Valid() && HeldVec(m, v)
    modifies m
    ensures m.Valid() && m.handles == old(m.handles) - Hs(v)
  {
    hide AigMgr.Valid, H, Hs;
    HsNil();
    ghost var base := m.handles - Hs(v);
    Restore(m.handles, Hs(v));
    SliceEnds(v);
    for i := 0 to |v|
      invariant m.Valid() && m.handles == base + Hs(v[i..])
    {
      SuffixCons(v, i);
      HsCons(v[i], v[i + 1..]);
      TakeOne(base, H(v[i]), Hs(v[i + 1..]));
      m.Release(v[i]);
    }
  }

  lemma Restore(s: multiset<Node>, p: multiset<Node>)
    requires p <= s
    ensures s - p + p == s
  {
  }

  lemma TakeOne(base: multiset<Node>, p: multiset<Node>, q: multiset<Node>)
    ensures p <= base + (p + q) && base + (p + q) - p == base + q
  {
  }

  lemma SettleAdd(s: multiset<Node>, done: multiset<Node>, cin: multiset<Node>, r: multiset<Node>, cout: multiset<Node>)
    ensures s + done + cin + r + cout - cin == s + (r + done) + cout
  {
  }

  /** The first difference in the order of handles decides, from index 0 on. */
  function CompareVec(a: seq<Aig>, b: seq<Aig>): int
    requires |a| == |b|
  {
    if a == [] then 0
    else if Compare(a[0], b[0]) != 0 then Compare(a[0], b[0])
    else CompareVec(a[1..], b[1..])
  }

  method CopyVec(m: AigMgr, v: seq<Aig>) returns (result: seq<Aig>)
    requires m.Valid() && HeldVec(m, v)
    modifies m
    ensures m.Valid() && m.handles == old(m.handles) + Hs(result)
    ensures result == v
  {
    hide AigMgr.Valid, H, Hs;
    HsNil();
    SliceEnds(v);
    result := [];
    for i := 0 to |v|
      invariant m.Valid() && m.handles == old(m.handles) + Hs(result)
      invariant result == v[..i]
    {
      HeldAt(m.handles, v, i, old(m.handles));
      m.HeldIsLive(v[i]);
      var a := m.Copy(v[i]);
      PrefixSnoc(v, i);
      HsSnoc(result, a);
      Assoc(old(m.handles), Hs(result), H(a));
      result := result + [a];
    }
  }

  lemma Assoc(s: multiset<Node>, p: multiset<Node>, q: multiset<Node>)
    ensures s + p + q == s + (p + q)
  {
  }

  /** The nodes a vector refers to. */
  ghost function NodesOf(v: seq<Aig>): set<Node> {
    set a | a in v && a.Ref? :: a.node
  }

  /** Fresh variables, the least significant one last. */
  method VarVec(m: AigMgr, width: nat) returns (result: seq<Aig>)
    requires m.Valid()
    modifies m, m.inputs
    ensures m.Valid() && m.handles == old(m.handles) + Hs(result)
    ensures m.inputs.nodes == old(m.inputs.nodes) + NodesOf(result)
    ensures |result| == width && |m.id2aig| == old(|m.id2aig|) + width
    ensures forall i :: 0 <= i < width ==> result[i] == Ref(Var(old(|m.id2aig|) + width - 1 - i), false)
  {
    hide AigMgr.Valid, H, Hs;
    HsNil();
    result := [];
    for i := 0 to width
      invariant m.Valid() && m.handles == old(m.handles) + Hs(result)
      invariant m.inputs.nodes == old(m.inputs.nodes) + NodesOf(result)
      invariant |result| == i && |m.id2aig| == old(|m.id2aig|) + i
      invariant forall k :: 0 <= k < i ==> result[k] == Ref(Var(old(|m.id2aig|) + i - 1 - k), false)
    {
      var a := m.NewVar();
      HsCons(a, result);
      assert NodesOf([a] + result) == NodesOf(result) + {a.node};
      Settle0(old(m.handles), Hs(result), H(a));
      result := [a] + result;
    }
  }

  lemma Settle0(s: multiset<Node>, p: multiset<Node>, q: multiset<Node>)
    ensures s + p + q == s + (q + p)
  {
  }

  method NotVec(m: AigMgr, v: seq<Aig>) returns (result: seq<Aig>)
    requires m.Valid() && HeldVec(m, v)
    modifies m
    ensures m.Valid() && m.handles == old(m.handles) + Hs(result)
    ensures |result| == |v| && forall i :: 0 <= i < |v| ==> result[i] == Not(v[i])
  {
    hide AigMgr.Valid, H, Hs;
    HsNil();
    result := [];
    for i := 0 to |v|
      invariant m.Valid() && m.handles == old(m.handles) + Hs(result)
      invariant |result| == i && forall k :: 0 <= k < i ==> result[k] == Not(v[k])
    {
      HeldAt(m.handles, v, i, old(m.handles));
      var a := m.Negate(v[i]);
      HsSnoc(result, a);
      Assoc(old(m.handles), Hs(result), H(a));
      result := result + [a];
    }
  }

  method AndVec(m: AigMgr, a: seq<Aig>, b: seq<Aig>) returns (result: seq<Aig>)
    requires m.Valid() && HeldVec(m, a) && HeldVec(m, b) && |a| == |b|
    modifies m
    ensures m.Valid() && m.handles == old(m.handles) + Hs(result)
    ensures IsConjVec(result, a, b)
  {
    hide AigMgr.Valid, H, Hs, IsConj;
    HsNil();
    result := [];
    for i := 0 to |a|
      invariant m.Valid() && m.handles == old(m.handles) + Hs(result)
      invariant |result| == i && forall k :: 0 <= k < i ==> IsConj(result[k], a[k], b[k])
    {
      HeldAt(m.handles, a, i, old(m.handles));
      HeldAt(m.handles, b, i, old(m.handles));
      var c := m.And(a[i], b[i]);
      HsSnoc(result, c);
      Assoc(old(m.handles), Hs(result), H(c));
      result := result + [c];
    }
  }

  /** Bits `upper` down to `lower`; index 0 is the most significant bit. */
  method Slice(m: AigMgr, v: seq<Aig>, upper: nat, lower: nat) returns (result: seq<Aig>)
    requires m.Valid() && HeldVec(m, v) && lower <= upper < |v|
    modifies m
    ensures m.Valid() && m.handles == old(m.handles) + Hs(result)
    ensures result == v[|v| - 1 - upper..|v| - lower]
  {
    hide AigMgr.Valid, H, Hs;
    ghost var first := |v| - 1 - upper;
    HsNil();
    result := [];
    for i := |v| - upper - 1 to |v| - lower
      invariant m.Valid() && m.handles == old(m.handles) + Hs(result)
      invariant result == v[first..i]
    {
      HeldAt(m.handles, v, i, old(m.handles));
      m.HeldIsLive(v[i]);
      var a := m.Copy(v[i]);
      SliceSnoc(v, first, i);
      HsSnoc(result, a);
      Assoc(old(m.handles), Hs(result), H(a));
      result := result + [a];
    }
  }

  method Concat(m: AigMgr, a: seq<Aig>, b: seq<Aig>) returns (result: seq<Aig>)
    requires m.Valid() && HeldVec(m, a) && HeldVec(m, b)
    modifies m
    ensures m.Valid() && m.handles == old(m.handles) + Hs(result)
    ensures result == a + b
  {
    hide AigMgr.Valid, H, Hs;
    var p := CopyVec(m, a);
    StillHeld(old(m.handles), Hs(p), Hs(b));
    var q := CopyVec(m, b);
    HsConcat(p, q);
    Assoc(old(m.handles), Hs(p), Hs(q));
    result := p + q;
  }

  lemma StillHeld(s: multiset<Node>, p: multiset<Node>, q: multiset<Node>)
    requires q <= s
    ensures q <= s + p
  {
  }

  method CondVec(m: AigMgr, c: Aig, t: seq<Aig>, e: seq<Aig>) returns (result: seq<Aig>)
    requires m.Valid() && m.Held(c) && HeldVec(m, t) && HeldVec(m, e) && |t| == |e|
    modifies m
    ensures m.Valid() && m.handles == old(m.handles) + Hs(result)
    ensures IsIteVec(result, c, t, e)
  {
    hide AigMgr.Valid, H, Hs, IsIte, IsIteVec;
    HsNil();
    SliceEnds(t);
    SliceEnds(e);
    IteStart(c);
    result := [];
    for i := 0 to |t|
      invariant m.Valid() && m.handles == old(m.handles) + Hs(result)
      invariant IsIteVec(result, c, t[..i], e[..i])
    {
      HeldAt(m.handles, t, i, old(m.handles));
      HeldAt(m.handles, e, i, old(m.handles));
      StillHeld(old(m.handles), Hs(result), H(c));
      var a := m.Cond(c, t[i], e[i]);
      IteExtend(result, c, t, e, i, a);
      HsSnoc(result, a);
      Assoc(old(m.handles), Hs(result), H(a));
      result := result + [a];
    }
  }

  // ---------------------------------------------------------------------------
  // Comparison
  // ---------------------------------------------------------------------------

  lemma SettleLess(s: multiset<Node>, res: multiset<Node>, t0: multiset<Node>, keep: multiset<Node>,
                   t1: multiset<Node>, new': multiset<Node>)
    ensures s + res + t0 + keep - t0 - res == s + keep
    ensures s + keep + t1 + new' - t1 - keep == s + new'
    ensures res <= s + res + t0 + keep - t0 && t0 <= s + res + t0 + keep
    ensures t1 <= s + keep + t1 + new' && keep <= s + keep + t1 + new' - t1
  {
  }

  /** The comparator chain, from the least significant bit up. */
  method Ult(m: AigMgr, a: seq<Aig>, b: seq<Aig>) returns (res: Aig)
    requires m.Valid() && HeldVec(m, a) && HeldVec(m, b) && |a| == |b|
    modifies m
    ensures m.Valid() && m.handles == old(m.handles) + H(res)
    ensures forall env :: Eval(env, res) == (Value(env, a) < Value(env, b))
  {
    hide AigMgr.Valid, H, Hs, IsConj, IsDisj, IsLess, AndLaws, Conjoins, With, Value, Eval;
    HOfConst();
    LessStart();
    SliceEnds(a);
    SliceEnds(b);
    res := False;
    for i := |a| downto 0
      invariant m.Valid() && m.handles == old(m.handles) + H(res)
      invariant IsLess(a[i..], b[i..], res)
    {
      ghost var prev := res;
      HeldAt(m.handles, a, i, old(m.handles));
      HeldAt(m.handles, b, i, old(m.handles));
      var term0 := m.And(a[i], Not(b[i]));
      HOfNot(term0);
      var keep := m.And(Not(term0), res);
      SettleLess(old(m.handles), H(res), H(term0), H(keep), multiset{}, multiset{});
      m.Release(term0);
      m.Release(res);
      HeldAt(m.handles, a, i, old(m.handles));
      HeldAt(m.handles, b, i, old(m.handles));
      var term1 := m.And(Not(a[i]), b[i]);
      res := m.Or(term1, keep);
      SettleLess(old(m.handles), multiset{}, multiset{}, H(keep), H(term1), H(res));
      m.Release(term1);
      m.Release(keep);
      LessStep(a[i + 1..], b[i + 1..], prev, a[i], b[i], term0, keep, term1, res);
      SuffixCons(a, i);
      SuffixCons(b, i);
    }
    LessMeaning(a, b, res);
  }

  lemma SettleEq(s: multiset<Node>, acc: multiset<Node>, t1: multiset<Node>, t2: multiset<Node>)
    ensures s + acc + t1 + t2 - t1 - acc == s + t2
    ensures t1 <= s + acc + t1 + t2 && acc <= s + acc + t1 + t2 - t1
  {
  }

  method Eq(m: AigMgr, a: seq<Aig>, b: seq<Aig>) returns (res: Aig)
    requires m.Valid() && HeldVec(m, a) && HeldVec(m, b) && |a| == |b| > 0
    modifies m
    ensures m.Valid() && m.handles == old(m.handles) + H(res)
    ensures forall env :: Eval(env, res) == (Value(env, a) == Value(env, b))
  {
    hide AigMgr.Valid, H, Hs, IsConj, IsEquiv, IsSame, Value;
    HeldAt(m.handles, a, 0, m.handles);
    HeldAt(m.handles, b, 0, m.handles);
    SliceEnds(a);
    SliceEnds(b);
    res := m.Eq(a[0], b[0]);
    SameStart(a[0], b[0], res);
    PrefixSnoc(a, 0);
    PrefixSnoc(b, 0);
    assert [] + [a[0]] == [a[0]] && [] + [b[0]] == [b[0]];
    for i := 1 to |a|
      invariant m.Valid() && m.handles == old(m.handles) + H(res)
      invariant IsSame(a[..i], b[..i], res)
    {
      ghost var prev := res;
      HeldAt(m.handles, a, i, old(m.handles));
      HeldAt(m.handles, b, i, old(m.handles));
      var temp1 := m.Eq(a[i], b[i]);
      var temp2 := m.And(res, temp1);
      SettleEq(old(m.handles), H(res), H(temp1), H(temp2));
      m.Release(temp1);
      m.Release(res);
      res := temp2;
      SameStep(a[..i], b[..i], prev, a[i], b[i], temp1, res);
      PrefixSnoc(a, i);
      PrefixSnoc(b, i);
    }
    SameValue(a, b, res);
  }

  // ---------------------------------------------------------------------------
  // Addition
  // ---------------------------------------------------------------------------

  lemma AddComm(w: nat, x: nat, y: nat)
    ensures AddVal(w, x, y) == AddVal(w, y, x)
  {
  }

  /** Ripple-carry addition.  With sorting on, the operands may change places. */
  method Add(m: AigMgr, av1: seq<Aig>, av2: seq<Aig>) returns (result: seq<Aig>)
    requires m.Valid() && HeldVec(m, av1) && HeldVec(m, av2) && |av1| == |av2|
    modifies m
    ensures m.Valid() && m.handles == old(m.handles) + Hs(result)
    ensures |result| == |av1|
    ensures forall env :: Value(env, result) == AddVal(|av1|, Value(env, av1), Value(env, av2))
  {
    hide AigMgr.Valid, H, Hs, IsFullSum, IsSum, Value, AddVal;
    var a, b := av1, av2;
    if m.sortAigvec && CompareVec(av1, av2) > 0 {
      a, b := b, a;
    }
    HsNil();
    SumStart();
    HOfConst();
    var cin := False;
    result := [];
    SliceEnds(a);
    SliceEnds(b);
    for i := |a| downto 0
      invariant m.Valid() && m.handles == old(m.handles) + Hs(result) + H(cin)
      invariant |result| == |a| - i && IsSum(a[i..], b[i..], result, cin)
    {
      HeldAt(m.handles, a, i, old(m.handles));
      HeldAt(m.handles, b, i, old(m.handles));
      var s, cout := FullAdder(m, a[i], b[i], cin);
      SettleAdd(old(m.handles), Hs(result), H(cin), H(s), H(cout));
      m.Release(cin);
      SumStep(a[i + 1..], b[i + 1..], result, cin, a[i], b[i], s, cout);
      SuffixCons(a, i);
      SuffixCons(b, i);
      HsCons(s, result);
      result := [s] + result;
      cin := cout;
    }
    m.Release(cin);
    SumMod(a, b, result, cin);
    forall env
      ensures Value(env, result) == AddVal(|av1|, Value(env, av1), Value(env, av2))
    {
      AddComm(|av1|, Value(env, a), Value(env, b));
    }
  }
}
