/** The array multiplier: one row of full adders for every bit of the second
    operand. */
module Multiplier {
  import opened AigNodes
  import opened AigTable
  import opened AigManager
  import opened Bits
  import opened Vectors
  import opened BitBlast

  // ---------------------------------------------------------------------------
  // Rows
  // ---------------------------------------------------------------------------

  /** `g` is `a` where `c` holds and zero elsewhere. */
  ghost predicate IsGated(g: seq<Aig>, a: seq<Aig>, c: Aig) {
    |g| == |a| && forall env :: GatedAt(env, g, a, c)
  }

  ghost predicate GatedAt(env: Env, g: seq<Aig>, a: seq<Aig>, c: Aig) {
    Value(env, g) == if Eval(env, c) then Value(env, a) else 0
  }

  lemma GatedStart(c: Aig)
    ensures IsGated([], [], c)
  {
    forall env
      ensures GatedAt(env, [], [], c)
    {
      assert EvalVec(env, []) == [];
    }
  }

  lemma GatedCons(g: seq<Aig>, a: seq<Aig>, c: Aig, x: Aig, y: Aig)
    requires IsGated(g, a, c) && IsConj(x, y, c)
    ensures IsGated([x] + g, [y] + a, c)
  {
    hide Value, Pow2;
    forall env
      ensures GatedAt(env, [x] + g, [y] + a, c)
    {
      assert GatedAt(env, g, a, c);
      ValueCons(env, x, g);
      ValueCons(env, y, a);
    }
  }

  /** `r` is the product of `a` and `b`, cut to the width of `a`. */
  ghost predicate IsProduct(a: seq<Aig>, b: seq<Aig>, r: seq<Aig>) {
    |r| == |a| && forall env :: ProductAt(env, a, b, r)
  }

  ghost predicate ProductAt(env: Env, a: seq<Aig>, b: seq<Aig>, r: seq<Aig>) {
    Value(env, r) == MulVal(|a|, Value(env, a), Value(env, b))
  }

  /** The first row: `a` where the lowest bit of the other operand holds. */
  lemma FirstRow(a: seq<Aig>, c: Aig, r: seq<Aig>)
    requires |a| > 0 && IsGated(r, a, c)
    ensures IsProduct(a, [c], r)
  {
    hide Value, Pow2;
    forall env
      ensures ProductAt(env, a, [c], r)
    {
      assert GatedAt(env, r, a, c);
      ValueOne(env, [c]);
      ValueBound(env, a);
      DivModUnique(Value(env, a), Pow2(|a|), 0, Value(env, a));
      DivModUnique(0, Pow2(|a|), 0, 0);
      assert Value(env, a) * Value(env, [c]) == Value(env, r);
    }
  }

  /** Adding the shifted operand to the upper part of the accumulator. */
  lemma RowArith(p: nat, q: nat, m: nat, x: nat, y: nat, top: nat, low: nat, new': nat)
    requires p > 0 && q > 0 && m == q * p && m > 0 && low < p && top * p + low == (x * y) % m
    requires new' == (top + x % q) % q
    ensures new' * p + low == (x * (p + y)) % m
  {
    ModAdd(x, top, q);
    ScaleMod(top + x, p, q, low);
    Distribute(top, x, p);
    ModAdd(x * y, x * p, m);
    Factor(x, y, p);
  }

  lemma Factor(x: nat, y: nat, p: nat)
    ensures x * y + x * p == x * (p + y)
  {
  }

  /** After one more row the accumulator covers one more bit of `b`. */
  lemma RowStep(a: seq<Aig>, low: seq<Aig>, c: Aig, acc: seq<Aig>, g: seq<Aig>, res: seq<Aig>, cout: Aig, i: nat)
    requires i < |a| == |acc| == |res| && |low| == |a| - 1 - i
    requires IsProduct(a, low, acc) && IsGated(g, a[|a| - 1 - i..], c)
    requires IsSum(acc[..i + 1], g, res[..i + 1], cout) && res[i + 1..] == acc[i + 1..]
    ensures IsProduct(a, [c] + low, res)
  {
    hide IsSum, SumAt;
    SumMod(acc[..i + 1], g, res[..i + 1], cout);
    forall env
      ensures ProductAt(env, a, [c] + low, res)
    {
      assert ProductAt(env, a, low, acc);
      assert GatedAt(env, g, a[|a| - 1 - i..], c);
      RowStepAt(env, a, low, c, acc, g, res, i);
    }
  }

  lemma RowStepAt(env: Env, a: seq<Aig>, low: seq<Aig>, c: Aig, acc: seq<Aig>, g: seq<Aig>, res: seq<Aig>, i: nat)
    requires i < |a| == |acc| == |res| && |low| == |a| - 1 - i
    requires ProductAt(env, a, low, acc) && GatedAt(env, g, a[|a| - 1 - i..], c)
    requires Value(env, res[..i + 1]) == AddVal(i + 1, Value(env, acc[..i + 1]), Value(env, g))
    requires res[i + 1..] == acc[i + 1..]
    ensures ProductAt(env, a, [c] + low, res)
  {
    hide Value, Pow2, Eval;
    var t := |a| - 1 - i;
    var p, q := Pow2(t), Pow2(i + 1);
    Pow2Add(i + 1, t);
    ValueSplit(env, acc, i + 1);
    ValueSplit(env, res, i + 1);
    ValueSplit(env, a, t);
    ValueCons(env, c, low);
    ValueBound(env, acc[i + 1..]);
    ValueBound(env, acc[..i + 1]);
    var top, rest := Value(env, acc[..i + 1]), Value(env, acc[i + 1..]);
    if Eval(env, c) {
      RowArith(p, q, Pow2(|a|), Value(env, a), Value(env, low), top, rest, Value(env, res[..i + 1]));
    } else {
      DivModUnique(top, q, 0, top);
    }
  }

  lemma SettleCell(s: multiset<Node>, t: multiset<Node>, ci: multiset<Node>, n: multiset<Node>, x: multiset<Node>,
                   co: multiset<Node>)
    ensures s + t + ci + n + x + co - n - t - ci == s + x + co
    ensures n <= s + t + ci + n + x + co && t <= s + t + ci + n + x + co - n
    ensures ci <= s + t + ci + n + x + co - n - t
  {
  }

  lemma HeldCell(s: multiset<Node>, t: multiset<Node>, ci: multiset<Node>, n: multiset<Node>, p: multiset<Node>)
    requires p <= s
    ensures p <= s + t + ci && t <= s + t + ci + n && ci <= s + t + ci + n && n <= s + t + ci + n
  {
  }

  /** One cell: adds the gated bit to an accumulator bit, whose reference and
      that of the incoming carry are given back. */
  method AddCell(m: AigMgr, tmp: Aig, x: Aig, c: Aig, cin: Aig, ghost rest: multiset<Node>)
      returns (s: Aig, cout: Aig, ghost gated: Aig)
    requires m.Valid() && m.handles == rest + H(tmp) + H(cin) && H(x) <= rest && H(c) <= rest
    modifies m
    ensures m.Valid() && m.handles == rest + H(s) + H(cout)
    ensures IsConj(gated, x, c) && IsFullSum(tmp, gated, cin, s, cout)
  {
    hide AigMgr.Valid, H, IsConj, IsFullSum;
    HeldCell(rest, H(tmp), H(cin), multiset{}, H(x));
    HeldCell(rest, H(tmp), H(cin), multiset{}, H(c));
    var and' := m.And(x, c);
    HeldCell(rest, H(tmp), H(cin), H(and'), multiset{});
    s, cout := FullAdder(m, tmp, and', cin);
    Assoc(rest + H(tmp) + H(cin), H(and'), H(s));
    SettleCell(rest, H(tmp), H(cin), H(and'), H(s), H(cout));
    m.Release(and');
    m.Release(tmp);
    m.Release(cin);
    gated := and';
  }

  lemma RowRest(base: multiset<Node>, o: multiset<Node>, t: multiset<Node>, c: multiset<Node>)
    ensures base + (o + t) + c == base + o + t + c
    ensures base <= base + o
  {
  }

  /** Adds `a`, gated by `c` and shifted left by |a| - 1 - i places, to the
      accumulator.  The references of the entries it overwrites are given back. */
  method AddRow(m: AigMgr, acc: seq<Aig>, a: seq<Aig>, c: Aig, i: nat, ghost low: seq<Aig>, ghost base: multiset<Node>)
      returns (res: seq<Aig>)
    requires m.Valid() && m.handles == base + Hs(acc) && Hs(a) <= base && H(c) <= base
    requires i < |a| == |acc| && |low| == |a| - 1 - i && IsProduct(a, low, acc)
    modifies m
    ensures m.Valid() && m.handles == base + Hs(res)
    ensures |res| == |a| && IsProduct(a, [c] + low, res)
  {
    hide AigMgr.Valid, H, Hs, IsConj, IsFullSum, IsSum, IsGated, IsProduct, Others;
    var width := |a|;
    var cout := False;
    ghost var g: seq<Aig> := [];
    GatedStart(c);
    SumStart();
    HOfConst();
    SliceEnds(a);
    EmptySlice(acc, i + 1);
    res := acc;
    for j := i + 1 downto 0
      invariant m.Valid() && m.handles == base + Hs(res) + H(cout)
      invariant |res| == width && res[i + 1..] == acc[i + 1..] && res[..j] == acc[..j]
      invariant IsGated(g, a[width - 1 - i + j..], c)
      invariant IsSum(acc[j..i + 1], g, res[j..i + 1], cout)
    {
      var k := width - 1 - i + j;
      var tmp, cin := res[j], cout;
      ghost var rest := base + Others(res, j);
      HsUpdate(res, j, tmp);
      RowRest(base, Others(res, j), H(tmp), H(cin));
      HeldAt(rest, a, k, base);
      var s;
      ghost var and';
      s, cout, and' := AddCell(m, tmp, a[k], c, cin, rest);
      HsUpdate(res, j, s);
      RowRest(base, Others(res, j), H(s), H(cout));
      GatedCons(g, a[k + 1..], c, and', a[k]);
      SuffixCons(a, k);
      RowSlices(acc, res, j, i, s);
      SumStep(acc[j + 1..i + 1], g, res[j + 1..i + 1], cin, tmp, and', s, cout);
      g := [and'] + g;
      res := res[j := s];
    }
    m.Release(cout);
    SliceForms(acc, i + 1);
    SliceForms(res, i + 1);
    RowStep(a, low, c, acc, g, res, cout, i);
  }

  lemma RowSlices(acc: seq<Aig>, res: seq<Aig>, j: nat, i: nat, s: Aig)
    requires j <= i < |acc| == |res| && res[i + 1..] == acc[i + 1..] && res[..j + 1] == acc[..j + 1]
    ensures var res' := res[j := s];
            && res[j] == acc[j]
            && res'[i + 1..] == acc[i + 1..] && res'[..j] == acc[..j]
            && acc[j..i + 1] == [acc[j]] + acc[j + 1..i + 1]
            && res'[j..i + 1] == [s] + res[j + 1..i + 1]
  {
    assert res[j] == res[..j + 1][j] && acc[j] == acc[..j + 1][j];
    assert res[j := s][i + 1..] == res[i + 1..];
    assert res[j := s][..j] == res[..j + 1][..j] && acc[..j] == acc[..j + 1][..j];
  }

  /** `a` gated by `c`, the first row of the multiplier. */
  method GateVec(m: AigMgr, a: seq<Aig>, c: Aig) returns (res: seq<Aig>)
    requires m.Valid() && HeldVec(m, a) && m.Held(c)
    modifies m
    ensures m.Valid() && m.handles == old(m.handles) + Hs(res)
    ensures |res| == |a| && forall i :: 0 <= i < |a| ==> IsConj(res[i], a[i], c)
  {
    hide AigMgr.Valid, H, Hs, IsConj;
    HsNil();
    res := [];
    for k := 0 to |a|
      invariant m.Valid() && m.handles == old(m.handles) + Hs(res)
      invariant |res| == k && forall i :: 0 <= i < k ==> IsConj(res[i], a[i], c)
    {
      HeldAt(m.handles, a, k, old(m.handles));
      StillHeld(old(m.handles), Hs(res), H(c));
      var x := m.And(a[k], c);
      HsSnoc(res, x);
      Assoc(old(m.handles), Hs(res), H(x));
      res := res + [x];
    }
  }

  lemma {:induction false} GatedAll(g: seq<Aig>, a: seq<Aig>, c: Aig)
    requires |g| == |a| && forall i :: 0 <= i < |a| ==> IsConj(g[i], a[i], c)
    ensures IsGated(g, a, c)
  {
    hide IsConj, IsGated;
    if g == [] {
      GatedStart(c);
    } else {
      assert IsConj(g[0], a[0], c);
      GatedAll(g[1..], a[1..], c);
      GatedCons(g[1..], a[1..], c, g[0], a[0]);
      SliceEnds(g);
      SliceEnds(a);
      SuffixCons(g, 0);
      SuffixCons(a, 0);
    }
  }

  /** Multiplication modulo the width. */
  method Mul(m: AigMgr, av1: seq<Aig>, av2: seq<Aig>) returns (res: seq<Aig>)
    requires m.Valid() && HeldVec(m, av1) && HeldVec(m, av2) && |av1| == |av2| > 0
    modifies m
    ensures m.Valid() && m.handles == old(m.handles) + Hs(res)
    ensures |res| == |av1|
    ensures forall env :: Value(env, res) == MulVal(|av1|, Value(env, av1), Value(env, av2))
  {
    hide AigMgr.Valid, H, Hs, IsProduct, IsGated, Value, MulVal, IsConj;
    var a, b := av1, av2;
    if m.sortAigvec && CompareVec(av1, av2) > 0 {
      a, b := b, a;
    }
    var width := |a|;
    HeldAt(m.handles, b, width - 1, m.handles);
    res := GateVec(m, a, b[width - 1]);
    GatedAll(res, a, b[width - 1]);
    FirstRow(a, b[width - 1], res);
    LastSuffix(b);
    SliceEnds(b);
    for i := width - 1 downto 0
      invariant m.Valid() && m.handles == old(m.handles) + Hs(res)
      invariant |res| == width && IsProduct(a, b[i..], res)
    {
      HeldAt(old(m.handles), b, i, old(m.handles));
      SuffixCons(b, i);
      res := AddRow(m, res, a, b[i], i, b[i + 1..], old(m.handles));
    }
    ProductMeaning(a, b, res);
    forall env
      ensures Value(env, res) == MulVal(|av1|, Value(env, av1), Value(env, av2))
    {
      MulComm(width, Value(env, av1), Value(env, av2));
    }
  }

  lemma ProductMeaning(a: seq<Aig>, b: seq<Aig>, r: seq<Aig>)
    requires IsProduct(a, b, r)
    ensures forall env :: Value(env, r) == MulVal(|a|, Value(env, a), Value(env, b))
  {
    hide Value, MulVal;
    forall env
      ensures Value(env, r) == MulVal(|a|, Value(env, a), Value(env, b))
    {
      assert ProductAt(env, a, b, r);
    }
  }

  lemma MulComm(w: nat, x: nat, y: nat)
    ensures MulVal(w, x, y) == MulVal(w, y, x)
  {
    assert x * y == y * x;
  }
}
