/** What the AND constructor's rules amount to, in terms of the operands alone:
    when no rule applies, what the bounded search finds, and which results and
    simplifications the rules give. */
module AigLaws {
  import opened AigNodes

  // ---------------------------------------------------------------------------
  // When no rule applies
  // ---------------------------------------------------------------------------

  /** The nodes of the children of a conjunction, inverted or not. */
  ghost function ChildNodes(a: Aig): set<Node>
    requires WfAig(a)
  {
    if IsAnd(a) then {a.node.left.node, a.node.right.node} else {}
  }

  /** The children of a conjunction, in either order. */
  predicate IsPair(n: Node, c: Aig, d: Aig) {
    n.And? && ((n.left == c && n.right == d) || (n.left == d && n.right == c))
  }

  /** One conjunction is over `c` and `d`, the other over `c` and the complement
      of `d`, in any order: both complements together mean the complement of `c`. */
  ghost predicate Resolves(m: Node, n: Node) {
    exists c, d :: IsPair(m, c, d) && IsPair(n, c, Not(d))
  }

  /** The pattern as the rule finds it: the shared child is on the left in the
      first conjunction or on the right in the second. */
  ghost predicate FoundResolving(m: Node, n: Node) {
    exists c, d :: IsPair(m, c, d) && IsPair(n, c, Not(d)) && (m.left == c || n.right == c)
  }

  /** The operands are different nodes, neither is a child of the other, and two
      conjunctions share no child unless both are inverted. */
  ghost predicate Separate(l: Aig, r: Aig)
    requires WfAig(l) && WfAig(r)
  {
    && l.Ref? && r.Ref? && l.node != r.node
    && l.node !in ChildNodes(r) && r.node !in ChildNodes(l)
    && ((IsNegAnd(l) && IsNegAnd(r)) || ChildNodes(l) !! ChildNodes(r))
  }

  /** Separate operands that do not resolve. */
  ghost predicate Unrelated(l: Aig, r: Aig)
    requires WfAig(l) && WfAig(r)
  {
    Separate(l, r) && (IsNegAnd(l) && IsNegAnd(r) ==> !FoundResolving(l.node, r.node))
  }

  lemma ResolvesIff(l: Aig, r: Aig)
    requires IsNegAnd(l) && IsNegAnd(r)
    ensures FoundResolving(l.node, r.node) <==> ResolutionRules(l, r) != NoRule
  {
    var (ll, lr, rl, rr) := (l.node.left, l.node.right, r.node.left, r.node.right);
    NotNot(rl);
    NotNot(rr);
    if FoundResolving(l.node, r.node) {
      var c, d :| IsPair(l.node, c, d) && IsPair(r.node, c, Not(d)) && (l.node.left == c || r.node.right == c);
      NotNot(d);
    } else {
      assert !(IsPair(l.node, ll, lr) && IsPair(r.node, ll, Not(lr)));
      assert !(IsPair(l.node, rr, ll) && IsPair(r.node, rr, Not(ll)));
    }
  }

  lemma NotNot(a: Aig)
    ensures Not(Not(a)) == a
  {
  }

  /** No rule applies exactly to unrelated operands. */
  lemma NoRuleIffUnrelated(l: Aig, r: Aig)
    requires WfAig(l) && WfAig(r)
    ensures TwoLevel(l, r) == NoRule <==> Unrelated(l, r)
  {
    hide FoundResolving, IsPair, ResolutionRules;
    if IsNegAnd(l) && IsNegAnd(r) {
      ResolvesIff(l, r);
    } else {
      NoResolution(l, r);
    }
  }

  lemma NoResolution(l: Aig, r: Aig)
    requires !(IsNegAnd(l) && IsNegAnd(r))
    ensures ResolutionRules(l, r) == NoRule
  {
  }

  /** The rule finds every resolution pattern whose conjunctions have their
      children in ascending order of ids; otherwise it misses exactly those whose
      shared child is on the right in the first and on the left in the second. */
  lemma ResolutionFound(m: Node, n: Node)
    requires m.And? && n.And? && Wf(m) && Wf(n) && m.left.node != m.right.node
    ensures FoundResolving(m, n) <==> Resolves(m, n) && !(m.right == n.left && m.left == Not(n.right))
    ensures Rank(m.left) < Rank(m.right) && Rank(n.left) < Rank(n.right) ==> (FoundResolving(m, n) <==> Resolves(m, n))
  {
    if Resolves(m, n) {
      var c, d :| IsPair(m, c, d) && IsPair(n, c, Not(d));
      NotNot(d);
    }
  }

  lemma ResolvesSym(m: Node, n: Node)
    ensures Resolves(m, n) <==> Resolves(n, m)
  {
    if Resolves(m, n) {
      var c, d :| IsPair(m, c, d) && IsPair(n, c, Not(d));
      NotNot(d);
      assert IsPair(n, c, Not(d)) && IsPair(m, c, Not(Not(d)));
    }
    if Resolves(n, m) {
      var c, d :| IsPair(n, c, d) && IsPair(m, c, Not(d));
      NotNot(d);
      assert IsPair(m, c, Not(d)) && IsPair(n, c, Not(Not(d)));
    }
  }

  /** With sorted children, the order of the operands does not matter either. */
  lemma SortedResolution(m: Node, n: Node)
    requires m.And? && n.And? && Wf(m) && Wf(n)
    requires Rank(m.left) < Rank(m.right) && Rank(n.left) < Rank(n.right)
    ensures FoundResolving(m, n) <==> Resolves(m, n)
    ensures FoundResolving(n, m) <==> Resolves(m, n)
  {
    hide FoundResolving, Resolves;
    ResolvesSym(m, n);
    ResolutionFound(m, n);
    ResolutionFound(n, m);
  }

  /** Two conjunctions over two inputs that resolve to an input, although no rule
      applies; with the operands exchanged, the rule applies. */
  lemma ResolutionMissed()
    ensures var x, y := Ref(Var(2), false), Ref(Var(3), false);
            var l, r := Ref(And(4, x, y), true), Ref(And(5, y, Not(x)), true);
            && IsConj(Not(y), l, r) && TwoLevel(l, r) == NoRule && !Contradictory(l, r)
            && TwoLevel(r, l) == Return(Not(y))
  {
    var x, y := Ref(Var(2), false), Ref(Var(3), false);
    var l, r := Ref(And(4, x, y), true), Ref(And(5, y, Not(x)), true);
    forall env
      ensures Eval(env, Not(y)) == (Eval(env, l) && Eval(env, r))
    {
      EvalAnd(env, l);
      EvalAnd(env, r);
    }
  }

  // ---------------------------------------------------------------------------
  // What the bounded search finds
  // ---------------------------------------------------------------------------

  /** The positive conjunctions reached through positive conjunctions, in the
      order in which the search comes to them. */
  ghost function Positives(a: Aig): (s: seq<Aig>)
    ensures forall p :: p in s ==> IsAnd(p)
    decreases a
  {
    if IsPosAnd(a) then [a] + Positives(a.node.left) + Positives(a.node.right) else []
  }

  /** Some child of the conjunction is the complement of one of the operands. */
  predicate Clashes(p: Aig, a0: Aig, a1: Aig)
    requires IsAnd(p)
  {
    HasChild(p, Not(a0)) || HasChild(p, Not(a1))
  }

  /** Some of the first `k` conjunctions of the list clash. */
  ghost predicate ClashWithin(s: seq<Aig>, k: nat, a0: Aig, a1: Aig)
    requires forall p :: p in s ==> IsAnd(p)
  {
    exists i :: 0 <= i < k && i < |s| && Clashes(s[i], a0, a1)
  }

  function Min(x: nat, y: nat): nat {
    if x < y then x else y
  }

  /** The search comes to as many conjunctions as its budget of eight allows, and
      finds a clash exactly when one of them clashes. */
  lemma {:induction false} SearchFinds(a: Aig, a0: Aig, a1: Aig, calls: nat)
    requires calls <= 8
    ensures var (found, calls') := FindContradiction(a, a0, a1, calls);
            && (found <==> ClashWithin(Positives(a), 8 - calls, a0, a1))
            && (!found ==> calls' == Min(8, calls + |Positives(a)|))
    decreases a
  {
    hide Clashes, ClashWithin, HasChild;
    if calls == 8 {
      NoBudget(Positives(a), a0, a1);
    } else if !IsPosAnd(a) {
      NoneListed(8 - calls, a0, a1);
    } else {
      var (l, r) := (a.node.left, a.node.right);
      BelowPositive(a, 8 - calls, a0, a1);
      NoBudget(Positives(r), a0, a1);
      SearchFinds(l, a0, a1, calls + 1);
      var (found, calls') := FindContradiction(l, a0, a1, calls + 1);
      if !found {
        SearchFinds(r, a0, a1, calls');
      }
    }
  }

  lemma BelowPositive(a: Aig, k: nat, a0: Aig, a1: Aig)
    requires IsPosAnd(a) && k > 0
    ensures var (s, t) := (Positives(a.node.left), Positives(a.node.right));
            && |Positives(a)| == 1 + |s| + |t|
            && (ClashWithin(Positives(a), k, a0, a1) <==>
                  || HasChild(a, Not(a0)) || HasChild(a, Not(a1)) || ClashWithin(s, k - 1, a0, a1)
                  || (k - 1 > |s| && ClashWithin(t, k - 1 - |s|, a0, a1)))
  {
    hide Clashes, ClashWithin, HasChild, Positives;
    var (s, t) := (Positives(a.node.left), Positives(a.node.right));
    PositivesOf(a);
    AllAnds(s, t);
    ClashFirst(a, s + t, k, a0, a1);
    ClashSplit(s, t, k - 1, a0, a1);
    NoBudget(s, a0, a1);
  }

  lemma AllAnds(s: seq<Aig>, t: seq<Aig>)
    requires forall p :: p in s ==> IsAnd(p)
    requires forall p :: p in t ==> IsAnd(p)
    ensures forall p :: p in s + t ==> IsAnd(p)
  {
  }

  lemma PositivesOf(a: Aig)
    requires IsPosAnd(a)
    ensures Positives(a) == [a] + (Positives(a.node.left) + Positives(a.node.right))
  {
    var (s, t) := (Positives(a.node.left), Positives(a.node.right));
    assert [a] + s + t == [a] + (s + t);
  }

  lemma ClashFirst(a: Aig, s: seq<Aig>, k: nat, a0: Aig, a1: Aig)
    requires IsAnd(a) && k > 0
    requires forall p :: p in s ==> IsAnd(p)
    ensures forall p :: p in [a] + s ==> IsAnd(p)
    ensures ClashWithin([a] + s, k, a0, a1)
            <==> HasChild(a, Not(a0)) || HasChild(a, Not(a1)) || ClashWithin(s, k - 1, a0, a1)
  {
    hide Clashes, ClashWithin, HasChild;
    AllAnds([a], s);
    ClashSplit([a], s, k, a0, a1);
    HeadClash(a, a0, a1, k);
    NoBudget(s, a0, a1);
  }

  lemma NoneListed(k: nat, a0: Aig, a1: Aig)
    ensures !ClashWithin([], k, a0, a1)
  {
  }

  lemma NoBudget(s: seq<Aig>, a0: Aig, a1: Aig)
    requires forall p :: p in s ==> IsAnd(p)
    ensures !ClashWithin(s, 0, a0, a1)
  {
  }

  lemma HeadClash(a: Aig, a0: Aig, a1: Aig, k: nat)
    requires IsAnd(a) && k > 0
    ensures ClashWithin([a], k, a0, a1) <==> Clashes(a, a0, a1)
    ensures Clashes(a, a0, a1) <==> HasChild(a, Not(a0)) || HasChild(a, Not(a1))
  {
    if Clashes(a, a0, a1) {
      assert Clashes([a][0], a0, a1);
    }
  }

  lemma ClashSplit(s: seq<Aig>, t: seq<Aig>, k: nat, a0: Aig, a1: Aig)
    requires forall p :: p in s + t ==> IsAnd(p)
    requires forall p :: p in s ==> IsAnd(p)
    requires forall p :: p in t ==> IsAnd(p)
    ensures ClashWithin(s + t, k, a0, a1)
            <==> ClashWithin(s, k, a0, a1) || (k > |s| && ClashWithin(t, k - |s|, a0, a1))
  {
    hide Clashes;
    if ClashWithin(s + t, k, a0, a1) {
      var i :| 0 <= i < k && i < |s + t| && Clashes((s + t)[i], a0, a1);
      if i >= |s| {
        assert Clashes(t[i - |s|], a0, a1);
      } else {
        assert Clashes(s[i], a0, a1);
      }
    }
    if ClashWithin(s, k, a0, a1) {
      var i :| 0 <= i < k && i < |s| && Clashes(s[i], a0, a1);
      assert Clashes((s + t)[i], a0, a1);
    }
    if k > |s| && ClashWithin(t, k - |s|, a0, a1) {
      var i :| 0 <= i < k - |s| && i < |t| && Clashes(t[i], a0, a1);
      assert Clashes((s + t)[|s| + i], a0, a1);
    }
  }

  /** Exactly when the constructor finds a contradiction: one of the first eight
      conjunctions, first below the left operand and then below the right one,
      has the complement of an operand as a child. */
  lemma ContradictoryIff(l: Aig, r: Aig)
    ensures Contradictory(l, r) <==> ClashWithin(Positives(l) + Positives(r), 8, l, r)
  {
    hide ClashWithin;
    SearchFinds(l, l, r, 0);
    var (found, calls) := FindContradiction(l, l, r, 0);
    ClashSplit(Positives(l), Positives(r), 8, l, r);
    if !found {
      SearchFinds(r, l, r, calls);
      NoBudget(Positives(r), l, r);
    }
  }

  lemma NotPositive(a: Aig)
    requires !IsPosAnd(a)
    ensures Positives(a) == []
  {
  }

  /** Operands without positive conjunctions are never contradictory. */
  lemma NoPositives(l: Aig, r: Aig)
    requires !IsPosAnd(l) && !IsPosAnd(r)
    ensures !Contradictory(l, r)
  {
    NotPositive(l);
    NotPositive(r);
    ContradictoryIff(l, r);
    NoneListed(8, l, r);
  }

  // ---------------------------------------------------------------------------
  // What the rules give
  // ---------------------------------------------------------------------------

  /** A conjunction whose children are separate, as in every store. */
  ghost predicate Lean(a: Aig) {
    WfAig(a) && (IsAnd(a) ==> Separate(a.node.left, a.node.right))
  }

  /** Laws of the AND constructor: constants and repeated operands, a conjunction
      with one of its own children or its complement, and two conjunctions with
      complementary children. */
  ghost predicate AndLaws(l: Aig, r: Aig, res: Aig) {
    && (l == False || r == False || l == Not(r) ==> res == False)
    && (l == True || l == r ==> res == r)
    && (r == True ==> res == l)
    && ChildLaws(l, r, res) && ChildLaws(r, l, res)
    && PairLaws(l, r, res) && PairLaws(r, l, res)
    && (forall c, d :: ResolveTo(l, r, c, d) ==> res == Not(c))
  }

  /** Both operands are inverted conjunctions that resolve to the complement of `c`. */
  ghost predicate ResolveTo(l: Aig, r: Aig, c: Aig, d: Aig) {
    && IsNegAnd(l) && IsNegAnd(r) && IsPair(l.node, c, d) && IsPair(r.node, c, Not(d))
    && (l.node.left == c || r.node.right == c)
  }

  ghost predicate ChildLaws(a: Aig, b: Aig, res: Aig) {
    && (IsPosAnd(a) && HasChild(a, b) ==> res == a)
    && (IsPosAnd(a) && HasChild(a, Not(b)) ==> res == False)
    && (IsNegAnd(a) && HasChild(a, Not(b)) ==> res == b)
  }

  ghost predicate PairLaws(a: Aig, b: Aig, res: Aig) {
    && (IsPosAnd(a) && IsPosAnd(b) && OppositeChildren(a, b) ==> res == False)
    && (IsNegAnd(a) && IsPosAnd(b) && OppositeChildren(a, b) ==> res == b)
  }

  lemma TrivialLaws(l: Aig, r: Aig, res: Aig)
    requires TwoLevel(l, r).Return? ==> res == TwoLevel(l, r).result
    ensures l == False || r == False || l == Not(r) ==> res == False
    ensures l == True || l == r ==> res == r
    ensures r == True ==> res == l
  {
    hide ContradictionRules, SubsumptionRules, ResolutionRules, IdempotencyRules, SubstitutionRules;
  }

  lemma ChildRules(l: Aig, r: Aig, res: Aig)
    requires Lean(l) && Lean(r)
    requires TwoLevel(l, r).Return? ==> res == TwoLevel(l, r).result
    ensures ChildLaws(l, r, res) && ChildLaws(r, l, res)
  {
    hide SubstitutionRules;
  }

  lemma PairRules(l: Aig, r: Aig, res: Aig)
    requires Lean(l) && Lean(r)
    requires TwoLevel(l, r).Return? ==> res == TwoLevel(l, r).result
    ensures PairLaws(l, r, res) && PairLaws(r, l, res)
  {
    hide ResolutionRules, IdempotencyRules, SubstitutionRules;
  }

  lemma ResolveRule(l: Aig, r: Aig, c: Aig, d: Aig)
    requires Lean(l) && Lean(r) && ResolveTo(l, r, c, d)
    ensures TwoLevel(l, r) == Return(Not(c))
  {
    hide IdempotencyRules, SubstitutionRules;
  }

  /** The rules obey the laws, whatever is returned when they return nothing. */
  lemma RulesObeyLaws(l: Aig, r: Aig, res: Aig)
    requires Lean(l) && Lean(r)
    requires TwoLevel(l, r).Return? ==> res == TwoLevel(l, r).result
    ensures AndLaws(l, r, res)
  {
    hide TwoLevel, Lean, ChildLaws, PairLaws, ResolveTo;
    TrivialLaws(l, r, res);
    ChildRules(l, r, res);
    PairRules(l, r, res);
    forall c, d | ResolveTo(l, r, c, d)
      ensures res == Not(c)
    {
      ResolveRule(l, r, c, d);
    }
  }

  /** A negated conjunction with one of its children is the conjunction of that
      child with the complement of the other one. */
  lemma DropChild(p: Node, c: Aig, d: Aig)
    requires Lean(Ref(p, false)) && IsPair(p, c, d)
    ensures TwoLevel(Ref(p, true), c) == Retry(Not(d), c) && TwoLevel(c, Ref(p, true)) == Retry(c, Not(d))
  {
    assert Wf(c.node) && Wf(d.node);
  }

  /** Two conjunctions that share exactly one child: the shared child is dropped
      from the second if both are positive, and from the negated one otherwise. */
  lemma DropShared(p: Node, q: Node, c: Aig, d: Aig, e: Aig)
    requires Lean(Ref(p, false)) && Lean(Ref(q, false)) && IsPair(p, c, d) && IsPair(q, c, e) && d.node != e.node
    requires q !in ChildNodes(Ref(p, false)) && p !in ChildNodes(Ref(q, false))
    ensures TwoLevel(Ref(p, false), Ref(q, false)) == Retry(Ref(p, false), e)
    ensures TwoLevel(Ref(p, true), Ref(q, false)) == Retry(Not(d), Ref(q, false))
    ensures TwoLevel(Ref(p, false), Ref(q, true)) == Retry(Ref(p, false), Not(e))
  {
  }

  // ---------------------------------------------------------------------------
  // Stored conjunctions
  // ---------------------------------------------------------------------------

  lemma SeparateSym(l: Aig, r: Aig)
    requires WfAig(l) && WfAig(r)
    ensures Separate(l, r) <==> Separate(r, l)
  {
  }

  /** What is known of a conjunction that was stored because its operands, in one
      of both orders, were irreducible. */
  lemma ReducedChildren(n: Node, sorted: bool)
    requires n.And? && Wf(n) && (Irreducible(n.left, n.right) || (sorted && Irreducible(n.right, n.left)))
    ensures Lean(Ref(n, false)) && (Unrelated(n.left, n.right) || (sorted && Unrelated(n.right, n.left)))
    ensures !ClashWithin(Positives(n.left) + Positives(n.right), 8, n.left, n.right)
            || (sorted && !ClashWithin(Positives(n.right) + Positives(n.left), 8, n.right, n.left))
  {
    hide TwoLevel, Contradictory, ClashWithin, FoundResolving, Separate, Positives;
    SeparateSym(n.left, n.right);
    NoRuleIffUnrelated(n.left, n.right);
    NoRuleIffUnrelated(n.right, n.left);
    ContradictoryIff(n.left, n.right);
    ContradictoryIff(n.right, n.left);
  }
}
