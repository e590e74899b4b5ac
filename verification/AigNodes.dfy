/** And-Inverter Graphs as values: nodes, tagged handles, their Boolean meaning,
    and the local rewriting rules of the AND constructor. */
module AigNodes {

  /** The part of a node that never changes once it is built.  Bookkeeping
      fields (reference count, chain link, CNF id, marks) live in the managers. */
  datatype Node = Var(id: nat) | And(id: nat, left: Aig, right: Aig)

  /** A handle: one of the two constants, or a pointer with an inversion tag. */
  datatype Aig = False | True | Ref(node: Node, inverted: bool)

  /** An input assignment: the ids of the variables that are true. */
  type Env = iset<nat>

  function Not(a: Aig): Aig {
    match a
    case False => True
    case True => False
    case Ref(n, inv) => Ref(n, !inv)
  }

  predicate IsConst(a: Aig) {
    !a.Ref?
  }

  predicate IsAnd(a: Aig) {
    a.Ref? && a.node.And?
  }

  predicate IsPosAnd(a: Aig) {
    IsAnd(a) && !a.inverted
  }

  predicate IsNegAnd(a: Aig) {
    IsAnd(a) && a.inverted
  }

  /** The meaning of a handle under an input assignment. */
  ghost predicate Eval(env: Env, a: Aig) {
    match a
    case False => false
    case True => true
    case Ref(n, inv) => EvalNode(env, n) != inv
  }

  ghost predicate EvalNode(env: Env, n: Node) {
    match n
    case Var(id) => id in env
    case And(_, l, r) => Eval(env, l) && Eval(env, r)
  }

  /** Children are never constant and always older than their parent. */
  ghost predicate Wf(n: Node) {
    n.And? ==>
      && n.left.Ref? && n.right.Ref?
      && n.left.node.id < n.id && n.right.node.id < n.id
      && Wf(n.left.node) && Wf(n.right.node)
  }

  ghost predicate WfAig(a: Aig) {
    a.Ref? ==> Wf(a.node)
  }

  /** Orders handles by node id, the inverted one of a node before the positive one. */
  function Compare(a: Aig, b: Aig): int {
    if a == b then 0
    else if Not(a) == b then (if a == True || (a.Ref? && a.inverted) then -1 else 1)
    else if IsConst(a) then -1
    else if IsConst(b) then 1
    else a.node.id - b.node.id
  }

  /** The termination measure of the rewriting loop. */
  function Rank(a: Aig): nat {
    if a.Ref? then a.node.id else 0
  }

  // ---------------------------------------------------------------------------
  // Two-level minimization rules
  // ---------------------------------------------------------------------------

  /** What one pass over the rules decides. */
  datatype Outcome = Return(result: Aig) | Retry(left: Aig, right: Aig) | NoRule

  predicate HasChild(a: Aig, c: Aig)
    requires IsAnd(a)
  {
    a.node.left == c || a.node.right == c
  }

  /** Some child of one conjunction is the complement of a child of the other. */
  predicate OppositeChildren(a: Aig, b: Aig)
    requires IsAnd(a) && IsAnd(b)
  {
    HasChild(a, Not(b.node.left)) || HasChild(a, Not(b.node.right))
  }

  function TrivialRules(l: Aig, r: Aig): Outcome {
    if l == False || r == False then Return(False)
    else if l == True then Return(r)
    else if r == True || l == r then Return(l)
    else if l == Not(r) then Return(False)
    else NoRule
  }

  function ContradictionRules(l: Aig, r: Aig): Outcome {
    if IsPosAnd(l) && HasChild(l, Not(r)) then Return(False)
    else if IsPosAnd(r) && HasChild(r, Not(l)) then Return(False)
    else if IsPosAnd(l) && IsPosAnd(r) && OppositeChildren(l, r) then Return(False)
    else NoRule
  }

  function SubsumptionRules(l: Aig, r: Aig): Outcome {
    if IsNegAnd(l) && HasChild(l, Not(r)) then Return(r)
    else if IsNegAnd(r) && HasChild(r, Not(l)) then Return(l)
    else if IsNegAnd(l) && IsPosAnd(r) && OppositeChildren(l, r) then Return(r)
    else if IsPosAnd(l) && IsNegAnd(r) && OppositeChildren(l, r) then Return(l)
    else NoRule
  }

  function ResolutionRules(l: Aig, r: Aig): Outcome {
    if !(IsNegAnd(l) && IsNegAnd(r)) then NoRule
    else
      var (ll, lr, rl, rr) := (l.node.left, l.node.right, r.node.left, r.node.right);
      if (ll == rl && lr == Not(rr)) || (ll == rr && lr == Not(rl)) then Return(Not(ll))
      else if (rr == lr && rl == Not(ll)) || (rr == ll && rl == Not(lr)) then Return(Not(rr))
      else NoRule
  }

  function IdempotencyRules(l: Aig, r: Aig): Outcome {
    if IsPosAnd(l) && HasChild(l, r) then Return(l)
    else if IsPosAnd(r) && HasChild(r, l) then Return(r)
    else if IsPosAnd(l) && IsPosAnd(r) && HasChild(l, r.node.left) then Retry(l, r.node.right)
    else if IsPosAnd(l) && IsPosAnd(r) && HasChild(l, r.node.right) then Retry(l, r.node.left)
    else NoRule
  }

  function SubstitutionRules(l: Aig, r: Aig): Outcome {
    if IsNegAnd(l) && l.node.right == r then Retry(Not(l.node.left), r)
    else if IsNegAnd(l) && l.node.left == r then Retry(Not(l.node.right), r)
    else if IsNegAnd(r) && r.node.left == l then Retry(l, Not(r.node.right))
    else if IsNegAnd(r) && r.node.right == l then Retry(l, Not(r.node.left))
    else if IsNegAnd(l) && IsPosAnd(r) && HasChild(r, l.node.right) then Retry(Not(l.node.left), r)
    else if IsNegAnd(l) && IsPosAnd(r) && HasChild(r, l.node.left) then Retry(Not(l.node.right), r)
    else if IsNegAnd(r) && IsPosAnd(l) && HasChild(l, r.node.left) then Retry(l, Not(r.node.right))
    else if IsNegAnd(r) && IsPosAnd(l) && HasChild(l, r.node.right) then Retry(l, Not(r.node.left))
    else NoRule
  }

  /** All rules, in the order in which they are tried. */
  function TwoLevel(l: Aig, r: Aig): Outcome {
    var o := TrivialRules(l, r);
    if o != NoRule then o else
    var o := ContradictionRules(l, r);
    if o != NoRule then o else
    var o := SubsumptionRules(l, r);
    if o != NoRule then o else
    var o := ResolutionRules(l, r);
    if o != NoRule then o else
    var o := IdempotencyRules(l, r);
    if o != NoRule then o else
    SubstitutionRules(l, r)
  }

  /** An outcome is sound for `l` and `r` when it keeps the value of their conjunction. */
  ghost predicate Sound(env: Env, l: Aig, r: Aig, o: Outcome) {
    match o
    case Return(a) => Eval(env, a) == (Eval(env, l) && Eval(env, r))
    case Retry(l', r') => (Eval(env, l') && Eval(env, r')) == (Eval(env, l) && Eval(env, r))
    case NoRule => true
  }

  lemma EvalNot(env: Env, a: Aig)
    ensures Eval(env, Not(a)) == !Eval(env, a)
  {
  }

  /** A conjunction, or its negation, in terms of the children. */
  lemma EvalAnd(env: Env, a: Aig)
    requires IsAnd(a)
    ensures Eval(env, a) == ((Eval(env, a.node.left) && Eval(env, a.node.right)) != a.inverted)
  {
  }

  /** Every rule preserves the conjunction, under every input assignment. */
  lemma TwoLevelSound(env: Env, l: Aig, r: Aig)
    ensures Sound(env, l, r, TwoLevel(l, r))
  {
    EvalNot(env, l);
    EvalNot(env, r);
    if IsAnd(l) {
      EvalAnd(env, l);
      EvalNot(env, l.node.left);
      EvalNot(env, l.node.right);
    }
    if IsAnd(r) {
      EvalAnd(env, r);
      EvalNot(env, r.node.left);
      EvalNot(env, r.node.right);
    }
  }

  /** `a` is the conjunction of `l` and `r` under every input assignment. */
  ghost predicate IsConj(a: Aig, l: Aig, r: Aig) {
    forall env :: Eval(env, a) == (Eval(env, l) && Eval(env, r))
  }

  ghost predicate IsDisj(a: Aig, l: Aig, r: Aig) {
    forall env :: Eval(env, a) == (Eval(env, l) || Eval(env, r))
  }

  ghost predicate IsEquiv(a: Aig, l: Aig, r: Aig) {
    forall env :: Eval(env, a) == (Eval(env, l) == Eval(env, r))
  }

  ghost predicate IsIte(a: Aig, c: Aig, t: Aig, e: Aig) {
    forall env :: Eval(env, a) == if Eval(env, c) then Eval(env, t) else Eval(env, e)
  }

  /** Disjunction by De Morgan's law. */
  lemma DeMorgan(a: Aig, l: Aig, r: Aig)
    requires IsConj(a, Not(l), Not(r))
    ensures IsDisj(Not(a), l, r)
  {
    forall env
      ensures Eval(env, Not(a)) == (Eval(env, l) || Eval(env, r))
    {
      EvalNot(env, a);
      EvalNot(env, l);
      EvalNot(env, r);
    }
  }

  /** Equivalence as two implications. */
  lemma EquivMeaning(a: Aig, p: Aig, q: Aig, l: Aig, r: Aig)
    requires IsConj(p, l, Not(r)) && IsConj(q, Not(l), r) && IsConj(a, Not(p), Not(q))
    ensures IsEquiv(a, l, r)
  {
    forall env
      ensures Eval(env, a) == (Eval(env, l) == Eval(env, r))
    {
      EvalNot(env, l);
      EvalNot(env, r);
      EvalNot(env, p);
      EvalNot(env, q);
    }
  }

  lemma IteMeaning(a: Aig, p: Aig, q: Aig, c: Aig, t: Aig, e: Aig)
    requires IsConj(p, t, c) && IsConj(q, e, Not(c)) && (IsDisj(a, p, q) || IsDisj(a, q, p))
    ensures IsIte(a, c, t, e)
  {
    forall env
      ensures Eval(env, a) == if Eval(env, c) then Eval(env, t) else Eval(env, e)
    {
      EvalNot(env, c);
    }
  }

  /** The two pairs of operands have the same conjunction. */
  ghost predicate SameConj(l': Aig, r': Aig, l: Aig, r: Aig) {
    forall env :: (Eval(env, l') && Eval(env, r')) == (Eval(env, l) && Eval(env, r))
  }

  ghost predicate OutcomeOk(l: Aig, r: Aig, o: Outcome) {
    match o
    case Return(a) => IsConj(a, l, r)
    case Retry(l', r') => SameConj(l', r', l, r)
    case NoRule => true
  }

  lemma OutcomeSound(l: Aig, r: Aig)
    ensures OutcomeOk(l, r, TwoLevel(l, r))
  {
    hide TwoLevel;
    var o := TwoLevel(l, r);
    forall env
      ensures Sound(env, l, r, o)
    {
      TwoLevelSound(env, l, r);
    }
    match o
    case Return(a) => assert forall env :: Sound(env, l, r, o) ==> Eval(env, a) == (Eval(env, l) && Eval(env, r));
    case Retry(l', r') =>
      assert forall env :: Sound(env, l, r, o) ==>
          (Eval(env, l') && Eval(env, r')) == (Eval(env, l) && Eval(env, r));
    case NoRule =>
  }

  lemma ConjTransfer(a: Aig, l: Aig, r: Aig, left: Aig, right: Aig)
    requires SameConj(l, r, left, right) && IsConj(a, l, r)
    ensures IsConj(a, left, right)
  {
  }

  lemma OutcomeTransfer(l: Aig, r: Aig, left: Aig, right: Aig, o: Outcome)
    requires SameConj(l, r, left, right) && OutcomeOk(l, r, o)
    ensures OutcomeOk(left, right, o)
  {
  }

  /** A retry replaces one operand by (the complement of) one of its own
      children, so the sum of the node ids drops. */
  lemma TwoLevelDecreases(l: Aig, r: Aig)
    requires WfAig(l) && WfAig(r)
    ensures match TwoLevel(l, r)
            case Retry(l', r') => WfAig(l') && WfAig(r') && Rank(l') + Rank(r') < Rank(l) + Rank(r)
            case Return(a) => WfAig(a)
            case NoRule => l.Ref? && r.Ref? && l.node != r.node
  {
  }

  ghost predicate Within(s: set<Node>, a: Aig) {
    a.Ref? ==> a.node in s
  }

  /** A set of nodes that contains the children of its conjunctions. */
  ghost predicate Closed(s: set<Node>) {
    forall n {:trigger n.left} {:trigger n.right} :: n in s && n.And? ==>
      Within(s, n.left) && Within(s, n.right)
  }

  /** The rules only ever mention the operands and their children. */
  lemma TwoLevelWithin(s: set<Node>, l: Aig, r: Aig)
    requires Closed(s) && Within(s, l) && Within(s, r)
    ensures match TwoLevel(l, r)
            case Return(a) => Within(s, a)
            case Retry(l', r') => Within(s, l') && Within(s, r')
            case NoRule => true
  {
  }

  // ---------------------------------------------------------------------------
  // Bounded search for a contradiction
  // ---------------------------------------------------------------------------

  const CONTRADICTION_LIMIT: nat := 8

  /** Looks below the positive conjunctions of `a` for the complement of `a0`
      or `a1`; `calls` counts the nodes visited so far. */
  function FindContradiction(a: Aig, a0: Aig, a1: Aig, calls: nat): (res: (bool, nat))
    decreases a
  {
    if calls >= CONTRADICTION_LIMIT || !IsPosAnd(a) then (false, calls)
    else if HasChild(a, Not(a0)) || HasChild(a, Not(a1)) then (true, calls)
    else
      var (found, calls') := FindContradiction(a.node.left, a0, a1, calls + 1);
      if found then (true, calls') else FindContradiction(a.node.right, a0, a1, calls')
  }

  /** A contradiction found below `a` means `a`, `a0` and `a1` are never true together. */
  lemma {:induction false} FindContradictionSound(env: Env, a: Aig, a0: Aig, a1: Aig, calls: nat)
    ensures FindContradiction(a, a0, a1, calls).0 ==>
              !(Eval(env, a) && Eval(env, a0) && Eval(env, a1))
    decreases a
  {
    if calls < CONTRADICTION_LIMIT && IsPosAnd(a) {
      EvalAnd(env, a);
      EvalNot(env, a0);
      EvalNot(env, a1);
      if !(HasChild(a, Not(a0)) || HasChild(a, Not(a1))) {
        FindContradictionSound(env, a.node.left, a0, a1, calls + 1);
        FindContradictionSound(env, a.node.right, a0, a1,
                               FindContradiction(a.node.left, a0, a1, calls + 1).1);
      }
    }
  }

  /** Searching below both operands, as the constructor does. */
  lemma ContradictionSound(l: Aig, r: Aig)
    requires Contradictory(l, r)
    ensures IsConj(False, l, r)
  {
    forall env
      ensures !(Eval(env, l) && Eval(env, r))
    {
      FindContradictionSound(env, l, l, r, 0);
      FindContradictionSound(env, r, l, r, FindContradiction(l, l, r, 0).1);
    }
  }

  // ---------------------------------------------------------------------------
  // Implicit XOR
  // ---------------------------------------------------------------------------

  /** Both operands are negated conjunctions with pairwise opposite children. */
  predicate IsXorPair(l: Aig, r: Aig) {
    && IsNegAnd(l) && IsNegAnd(r)
    && l.node.left == Not(r.node.left) && l.node.right == Not(r.node.right)
  }

  /** Such a conjunction is the exclusive or of the left operand's children. */
  lemma XorPairMeaning(env: Env, l: Aig, r: Aig)
    requires IsXorPair(l, r)
    ensures (Eval(env, l) && Eval(env, r)) ==
            (Eval(env, l.node.left) != Eval(env, l.node.right))
  {
    EvalAnd(env, l);
    EvalAnd(env, r);
    EvalNot(env, r.node.left);
    EvalNot(env, r.node.right);
  }

  // ---------------------------------------------------------------------------
  // Normal forms and reachability
  // ---------------------------------------------------------------------------

  /** The operands and the verdict that repeated rewriting ends with. */
  ghost function Normal(l: Aig, r: Aig): (Aig, Aig, Outcome)
    requires WfAig(l) && WfAig(r)
    decreases Rank(l) + Rank(r)
  {
    var o := TwoLevel(l, r);
    TwoLevelDecreases(l, r);
    if o.Retry? then Normal(o.left, o.right) else (l, r, o)
  }

  /** The bounded search, below the left operand first, finds a contradiction. */
  predicate Contradictory(l: Aig, r: Aig) {
    var (found, calls) := FindContradiction(l, l, r, 0);
    found || FindContradiction(r, l, r, calls).0
  }

  /** No two-level rule applies to the operands, and the bounded search below
      them finds no contradiction. */
  predicate Irreducible(l: Aig, r: Aig) {
    TwoLevel(l, r) == NoRule && !Contradictory(l, r)
  }

  /** The node is in the graph below (or equal to) `root`. */
  ghost predicate Below(n: Node, root: Node) {
    || n == root
    || (root.And? && ((root.left.Ref? && Below(n, root.left.node)) || (root.right.Ref? && Below(n, root.right.node))))
  }

  lemma BelowChild(p: Node, root: Node, c: Node)
    requires Below(p, root) && p.And?
    requires (p.left.Ref? && c == p.left.node) || (p.right.Ref? && c == p.right.node)
    ensures Below(c, root)
  {
  }

  lemma BelowClosed(s: set<Node>, n: Node, root: Node)
    requires Closed(s) && root in s && Below(n, root)
    ensures n in s
  {
    if n != root {
      var _ := root.left;
      if root.left.Ref? && Below(n, root.left.node) {
        BelowClosed(s, n, root.left.node);
      } else {
        BelowClosed(s, n, root.right.node);
      }
    }
  }
}
