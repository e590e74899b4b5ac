/** What the local search computes: the graph below the roots, assignments and
    the scores of handles under an assignment. */
module PropSpec {
  import opened AigNodes
  import Dfs

  // ---------------------------------------------------------------------------
  // The graph below the roots
  // ---------------------------------------------------------------------------

  /** The nodes that the children of a node refer to. */
  function Kids(n: Node): seq<Node> {
    if n.Var? then []
    else (if n.left.Ref? then [n.left.node] else []) + (if n.right.Ref? then [n.right.node] else [])
  }

  ghost function Subnodes(n: Node): set<Node> {
    {n} + match n
          case Var(_) => {}
          case And(_, l, r) => (if l.Ref? then Subnodes(l.node) else {}) + (if r.Ref? then Subnodes(r.node) else {})
  }

  /** All nodes reachable from the roots. */
  ghost function Reach(roots: set<Aig>): set<Node> {
    set r, n | r in roots && r.Ref? && n in Subnodes(r.node) :: n
  }

  ghost function KidsMap(graph: set<Node>): map<Node, seq<Node>> {
    map n | n in graph :: Kids(n)
  }

  ghost predicate RootsWf(roots: set<Aig>) {
    forall r :: r in roots ==> WfAig(r)
  }

  /** A set of well-formed nodes with all their descendants. */
  ghost predicate GraphOk(graph: set<Node>) {
    && (forall n :: n in graph ==> Wf(n))
    && (forall n, k :: n in graph && k in Kids(n) ==> k in graph)
  }

  lemma {:induction false} SubnodesOk(n: Node)
    requires Wf(n)
    ensures n in Subnodes(n) && GraphOk(Subnodes(n))
  {
    if n.And? {
      SubnodesOk(n.left.node);
      SubnodesOk(n.right.node);
    }
  }

  lemma ReachOk(roots: set<Aig>)
    requires RootsWf(roots)
    ensures GraphOk(Reach(roots))
    ensures forall r :: r in roots && r.Ref? ==> r.node in Reach(roots)
  {
    hide GraphOk, Subnodes, Wf, Kids;
    forall r | r in roots && r.Ref?
      ensures r.node in Reach(roots)
    {
      SubnodesOk(r.node);
    }
    var g := Reach(roots);
    assert GraphOk(g) by {
      forall n | n in g
        ensures NodeIn(n, g)
      {
        var r :| r in roots && r.Ref? && n in Subnodes(r.node);
        SubnodesOk(r.node);
        InBigger(n, Subnodes(r.node), g);
      }
      AllIn(g);
    }
  }

  ghost predicate NodeIn(n: Node, graph: set<Node>) {
    Wf(n) && forall k :: k in Kids(n) ==> k in graph
  }

  lemma InBigger(n: Node, small: set<Node>, graph: set<Node>)
    requires GraphOk(small) && n in small && small <= graph
    ensures NodeIn(n, graph)
  {
  }

  lemma AllIn(graph: set<Node>)
    requires forall n :: n in graph ==> NodeIn(n, graph)
    ensures GraphOk(graph)
  {
  }

  lemma KidsMapOk(graph: set<Node>)
    requires GraphOk(graph)
    ensures Dfs.KidsOk(KidsMap(graph)) && KidsMap(graph).Keys == graph
  {
    forall n, k | n in graph && k in Kids(n)
      ensures k in graph && k.id < n.id
    {
      assert Wf(n);
    }
  }

  lemma KidsOfNode(graph: set<Node>, n: Node)
    requires GraphOk(graph) && n in graph
    ensures KidsMap(graph)[n] == Kids(n)
    ensures n.And? ==>
              && n.left.Ref? && n.right.Ref? && Kids(n) == [n.left.node, n.right.node]
              && n.left.node in graph && n.right.node in graph
              && n.left.node.id < n.id && n.right.node.id < n.id
  {
    assert Wf(n);
    if n.And? {
      assert n.left.node in Kids(n) && n.right.node in Kids(n);
    }
  }

  /** A downward closed set that contains the roots contains everything below them. */
  lemma {:induction false} SubnodesWithin(n: Node, done: set<Node>)
    requires n in done && forall m, k :: m in done && k in Kids(m) ==> k in done
    ensures Subnodes(n) <= done
  {
    if n.And? {
      if n.left.Ref? {
        assert n.left.node in Kids(n);
        SubnodesWithin(n.left.node, done);
      }
      if n.right.Ref? {
        assert n.right.node in Kids(n);
        SubnodesWithin(n.right.node, done);
      }
    }
  }

  lemma ReachWithin(roots: set<Aig>, done: set<Node>)
    requires forall r :: r in roots && r.Ref? ==> r.node in done
    requires forall m, k :: m in done && k in Kids(m) ==> k in done
    ensures Reach(roots) <= done
  {
    hide Subnodes, Kids;
    forall n | n in Reach(roots)
      ensures n in done
    {
      var r :| r in roots && r.Ref? && n in Subnodes(r.node);
      SubnodesWithin(r.node, done);
    }
  }

  ghost predicate AllTrue(env: Env, roots: set<Aig>) {
    forall r :: r in roots ==> Eval(env, r)
  }

  // ---------------------------------------------------------------------------
  // Assignments
  // ---------------------------------------------------------------------------

  function Sign(b: bool): int {
    if b then 1 else -1
  }

  /** The inputs a model sets to true. */
  ghost function EnvOf(model: map<Node, int>): Env {
    iset i: nat | Var(i) in model && model[Var(i)] == 1
  }

  /** Every assigned node has the value of its evaluation under the assigned inputs. */
  ghost predicate Evaluates(model: map<Node, int>, env: Env) {
    forall n :: n in model ==> model[n] == Sign(EvalNode(env, n))
  }

  ghost predicate Closed(model: map<Node, int>) {
    forall n, k :: n in model && k in Kids(n) ==> k in model
  }

  /** A consistent, possibly partial, model. */
  ghost predicate ModelOk(model: map<Node, int>, graph: set<Node>) {
    model.Keys <= graph && Closed(model) && Evaluates(model, EnvOf(model))
  }

  /** The value of a handle. */
  function ValueIn(model: map<Node, int>, a: Aig): int
    requires a.Ref? ==> a.node in model
  {
    match a
    case True => 1
    case False => -1
    case Ref(n, inv) => if inv then -model[n] else model[n]
  }

  lemma ValueIsEval(model: map<Node, int>, env: Env, a: Aig)
    requires Evaluates(model, env) && (a.Ref? ==> a.node in model)
    ensures ValueIn(model, a) == Sign(Eval(env, a))
  {
  }

  /** Assigning an unassigned input to false. */
  lemma AssignInput(model: map<Node, int>, graph: set<Node>, n: Node)
    requires ModelOk(model, graph) && n.Var? && n !in model && n in graph
    ensures ModelOk(model[n := -1], graph) && EnvOf(model[n := -1]) == EnvOf(model)
  {
    assert EnvOf(model[n := -1]) == EnvOf(model);
  }

  /** Assigning a conjunction whose children are assigned. */
  lemma AssignAnd(model: map<Node, int>, graph: set<Node>, n: Node, v: int)
    requires ModelOk(model, graph) && n.And? && n !in model && n in graph && forall k :: k in Kids(n) ==> k in model
    requires v == Sign(EvalNode(EnvOf(model), n))
    ensures ModelOk(model[n := v], graph) && EnvOf(model[n := v]) == EnvOf(model)
  {
    hide EvalNode, Kids;
    assert EnvOf(model[n := v]) == EnvOf(model);
  }

  /** The conjunction rule that the search applies to the children's values. */
  lemma AndValue(model: map<Node, int>, env: Env, n: Node)
    requires Evaluates(model, env) && n.And?
    requires n.left.Ref? ==> n.left.node in model
    requires n.right.Ref? ==> n.right.node in model
    ensures (if ValueIn(model, n.left) < 0 || ValueIn(model, n.right) < 0 then -1 else 1) == Sign(EvalNode(env, n))
  {
    ValueIsEval(model, env, n.left);
    ValueIsEval(model, env, n.right);
  }

  // ---------------------------------------------------------------------------
  // Scores
  // ---------------------------------------------------------------------------

  function Max(x: real, y: real): real {
    if x > y then x else y
  }

  /** The score of a handle, or of its complement when `flip` is set. */
  ghost function ScoreAt(env: Env, a: Aig, flip: bool): real {
    match a
    case True => if flip then 0.0 else 1.0
    case False => if flip then 1.0 else 0.0
    case Ref(n, inv) => ScoreNode(env, n, inv != flip)
  }

  ghost function ScoreNode(env: Env, n: Node, inv: bool): real {
    match n
    case Var(id) => if (id in env) != inv then 1.0 else 0.0
    case And(_, l, r) =>
      if inv then Max(ScoreAt(env, l, true), ScoreAt(env, r, true))
      else (ScoreAt(env, l, false) + ScoreAt(env, r, false)) / 2.0
  }

  /** The score from scratch: an input scores its truth value, a conjunction the
      average of its children, a negated one the better of the negated children. */
  ghost function Score(env: Env, a: Aig): real {
    ScoreAt(env, a, false)
  }

  lemma ScoreOfNot(env: Env, a: Aig)
    ensures ScoreAt(env, a, true) == Score(env, Not(a))
  {
  }

  /** A score is between 0 and 1, and is 1 exactly for the true handles; a false
      input or constant scores 0. */
  lemma {:induction false} ScoreIsTruth(env: Env, a: Aig)
    ensures 0.0 <= Score(env, a) <= 1.0
    ensures !IsAnd(a) ==> Score(env, a) == if Eval(env, a) then 1.0 else 0.0
    ensures Score(env, a) == 1.0 <==> Eval(env, a)
  {
    ScoreAtIsTruth(env, a, false);
  }

  lemma {:induction false} ScoreAtIsTruth(env: Env, a: Aig, flip: bool)
    ensures 0.0 <= ScoreAt(env, a, flip) <= 1.0
    ensures ScoreAt(env, a, flip) == 1.0 <==> Eval(env, a) != flip
    decreases a
  {
    if IsAnd(a) {
      var l, r := a.node.left, a.node.right;
      EvalAnd(env, a);
      ScoreAtIsTruth(env, l, a.inverted != flip);
      ScoreAtIsTruth(env, r, a.inverted != flip);
    }
  }

  /** The guard against rounding never fires over the reals. */
  function AndScore(sleft: real, sright: real): real {
    var res := (sleft + sright) / 2.0;
    if res == 1.0 && (sleft < 1.0 || sright < 1.0) then (if sleft < sright then sleft else sright) else res
  }

  /** The score of a conjunction is the average of its children's scores, and
      that is what the guarded computation gives. */
  lemma AndScoreIsAverage(env: Env, n: Node)
    requires n.And?
    ensures Score(env, Ref(n, false)) == (Score(env, n.left) + Score(env, n.right)) / 2.0
    ensures AndScore(Score(env, n.left), Score(env, n.right)) == (Score(env, n.left) + Score(env, n.right)) / 2.0
  {
    ScoreIsTruth(env, n.left);
    ScoreIsTruth(env, n.right);
    assert ScoreAt(env, Ref(n, false), false) == ScoreNode(env, n, false);
  }

  /** The score of a negated conjunction is the larger one of the negated children's. */
  lemma NegScoreIsMax(env: Env, n: Node)
    requires n.And?
    ensures Score(env, Ref(n, true)) >= Score(env, Not(n.left)) && Score(env, Ref(n, true)) >= Score(env, Not(n.right))
    ensures Score(env, Ref(n, true)) in {Score(env, Not(n.left)), Score(env, Not(n.right))}
    ensures Max(Score(env, Not(n.left)), Score(env, Not(n.right))) == Score(env, Ref(n, true))
  {
    ScoreOfNot(env, n.left);
    ScoreOfNot(env, n.right);
    assert ScoreAt(env, Ref(n, true), false) == ScoreNode(env, n, true);
  }

  /** What the cone update reads as the score of a negated right child: for a
      constant it takes the score of the child itself, not of its complement. */
  function ConeNegRight(right: Aig, negScore: real): real {
    if IsConst(right) then (if right == True then 1.0 else 0.0) else negScore
  }

  /** The cone update's negated score is the right one exactly when the right
      child is not constant or the left child is false anyway. */
  lemma ConeNegScore(env: Env, n: Node)
    requires n.And?
    ensures Max(Score(env, Not(n.left)), ConeNegRight(n.right, Score(env, Not(n.right)))) == Score(env, Ref(n, true))
            <==> !IsConst(n.right) || !Eval(env, n.left)
  {
    NegScoreIsMax(env, n);
    ScoreIsTruth(env, Not(n.left));
    EvalNot(env, n.left);
  }

  /** A conjunction with the constant true on the right, and its left input true,
      would get the score of a true handle for its complement, which is false. */
  lemma ConeNegScoreWrong()
    ensures var n := And(3, Ref(Var(2), false), True);
            var env := iset{2};
            && !Eval(env, Ref(n, true)) && Score(env, Ref(n, true)) == 0.0
            && Max(Score(env, Not(n.left)), ConeNegRight(n.right, Score(env, Not(n.right)))) == 1.0
  {
    var n := And(3, Ref(Var(2), false), True);
    var env: Env := iset{2};
    assert ScoreNode(env, Var(2), true) == 0.0;
    assert Score(env, Not(n.left)) == 0.0 && Score(env, Not(n.right)) == 0.0;
    NegScoreIsMax(env, n);
    assert Eval(env, Ref(Var(2), false));
    assert EvalNode(env, n);
  }

  // ---------------------------------------------------------------------------
  // What one input can change
  // ---------------------------------------------------------------------------

  /** A set of nodes that contains every parent of `x` and of its own members. */
  ghost predicate UpClosed(graph: set<Node>, cone: set<Node>, x: Node) {
    forall p, c :: p in graph && c in Kids(p) && (c == x || c in cone) ==> p in cone
  }

  ghost predicate SameBut(env: Env, env': Env, i: nat) {
    forall j :: j != i ==> (j in env <==> j in env')
  }

  /** Outside the fan-out cone of an input, neither values nor scores depend on it. */
  lemma {:induction false} Unaffected(graph: set<Node>, cone: set<Node>, x: Node, env: Env, env': Env, n: Node)
    requires GraphOk(graph) && UpClosed(graph, cone, x) && x.Var? && SameBut(env, env', x.id)
    requires n in graph && n !in cone && n != x
    ensures EvalNode(env, n) == EvalNode(env', n)
    ensures forall inv :: ScoreNode(env, n, inv) == ScoreNode(env', n, inv)
    decreases n
  {
    if n.And? {
      KidsOfNode(graph, n);
      var l, r := n.left.node, n.right.node;
      assert l in Kids(n) && r in Kids(n);
      assert l !in cone && l != x && r !in cone && r != x;
      Unaffected(graph, cone, x, env, env', l);
      Unaffected(graph, cone, x, env, env', r);
      SameScores(env, env', n.left);
      SameScores(env, env', n.right);
    }
  }

  lemma SameScores(env: Env, env': Env, a: Aig)
    requires a.Ref? ==> forall inv :: ScoreNode(env, a.node, inv) == ScoreNode(env', a.node, inv)
    ensures forall flip :: ScoreAt(env, a, flip) == ScoreAt(env', a, flip)
  {
  }
}
