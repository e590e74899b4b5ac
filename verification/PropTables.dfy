/** The invariants of the local search's tables, as predicates over plain
    values, and how single steps change them. */
module PropTables {
  import opened AigNodes
  import opened PropSpec
  import Dfs

  // ---------------------------------------------------------------------------
  // Invariants
  // ---------------------------------------------------------------------------

  /** `parents` lists for every node exactly the nodes it is a child of. */
  ghost predicate ParentsOk(parents: map<Node, seq<Node>>, graph: set<Node>) {
    && parents.Keys == graph
    && forall c, p :: c in parents ==> (p in parents[c] <==> p in graph && c in Kids(p))
  }

  /** The parent lists while only the nodes in `done` were entered. */
  ghost predicate ParentsUpTo(parents: map<Node, seq<Node>>, done: set<Node>) {
    forall c, p :: c in parents ==> (p in parents[c] <==> p in done && c in Kids(p))
  }

  /** A complete model of the graph. */
  ghost predicate ModelFull(model: map<Node, int>, graph: set<Node>) {
    model.Keys == graph && Evaluates(model, EnvOf(model))
  }

  /** Stored scores come in pairs, for a node and its complement, with all
      scores below, and are the scores from scratch. */
  ghost predicate ScoresOk(score: map<Aig, real>, env: Env, graph: set<Node>) {
    && (forall a :: a in score ==> a.Ref? && a.node in graph && Not(a) in score && score[a] == Score(env, a))
    && (forall a, k, inv :: a in score && k in Kids(a.node) ==> Ref(k, inv) in score)
  }

  /** Every node of the graph has its score in both polarities. */
  ghost predicate ScoresFull(score: map<Aig, real>, env: Env, graph: set<Node>) {
    && (forall a :: a in score <==> a.Ref? && a.node in graph)
    && (forall a :: a in score ==> score[a] == Score(env, a))
  }

  /** `unsatroots` are exactly the roots that are false in the model. */
  ghost predicate UnsatOk(unsatroots: set<Aig>, roots: set<Aig>, model: map<Node, int>) {
    forall r :: r in unsatroots <==> r in roots && r.Ref? && r.node in model && ValueIn(model, r) == -1
  }

  /** What the search checks before it starts to move. */
  predicate NoClash(roots: set<Aig>) {
    forall r :: r in roots ==> r != False && Not(r) !in roots
  }

  // ---------------------------------------------------------------------------
  // Small facts about the tables
  // ---------------------------------------------------------------------------

  lemma ParentAdded(parents: map<Node, seq<Node>>, done: set<Node>, p: Node)
    requires ParentsUpTo(parents, done) && p.And? && p.left.Ref? && p.right.Ref? && p !in done
    requires p.left.node in parents && p.right.node in parents
    ensures var ps1 := parents[p.left.node := parents[p.left.node] + [p]];
            ParentsUpTo(ps1[p.right.node := ps1[p.right.node] + [p]], done + {p})
  {
    var l, r := p.left.node, p.right.node;
    assert Kids(p) == [l, r];
    var ps1 := parents[l := parents[l] + [p]];
    var ps := ps1[r := ps1[r] + [p]];
    forall c, q | c in ps
      ensures q in ps[c] <==> q in done + {p} && c in Kids(q)
    {
      assert q in ps[c] <==> q in parents[c] || (q == p && (c == l || c == r));
    }
  }

  lemma LeafAdded(parents: map<Node, seq<Node>>, done: set<Node>, p: Node)
    requires ParentsUpTo(parents, done) && p.Var?
    ensures ParentsUpTo(parents, done + {p})
  {
  }

  ghost predicate DownClosed(done: set<Node>) {
    forall m, k :: m in done && k in Kids(m) ==> k in done
  }

  lemma DownAdded(done: set<Node>, n: Node)
    requires DownClosed(done) && forall k :: k in Kids(n) ==> k in done
    ensures DownClosed(done + {n})
  {
  }

  /** The value of a node of the graph, from the values of its children. */
  lemma ChildrenIn(graph: set<Node>, done: set<Node>, n: Node)
    requires GraphOk(graph) && n in graph && n.And? && forall k :: k in Kids(n) ==> k in done
    ensures n.left.Ref? && n.right.Ref? && n.left.node in done && n.right.node in done
    ensures n.left.node in graph && n.right.node in graph && n.left.node.id < n.id && n.right.node.id < n.id
  {
    KidsOfNode(graph, n);
    assert Kids(n)[0] == n.left.node && Kids(n)[1] == n.right.node;
  }

  lemma ModelEvaluates(model: map<Node, int>, graph: set<Node>)
    requires ModelOk(model, graph)
    ensures Evaluates(model, EnvOf(model))
  {
  }

  lemma EmptyModel(graph: set<Node>)
    ensures ModelOk(map[], graph) && EnvOf(map[]) == iset{}
  {
  }

  lemma FullModel(model: map<Node, int>, roots: set<Aig>)
    requires ModelOk(model, Reach(roots)) && forall r :: r in roots && r.Ref? ==> r.node in model
    ensures ModelFull(model, Reach(roots))
  {
    ReachWithin(roots, model.Keys);
  }

  ghost function Scored(score: map<Aig, real>, graph: set<Node>): set<Node> {
    set n | n in graph && Ref(n, false) in score
  }

  lemma InputScore(model: map<Node, int>, n: Node)
    requires n.Var? && n in model && Evaluates(model, EnvOf(model))
    ensures Score(EnvOf(model), Ref(n, false)) == if model[n] < 0 then 0.0 else 1.0
    ensures Score(EnvOf(model), Ref(n, true)) == if model[n] < 0 then 1.0 else 0.0
  {
    var env := EnvOf(model);
    assert ScoreAt(env, Ref(n, false), false) == ScoreNode(env, n, false);
    assert ScoreAt(env, Ref(n, true), false) == ScoreNode(env, n, true);
  }

  lemma ChildScores(score: map<Aig, real>, env: Env, graph: set<Node>, n: Node)
    requires ScoresOk(score, env, graph) && GraphOk(graph) && n in graph && n.And?
    requires forall k :: k in Kids(n) ==> Ref(k, false) in score
    ensures n.left.Ref? && n.right.Ref?
    ensures n.left in score && Not(n.left) in score && n.right in score && Not(n.right) in score
    ensures score[n.left] == Score(env, n.left) && score[Not(n.left)] == Score(env, Not(n.left))
    ensures score[n.right] == Score(env, n.right) && score[Not(n.right)] == Score(env, Not(n.right))
  {
    KidsOfNode(graph, n);
    var l, r := n.left.node, n.right.node;
    assert l in Kids(n) && r in Kids(n);
    assert Not(Ref(l, false)) == Ref(l, true) && Not(Ref(r, false)) == Ref(r, true);
  }

  lemma ScoreAdded(score: map<Aig, real>, env: Env, graph: set<Node>, n: Node, s: real, t: real)
    requires ScoresOk(score, env, graph) && n in graph && forall k :: k in Kids(n) ==> Ref(k, false) in score
    requires s == Score(env, Ref(n, false)) && t == Score(env, Ref(n, true))
    ensures ScoresOk(score[Ref(n, false) := s][Ref(n, true) := t], env, graph)
  {
    hide Score, Kids;
    assert forall k :: Ref(k, false) in score ==> Not(Ref(k, false)) == Ref(k, true) && Ref(k, true) in score;
  }

  lemma AllScored(score: map<Aig, real>, env: Env, roots: set<Aig>)
    requires ScoresOk(score, env, Reach(roots))
    requires forall r :: r in roots && r.Ref? ==> r.node in Scored(score, Reach(roots))
    ensures ScoresFull(score, env, Reach(roots))
  {
    hide Reach, Kids, Score, GraphOk;
    var graph := Reach(roots);
    var done := Scored(score, graph);
    forall m, k | m in done && k in Kids(m)
      ensures k in done
    {
      assert Ref(m, false) in score && k in Kids(Ref(m, false).node);
      assert Ref(k, false) in score;
    }
    ReachWithin(roots, done);
    BothPolarities(score, env, graph);
  }

  lemma BothPolarities(score: map<Aig, real>, env: Env, graph: set<Node>)
    requires ScoresOk(score, env, graph) && graph <= Scored(score, graph)
    ensures ScoresFull(score, env, graph)
  {
    hide Score, Kids;
    forall a: Aig | a.Ref? && a.node in graph
      ensures a in score
    {
      assert Not(Ref(a.node, false)) == Ref(a.node, true);
    }
  }

  lemma StartParents(list: seq<Node>)
    ensures DownClosed({}) && ParentsUpTo(map[], {}) && Dfs.Covered(list, list, {})
  {
  }

  lemma EntryAdded(parents: map<Node, seq<Node>>, done: set<Node>, n: Node)
    requires ParentsUpTo(parents, done) && n !in done && DownClosed(done)
    ensures ParentsUpTo(parents[n := []], done)
  {
  }

  lemma AllDone(roots: set<Aig>, done: set<Node>)
    requires DownClosed(done) && forall r :: r in roots && r.Ref? ==> r.node in done
    ensures Reach(roots) <= done
  {
    ReachWithin(roots, done);
  }

  lemma AllParents(parents: map<Node, seq<Node>>, graph: set<Node>)
    requires ParentsUpTo(parents, graph) && parents.Keys == graph
    ensures ParentsOk(parents, graph)
  {
  }

  // ---------------------------------------------------------------------------
  // The falsified roots
  // ---------------------------------------------------------------------------

  lemma NoClashAt(roots: set<Aig>, n: Node)
    requires NoClash(roots)
    ensures !(Ref(n, false) in roots && Ref(n, true) in roots)
  {
    assert Not(Ref(n, false)) == Ref(n, true);
  }

  /** A new value for a node that is no root, or an old value, changes nothing. */
  lemma SameUnsat(unsatroots: set<Aig>, roots: set<Aig>, model: map<Node, int>, n: Node, v: int)
    requires UnsatOk(unsatroots, roots, model) && n in model
    requires model[n] == v || (Ref(n, false) !in roots && Ref(n, true) !in roots)
    ensures UnsatOk(unsatroots, roots, model[n := v])
  {
    forall r | r in roots && r.Ref? && r.node == n
      ensures model[n] == v
    {
      assert r == Ref(n, r.inverted);
    }
  }

  lemma FullValues(model: map<Node, int>, graph: set<Node>)
    requires ModelFull(model, graph)
    ensures model.Keys == graph && forall n :: n in model ==> model[n] in {-1, 1}
  {
    hide EvalNode;
  }

  lemma FullScores(score: map<Aig, real>, env: Env, graph: set<Node>)
    requires ScoresFull(score, env, graph)
    ensures forall a :: a in score <==> a.Ref? && a.node in graph
  {
  }

  /** In a complete model a conjunction is true exactly when both children are. */
  lemma AndOfValues(model: map<Node, int>, graph: set<Node>, n: Node)
    requires ModelFull(model, graph) && n in graph && n.And?
    requires n.left.Ref? && n.right.Ref? && n.left.node in graph && n.right.node in graph
    ensures model[n] == if ValueIn(model, n.left) == 1 && ValueIn(model, n.right) == 1 then 1 else -1
    ensures ValueIn(model, n.left) in {-1, 1} && ValueIn(model, n.right) in {-1, 1}
  {
    ValueIsEval(model, EnvOf(model), n.left);
    ValueIsEval(model, EnvOf(model), n.right);
  }

  lemma InputValue(model: map<Node, int>, n: Node)
    requires n.Var? && n in model && model[n] in {-1, 1}
    ensures n.id in EnvOf(model) <==> model[n] == 1
  {
  }

  lemma NoScores(env: Env, graph: set<Node>)
    ensures ScoresOk(map[], env, graph)
  {
  }

  /** Without falsified roots, all roots are true. */
  lemma NoneFalse(roots: set<Aig>, unsatroots: set<Aig>, model: map<Node, int>)
    requires RootsWf(roots) && NoClash(roots) && ModelFull(model, Reach(roots)) && UnsatOk(unsatroots, roots, model)
    requires unsatroots == {}
    ensures AllTrue(EnvOf(model), roots)
  {
    hide Reach;
    ReachOk(roots);
    forall r | r in roots
      ensures Eval(EnvOf(model), r)
    {
      ValueIsEval(model, EnvOf(model), r);
    }
  }

  /** Roots that clash cannot all be true. */
  lemma ClashMeaning(roots: set<Aig>)
    requires !NoClash(roots)
    ensures forall env :: !AllTrue(env, roots)
  {
    var r :| r in roots && (r == False || Not(r) in roots);
    forall env
      ensures !AllTrue(env, roots)
    {
      EvalNot(env, r);
      assert !Eval(env, r) || !Eval(env, Not(r));
    }
  }
}
