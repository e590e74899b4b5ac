/** Incremental update over the fan-out cone of one input: why recomputing only
    the cone, in the order of ids, gives the tables computed from scratch. */
module PropCone {
  import opened AigNodes
  import opened AigTable
  import opened PropSpec
  import opened PropTables
  import Dfs

  ghost predicate Sorted(s: seq<Node>) {
    forall i, j :: 0 <= i < j < |s| ==> s[i].id <= s[j].id
  }

  /** The conjunctions of the graph that may depend on `x`. */
  ghost predicate ConeOk(cone: seq<Node>, graph: set<Node>, x: Node) {
    && Distinct(cone) && UpClosed(graph, Elements(cone), x)
    && forall n :: n in cone ==> n in graph && n.And?
  }

  // ---------------------------------------------------------------------------
  // Collecting and sorting the cone
  // ---------------------------------------------------------------------------

  /** All parents of the visited nodes are visited or wait on the stack. */
  ghost predicate Explored(parents: map<Node, seq<Node>>, cache: set<Node>, stack: seq<Node>) {
    forall c, p :: c in cache && c in parents && p in parents[c] ==> p in cache || p in stack
  }

  /** Everything found so far is `x` or a conjunction of the graph. */
  ghost predicate Found(graph: set<Node>, s: seq<Node>, x: Node) {
    forall n :: n in s ==> n in graph && (n == x || n.And?)
  }

  /** The cone lists the visited nodes except `x`, each once. */
  ghost predicate Lists(cone: seq<Node>, cache: set<Node>, x: Node) {
    Distinct(cone) && forall n :: n in cone <==> n in cache && n != x
  }

  lemma Revisit(parents: map<Node, seq<Node>>, cache: set<Node>, stack: seq<Node>, x: Node, graph: set<Node>)
    requires Explored(parents, cache, stack) && Found(graph, stack, x) && stack != [] && stack[|stack| - 1] in cache
    ensures Explored(parents, cache, stack[..|stack| - 1]) && Found(graph, stack[..|stack| - 1], x)
  {
    Dfs.SplitTop(stack);
  }

  lemma Visit(parents: map<Node, seq<Node>>, cache: set<Node>, stack: seq<Node>, x: Node, graph: set<Node>)
    requires ParentsOk(parents, graph)
    requires Explored(parents, cache, stack) && Found(graph, stack, x) && stack != []
    ensures var cur := stack[|stack| - 1];
            && cur in parents
            && Explored(parents, cache + {cur}, stack[..|stack| - 1] + parents[cur])
            && Found(graph, stack[..|stack| - 1] + parents[cur], x)
  {
    hide Kids;
    Dfs.SplitTop(stack);
    var cur := stack[|stack| - 1];
    forall p | p in parents[cur]
      ensures p in graph && p.And?
    {
      ParentIsAnd(p, cur);
    }
  }

  lemma ParentIsAnd(p: Node, c: Node)
    ensures c in Kids(p) ==> p.And?
  {
  }

  lemma ListOne(cone: seq<Node>, cache: set<Node>, x: Node, n: Node)
    requires Lists(cone, cache, x) && n !in cache
    ensures Lists(if n == x then cone else cone + [n], cache + {n}, x)
  {
  }

  lemma ConeComplete(parents: map<Node, seq<Node>>, graph: set<Node>, cache: set<Node>, cone: seq<Node>, x: Node)
    requires ParentsOk(parents, graph) && Explored(parents, cache, []) && Lists(cone, cache, x)
    requires x in cache && x.Var? && x in graph && forall n :: n in cache ==> n in graph && (n == x || n.And?)
    ensures ConeOk(cone, graph, x)
  {
    hide Kids;
    forall p, c | p in graph && c in Kids(p) && (c == x || c in Elements(cone))
      ensures p in Elements(cone)
    {
      assert p in parents[c];
      ParentIsAnd(p, c);
    }
  }

  /** Insertion sort by id. */
  method SortById(s: seq<Node>) returns (r: seq<Node>)
    ensures Sorted(r) && multiset(r) == multiset(s)
  {
    hide Sorted, SameNodes;
    NothingSorted(s);
    r := [];
    var i := 0;
    while i < |s|
      invariant 0 <= i <= |s| && Sorted(r) && SameNodes(r, s[..i])
    {
      var k := |r|;
      while k > 0 && r[k - 1].id > s[i].id
        invariant 0 <= k <= |r| && (k < |r| ==> s[i].id < r[k].id)
      {
        k := k - 1;
      }
      InsertNext(r, k, s, i);
      r := r[..k] + [s[i]] + r[k..];
      i := i + 1;
    }
    AllInserted(r, s);
  }

  ghost predicate SameNodes(r: seq<Node>, s: seq<Node>) {
    multiset(r) == multiset(s)
  }

  lemma NothingSorted(s: seq<Node>)
    ensures Sorted([]) && SameNodes([], s[..0])
  {
  }

  lemma AllInserted(r: seq<Node>, s: seq<Node>)
    requires SameNodes(r, s[..|s|])
    ensures multiset(r) == multiset(s)
  {
    assert s[..|s|] == s;
  }

  lemma InsertNext(r: seq<Node>, k: nat, s: seq<Node>, i: nat)
    requires i < |s| && Sorted(r) && SameNodes(r, s[..i])
    requires k <= |r| && (k > 0 ==> r[k - 1].id <= s[i].id) && (k < |r| ==> s[i].id < r[k].id)
    ensures var r' := r[..k] + [s[i]] + r[k..]; Sorted(r') && SameNodes(r', s[..i + 1])
  {
    hide Sorted;
    InsertAt(r, k, s[i]);
    assert s[..i + 1] == s[..i] + [s[i]];
  }

  lemma InsertAt(r: seq<Node>, k: nat, n: Node)
    requires Sorted(r) && k <= |r| && (k > 0 ==> r[k - 1].id <= n.id) && (k < |r| ==> n.id < r[k].id)
    ensures Sorted(r[..k] + [n] + r[k..])
    ensures multiset(r[..k] + [n] + r[k..]) == multiset(r) + multiset{n}
  {
    InsertCounts(r, k, n);
    var r' := r[..k] + [n] + r[k..];
    forall i, j | 0 <= i < j < |r'|
      ensures r'[i].id <= r'[j].id
    {
      InsertPair(r, k, n, i, j);
    }
  }

  lemma InsertCounts(r: seq<Node>, k: nat, n: Node)
    requires k <= |r|
    ensures multiset(r[..k] + [n] + r[k..]) == multiset(r) + multiset{n}
  {
    assert r == r[..k] + r[k..];
  }

  lemma InsertPair(r: seq<Node>, k: nat, n: Node, i: nat, j: nat)
    requires Sorted(r) && k <= |r| && (k > 0 ==> r[k - 1].id <= n.id) && (k < |r| ==> n.id < r[k].id)
    requires i < j <= |r|
    ensures (r[..k] + [n] + r[k..])[i].id <= (r[..k] + [n] + r[k..])[j].id
  {
    hide Sorted;
    Shifted(r, k, n, i);
    Shifted(r, k, n, j);
    Ordered(r, if i < k then i else i - 1, if j < k then j else j - 1);
    Ordered(r, i, k - 1);
    Ordered(r, k, j - 1);
  }

  lemma Ordered(r: seq<Node>, i: int, j: int)
    requires Sorted(r)
    ensures 0 <= i <= j < |r| ==> r[i].id <= r[j].id
  {
  }

  lemma Shifted(r: seq<Node>, k: nat, n: Node, i: nat)
    requires k <= |r| && i <= |r|
    ensures (r[..k] + [n] + r[k..])[i] == if i < k then r[i] else if i == k then n else r[i - 1]
  {
  }

  lemma {:induction false} DistinctMultiset(s: seq<Node>, r: seq<Node>)
    requires Distinct(s) && multiset(r) == multiset(s)
    ensures Distinct(r) && forall n :: n in r <==> n in s
  {
    forall n
      ensures n in r <==> n in s
    {
      assert n in multiset(r) <==> n in multiset(s);
    }
    forall i, j | 0 <= i < j < |r|
      ensures r[i] != r[j]
    {
      if r[i] == r[j] {
        TwiceInMultiset(r, i, j);
        OnceInMultiset(s, r[i]);
        assert false;
      }
    }
  }

  lemma TwiceInMultiset(r: seq<Node>, i: nat, j: nat)
    requires i < j < |r| && r[i] == r[j]
    ensures multiset(r)[r[i]] >= 2
  {
    assert r == r[..j] + [r[j]] + r[j + 1..];
    assert r[i] in r[..j];
    assert multiset(r) == multiset(r[..j]) + multiset{r[j]} + multiset(r[j + 1..]);
  }

  lemma {:induction false} OnceInMultiset(s: seq<Node>, n: Node)
    requires Distinct(s)
    ensures multiset(s)[n] <= 1
  {
    if s != [] {
      var rest, last := s[..|s| - 1], s[|s| - 1];
      assert s == rest + [last];
      OnceInMultiset(rest, n);
      assert last !in rest;
    }
  }

  lemma SortedCone(cone: seq<Node>, sorted: seq<Node>, graph: set<Node>, x: Node)
    requires ConeOk(cone, graph, x) && multiset(sorted) == multiset(cone)
    ensures ConeOk(sorted, graph, x)
  {
    DistinctMultiset(cone, sorted);
    assert Elements(sorted) == Elements(cone);
  }

  // ---------------------------------------------------------------------------
  // Recomputing the cone
  // ---------------------------------------------------------------------------

  /** The inputs after `i` is set to `b`. */
  ghost function SetInput(env: Env, i: nat, b: bool): Env {
    if b then env + iset{i} else env - iset{i}
  }

  /** The nodes of the cone from position `i` on, which are not recomputed yet. */
  ghost function From(cone: seq<Node>, i: nat): set<Node> {
    set j | i <= j < |cone| :: cone[j]
  }

  /** Nodes in `pending` still have their old values, all others the new ones. */
  ghost predicate Mixed(model: map<Node, int>, graph: set<Node>, env0: Env, env1: Env, pending: set<Node>) {
    && model.Keys == graph
    && forall n :: n in graph ==> model[n] == Sign(EvalNode(if n in pending then env0 else env1, n))
  }

  ghost predicate ScoreMixed(score: map<Aig, real>, graph: set<Node>, env0: Env, env1: Env, pending: set<Node>) {
    && (forall a :: a in score <==> a.Ref? && a.node in graph)
    && (forall a :: a in score ==> score[a] == Score(if a.node in pending then env0 else env1, a))
  }

  lemma FromStep(cone: seq<Node>, graph: set<Node>, x: Node, i: nat)
    requires ConeOk(cone, graph, x) && Sorted(cone) && i < |cone| && GraphOk(graph)
    ensures var n := cone[i];
            && n in graph && n.And? && From(cone, i) == From(cone, i + 1) + {n} && n !in From(cone, i + 1)
            && n.left.Ref? && n.right.Ref? && n.left.node in graph && n.right.node in graph
            && n.left.node !in From(cone, i) && n.right.node !in From(cone, i)
  {
    var n := cone[i];
    assert n in cone;
    KidsOfNode(graph, n);
  }

  lemma FromEnds(cone: seq<Node>)
    ensures From(cone, 0) == Elements(cone) && From(cone, |cone|) == {}
  {
    forall n | n in Elements(cone)
      ensures n in From(cone, 0)
    {
      var j :| 0 <= j < |cone| && cone[j] == n;
    }
  }

  /** Setting the input leaves exactly the cone to be recomputed. */
  lemma SetInputMixed(model: map<Node, int>, graph: set<Node>, cone: seq<Node>, x: Node, b: bool)
    requires GraphOk(graph) && ModelFull(model, graph) && x in graph && x.Var? && ConeOk(cone, graph, x)
    ensures var env1 := SetInput(EnvOf(model), x.id, b);
            && Mixed(model[x := Sign(b)], graph, EnvOf(model), env1, Elements(cone))
            && forall i :: i in env1 ==> Var(i) in graph
  {
    hide GraphOk, UpClosed, Kids;
    var env0 := EnvOf(model);
    var env1 := SetInput(env0, x.id, b);
    var model' := model[x := Sign(b)];
    assert x == Var(x.id);
    forall n | n in graph
      ensures model'[n] == Sign(EvalNode(if n in Elements(cone) then env0 else env1, n))
    {
      if n !in Elements(cone) && n != x {
        Unaffected(graph, Elements(cone), x, env0, env1, n);
      }
    }
  }

  lemma SetInputScores(score: map<Aig, real>, graph: set<Node>, env0: Env, cone: seq<Node>, x: Node, b: bool)
    requires GraphOk(graph) && ScoresFull(score, env0, graph) && x in graph && x.Var? && ConeOk(cone, graph, x)
    ensures var env1 := SetInput(env0, x.id, b);
            var s := if b then 1.0 else 0.0;
            ScoreMixed(score[Ref(x, false) := s][Ref(x, true) := 1.0 - s], graph, env0, env1, Elements(cone))
  {
    hide GraphOk, UpClosed, Kids, ScoreNode;
    var env1 := SetInput(env0, x.id, b);
    var s := if b then 1.0 else 0.0;
    var score' := score[Ref(x, false) := s][Ref(x, true) := 1.0 - s];
    forall a | a in score'
      ensures score'[a] == Score(if a.node in Elements(cone) then env0 else env1, a)
    {
      if a.node == x {
        InputScoreIs(env1, x);
        assert x !in Elements(cone);
        assert a == Ref(x, a.inverted);
      } else if a.node !in Elements(cone) {
        Unaffected(graph, Elements(cone), x, env0, env1, a.node);
        assert ScoreAt(env0, a, false) == ScoreNode(env0, a.node, a.inverted);
        assert ScoreAt(env1, a, false) == ScoreNode(env1, a.node, a.inverted);
      }
    }
  }

  lemma InputScoreIs(env: Env, x: Node)
    requires x.Var?
    ensures Score(env, Ref(x, false)) == if x.id in env then 1.0 else 0.0
    ensures Score(env, Ref(x, true)) == if x.id in env then 0.0 else 1.0
  {
    assert ScoreAt(env, Ref(x, false), false) == ScoreNode(env, x, false);
    assert ScoreAt(env, Ref(x, true), false) == ScoreNode(env, x, true);
  }

  /** Recomputing the next node of the cone from its children. */
  lemma StepModel(model: map<Node, int>, graph: set<Node>, env0: Env, env1: Env, cone: seq<Node>, x: Node, i: nat)
    requires Mixed(model, graph, env0, env1, From(cone, i))
    requires ConeOk(cone, graph, x) && Sorted(cone) && i < |cone| && GraphOk(graph)
    ensures var n := cone[i];
            && n in model && n.And? && n.left.Ref? && n.right.Ref? && n.left.node in model && n.right.node in model
            && model[n] in {-1, 1}
            && var v := if ValueIn(model, n.left) < 0 || ValueIn(model, n.right) < 0 then -1 else 1;
               Mixed(model[n := v], graph, env0, env1, From(cone, i + 1))
  {
    hide GraphOk, ConeOk, From;
    FromStep(cone, graph, x, i);
    var n := cone[i];
    assert ValueIn(model, n.left) == Sign(Eval(env1, n.left));
    assert ValueIn(model, n.right) == Sign(Eval(env1, n.right));
  }

  lemma StepScore(score: map<Aig, real>, graph: set<Node>, env0: Env, env1: Env, cone: seq<Node>, x: Node, i: nat)
    requires ScoreMixed(score, graph, env0, env1, From(cone, i))
    requires ConeOk(cone, graph, x) && Sorted(cone) && i < |cone| && GraphOk(graph)
    ensures var n := cone[i];
            && n.And? && n.left.Ref? && n.right.Ref?
            && n.left in score && n.right in score && Not(n.left) in score && Not(n.right) in score
            && ScoreMixed(score[Ref(n, false) := AndScore(score[n.left], score[n.right])]
                               [Ref(n, true) := Max(score[Not(n.left)], score[Not(n.right)])],
                          graph, env0, env1, From(cone, i + 1))
  {
    hide GraphOk, ConeOk, From, Score, AndScore, Max;
    FromStep(cone, graph, x, i);
    var n := cone[i];
    AndScoreIsAverage(env1, n);
    NegScoreIsMax(env1, n);
  }

  /** After the last node, model and scores are those from scratch. */
  lemma AllRecomputed(model: map<Node, int>, score: map<Aig, real>, graph: set<Node>, env0: Env, env1: Env)
    requires Mixed(model, graph, env0, env1, {}) && ScoreMixed(score, graph, env0, env1, {})
    requires forall i :: i in env1 ==> Var(i) in graph
    ensures EnvOf(model) == env1 && ModelFull(model, graph) && ScoresFull(score, env1, graph)
  {
    hide Score;
    assert forall i: nat :: Var(i) in graph ==> model[Var(i)] == Sign(i in env1);
    assert EnvOf(model) == env1;
  }

  lemma StartCone(parents: map<Node, seq<Node>>, graph: set<Node>, x: Node)
    requires x in graph
    ensures Explored(parents, {}, [x]) && Found(graph, [x], x) && Lists([], {}, x)
  {
  }

  lemma FoundTop(graph: set<Node>, stack: seq<Node>, x: Node)
    requires Found(graph, stack, x) && stack != []
    ensures stack[|stack| - 1] in graph && (stack[|stack| - 1] == x || stack[|stack| - 1].And?)
  {
  }

  lemma SameElements(s: seq<Node>, r: seq<Node>)
    requires multiset(r) == multiset(s)
    ensures Elements(r) == Elements(s)
  {
    forall n
      ensures n in r <==> n in s
    {
      assert n in multiset(r) <==> n in multiset(s);
    }
  }
}
