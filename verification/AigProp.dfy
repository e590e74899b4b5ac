/** Propagation-based local search on AIGs. */
module AigProp {
  import opened AigNodes
  import opened PropSpec
  import opened PropTables
  import opened PropCone
  import opened PropRuns
  import Dfs

  /** The three results of a search. */
  datatype Verdict = Satisfiable | Unsatisfiable | Unknown

  class AigProp {
    /** BTOR_OPT_AIGPROP_USE_RESTARTS. */
    const useRestarts: bool

    /** All tables are keyed by nodes and handles in place of their ids. */
    var roots: set<Aig>
    var unsatroots: set<Aig>
    var score: map<Aig, real>
    var model: map<Node, int>
    var parents: map<Node, seq<Node>>
    var restarts: nat
    var moves: nat

    constructor (useRestarts: bool)
      ensures this.useRestarts == useRestarts
    {
      this.useRestarts := useRestarts;
      roots, unsatroots, score, model, parents := {}, {}, map[], map[], map[];
      restarts, moves := 0, 0;
    }

    function GetAssignment(a: Aig): int
      requires a.Ref? ==> a.node in model
      reads `model
    {
      ValueIn(model, a)
    }

    // -------------------------------------------------------------------------
    // Parents
    // -------------------------------------------------------------------------

    /** The nodes of the roots that are not constant, in any order. */
    method CollectRoots() returns (stack: seq<Node>)
      ensures forall r :: r in roots && r.Ref? ==> r.node in stack
      ensures forall n :: n in stack ==> exists r :: r in roots && r.Ref? && r.node == n
    {
      stack := [];
      var todo := roots;
      while todo != {}
        invariant todo <= roots
        invariant forall r :: r in roots && r !in todo && r.Ref? ==> r.node in stack
        invariant forall n :: n in stack ==> exists r :: r in roots && r.Ref? && r.node == n
      {
        var r :| r in todo;
        todo := todo - {r};
        if !IsConst(r) {
          stack := stack + [r.node];
        }
      }
    }

    /** Computes the parents of every node below the roots. */
    method ComputeParents()
      requires RootsWf(roots)
      modifies `parents
      ensures ParentsOk(parents, Reach(roots))
    {
      hide GraphOk, KidsMap, Kids, Reach, Wf, ParentsUpTo, DownClosed, Dfs.DfsOk, Dfs.KidsOk, Dfs.Covered, RootsWf;
      ghost var graph := Reach(roots);
      ReachOk(roots);
      KidsMapOk(graph);
      ghost var kids := KidsMap(graph);
      var stack := CollectRoots();
      ghost var list := stack;
      var cache: map<Node, bool> := map[];
      ghost var pos: map<Node, nat>, done: set<Node>, todo := map[], {}, graph;
      parents := map[];
      Dfs.Start(stack, done, kids);
      StartParents(list);
      while stack != []
        invariant Dfs.DfsOk(stack, pos, done, kids) && Dfs.Covered(list, stack, done) && DownClosed(done)
        invariant forall n :: n in done <==> n in cache && cache[n]
        invariant forall n :: n in pos <==> n in cache && !cache[n]
        invariant parents.Keys == cache.Keys <= graph && ParentsUpTo(parents, done)
        invariant forall n :: n in todo <==> n in graph && n !in cache
        decreases todo, |stack|
      {
        var stack0 := stack;
        var cur := stack[|stack| - 1];
        Dfs.InGraph(stack, pos, done, kids, |stack| - 1);
        KidsOfNode(graph, cur);
        stack := stack[..|stack| - 1];
        if cur in cache && cache[cur] {
          Dfs.PopDone(stack0, pos, done, kids);
          Dfs.CoveredPop(list, stack0, done, done);
        } else if cur !in cache {
          EntryAdded(parents, done, cur);
          Dfs.Open(stack0, pos, done, kids);
          Dfs.CoveredPush(list, stack0, done, kids[cur]);
          cache := cache[cur := false];
          parents := parents[cur := []];
          stack := stack0 + Kids(cur);
          pos, todo := pos[cur := |stack0| - 1], todo - {cur};
        } else {
          Dfs.Close(stack0, pos, done, kids);
          Dfs.CoveredPop(list, stack0, done, done + {cur});
          DownAdded(done, cur);
          cache := cache[cur := true];
          if cur.And? {
            ChildrenIn(graph, done, cur);
            ParentAdded(parents, done, cur);
            parents := parents[cur.left.node := parents[cur.left.node] + [cur]];
            parents := parents[cur.right.node := parents[cur.right.node] + [cur]];
          } else {
            LeafAdded(parents, done, cur);
          }
          done, pos := done + {cur}, pos - {cur};
        }
      }
      Dfs.NoneOpen(stack, pos, done, kids);
      Dfs.CoveredAll(list, done);
      AllDone(roots, done);
      assert done == graph;
      AllParents(parents, done);
    }

    // -------------------------------------------------------------------------
    // Assignments
    // -------------------------------------------------------------------------

    /** Extends the model to everything below `a`; new inputs become false. */
    method RecursivelyComputeAssignment(a: Aig)
      requires RootsWf(roots) && ModelOk(model, Reach(roots)) && (a.Ref? ==> a.node in Reach(roots))
      modifies `model
      ensures ModelOk(model, Reach(roots)) && (a.Ref? ==> a.node in model)
      ensures old(model.Keys) <= model.Keys && EnvOf(model) == EnvOf(old(model))
    {
      hide GraphOk, KidsMap, Kids, Reach, Wf, EvalNode, ModelOk, EnvOf, Dfs.DfsOk, Dfs.KidsOk, Dfs.Covered, RootsWf,
           Sign, ValueIn;
      if IsConst(a) {
        return;
      }
      ghost var graph := Reach(roots);
      ReachOk(roots);
      KidsMapOk(graph);
      ghost var kids := KidsMap(graph);
      var stack := [a.node];
      var cache: set<Node> := {};
      ghost var pos: map<Node, nat>, todo := map[], graph;
      Dfs.Start(stack, model.Keys, kids);
      Dfs.CoveredStart(stack, model.Keys);
      while stack != []
        invariant ModelOk(model, graph) && EnvOf(model) == EnvOf(old(model)) && old(model.Keys) <= model.Keys
        invariant Dfs.DfsOk(stack, pos, model.Keys, kids) && Dfs.Covered([a.node], stack, model.Keys)
        invariant forall n :: n in pos <==> n in cache && n !in model
        invariant forall n :: n in cache ==> n.And?
        invariant forall n :: n in todo <==> n in graph && n !in cache
        decreases todo, |stack|
      {
        var stack0 := stack;
        var cur := stack[|stack| - 1];
        Dfs.InGraph(stack, pos, model.Keys, kids, |stack| - 1);
        KidsOfNode(graph, cur);
        stack := stack[..|stack| - 1];
        if cur in model {
          Dfs.PopDone(stack0, pos, model.Keys, kids);
          Dfs.CoveredPop([a.node], stack0, model.Keys, model.Keys);
        } else if cur.Var? {
          assert model[cur := -1].Keys == model.Keys + {cur};
          Dfs.Pop(stack0, pos, model.Keys, kids, model[cur := -1].Keys);
          Dfs.CoveredPop([a.node], stack0, model.Keys, model[cur := -1].Keys);
          AssignInput(model, graph, cur);
          model := model[cur := -1];
        } else if cur !in cache {
          ghost var (l, r) := (cur.left.node, cur.right.node);
          var more := [];
          if !IsConst(cur.left) && cur.left.node !in cache {
            more := more + [cur.left.node];
          }
          if !IsConst(cur.right) && cur.right.node !in cache {
            more := more + [cur.right.node];
          }
          assert kids[cur] == [l, r] && l in kids[cur] && r in kids[cur];
          Dfs.ChildNotOpen(stack0, pos, model.Keys, kids, l);
          Dfs.ChildNotOpen(stack0, pos, model.Keys, kids, r);
          Dfs.OpenSome(stack0, pos, model.Keys, kids, more);
          Dfs.CoveredPush([a.node], stack0, model.Keys, more);
          cache := cache + {cur};
          stack := stack0 + more;
          pos, todo := pos[cur := |stack0| - 1], todo - {cur};
        } else {
          Dfs.Close(stack0, pos, model.Keys, kids);
          ChildrenIn(graph, model.Keys, cur);
          var aleft := GetAssignment(cur.left);
          var aright := GetAssignment(cur.right);
          var v := if aleft < 0 || aright < 0 then -1 else 1;
          ModelEvaluates(model, graph);
          AndValue(model, EnvOf(model), cur);
          assert model[cur := v].Keys == model.Keys + {cur};
          Dfs.CoveredPop([a.node], stack0, model.Keys, model[cur := v].Keys);
          AssignAnd(model, graph, cur, v);
          model := model[cur := v];
          pos := pos - {cur};
        }
      }
      Dfs.CoveredAll([a.node], model.Keys);
      assert a.node in [a.node];
    }

    /** Assigns everything below the roots.  After a reset all inputs are false. */
    method GenerateModel(reset: bool)
      requires RootsWf(roots) && (!reset ==> ModelOk(model, Reach(roots)))
      modifies `model
      ensures ModelFull(model, Reach(roots))
      ensures EnvOf(model) == if reset then iset{} else EnvOf(old(model))
    {
      hide Reach, ModelOk, EnvOf, RootsWf;
      if reset {
        model := map[];
        EmptyModel(Reach(roots));
      }
      ghost var env := EnvOf(model);
      ReachOk(roots);
      var todo := roots;
      while todo != {}
        invariant todo <= roots && ModelOk(model, Reach(roots)) && EnvOf(model) == env
        invariant forall r :: r in roots && r !in todo && r.Ref? ==> r.node in model
      {
        var r :| r in todo;
        todo := todo - {r};
        RecursivelyComputeAssignment(r);
      }
      FullModel(model, roots);
    }

    // -------------------------------------------------------------------------
    // Scores
    // -------------------------------------------------------------------------

    /** Scores a handle whose children are scored: an input by its value, a
        conjunction by its children. */
    method StoreScores(cur: Node)
      requires ModelFull(model, Reach(roots)) && GraphOk(Reach(roots)) && cur in Reach(roots)
      requires ScoresOk(score, EnvOf(model), Reach(roots)) && Ref(cur, false) !in score
      requires forall k :: k in Kids(cur) ==> Ref(k, false) in score
      modifies `score
      ensures ScoresOk(score, EnvOf(model), Reach(roots))
      ensures forall n :: Ref(n, false) in score <==> Ref(n, false) in old(score) || n == cur
    {
      hide ScoresOk, Reach, GraphOk, EnvOf, Kids, Score, EvalNode, AndScore, Max;
      ghost var env, graph := EnvOf(model), Reach(roots);
      var pos, neg;
      if cur.Var? {
        var res := if GetAssignment(Ref(cur, false)) < 0 then 0.0 else 1.0;
        InputScore(model, cur);
        pos, neg := res, if res == 0.0 then 1.0 else 0.0;
      } else {
        var left, right := cur.left, cur.right;
        ChildScores(score, env, graph, cur);
        var sleft := if IsConst(left) then (if left == True then 1.0 else 0.0) else score[left];
        var sright := if IsConst(right) then (if right == True then 1.0 else 0.0) else score[right];
        pos := AndScore(sleft, sright);
        AndScoreIsAverage(env, cur);
        sleft := if IsConst(left) then (if left == True then 0.0 else 1.0) else score[Not(left)];
        sright := if IsConst(right) then (if right == True then 0.0 else 1.0) else score[Not(right)];
        neg := Max(sleft, sright);
        NegScoreIsMax(env, cur);
      }
      ScoreAdded(score, env, graph, cur, pos, neg);
      score := score[Ref(cur, false) := pos][Ref(cur, true) := neg];
    }

    /** Scores `a` and everything below it. */
    method ComputeScoreAig(a: Node)
      requires ModelFull(model, Reach(roots)) && GraphOk(Reach(roots)) && a in Reach(roots)
      requires ScoresOk(score, EnvOf(model), Reach(roots))
      modifies `score
      ensures ScoresOk(score, EnvOf(model), Reach(roots)) && Ref(a, false) in score
      ensures forall n :: Ref(n, false) in old(score) ==> Ref(n, false) in score
    {
      hide GraphOk, KidsMap, Kids, Reach, Wf, Evaluates, EnvOf, ScoresOk, ModelFull, Score, Dfs.DfsOk, Dfs.KidsOk,
           Dfs.Covered;
      ghost var graph := Reach(roots);
      KidsMapOk(graph);
      ghost var kids := KidsMap(graph);
      var stack := [a];
      var mark: map<Node, bool> := map[];
      ghost var pos: map<Node, nat>, todo, done := map[], graph, Scored(score, graph);
      Dfs.Start(stack, done, kids);
      Dfs.CoveredStart(stack, done);
      while stack != []
        invariant ScoresOk(score, EnvOf(model), graph)
        invariant forall n :: Ref(n, false) in old(score) ==> Ref(n, false) in score
        invariant forall n :: n in done <==> n in graph && Ref(n, false) in score
        invariant Dfs.DfsOk(stack, pos, done, kids) && Dfs.Covered([a], stack, done)
        invariant forall n :: n in pos <==> n in mark && !mark[n]
        invariant forall n :: n in mark && mark[n] ==> n in done
        invariant forall n :: n in todo <==> n in graph && n !in mark
        decreases todo, |stack|
      {
        var stack0 := stack;
        var cur := stack[|stack| - 1];
        Dfs.InGraph(stack, pos, done, kids, |stack| - 1);
        KidsOfNode(graph, cur);
        stack := stack[..|stack| - 1];
        if Ref(cur, false) in score || (cur in mark && mark[cur]) {
          Dfs.PopDone(stack0, pos, done, kids);
          Dfs.CoveredPop([a], stack0, done, done);
        } else if cur !in mark {
          Dfs.Open(stack0, pos, done, kids);
          Dfs.CoveredPush([a], stack0, done, kids[cur]);
          mark := mark[cur := false];
          stack := stack0 + Kids(cur);
          pos, todo := pos[cur := |stack0| - 1], todo - {cur};
        } else {
          Dfs.Close(stack0, pos, done, kids);
          Dfs.CoveredPop([a], stack0, done, done + {cur});
          mark := mark[cur := true];
          StoreScores(cur);
          done, pos := done + {cur}, pos - {cur};
        }
      }
      Dfs.CoveredAll([a], done);
      assert a in [a];
    }

    /** Scores everything below the roots. */
    method ComputeScores()
      requires RootsWf(roots) && ModelFull(model, Reach(roots))
      requires ScoresOk(score, EnvOf(model), Reach(roots))
      modifies `score
      ensures ScoresFull(score, EnvOf(model), Reach(roots))
    {
      hide GraphOk, Kids, Reach, Wf, Evaluates, EnvOf, ScoresOk, ModelFull, ScoresFull, Dfs.Covered, RootsWf;
      ghost var graph := Reach(roots);
      ReachOk(roots);
      var stack := CollectRoots();
      ghost var list, todo := stack, graph;
      var cache: set<Node> := {};
      Dfs.CoveredStart(stack, Scored(score, graph));
      while stack != []
        invariant ScoresOk(score, EnvOf(model), graph) && Dfs.Covered(list, stack, Scored(score, graph))
        invariant forall n :: n in stack ==> n in graph
        invariant forall n :: n in todo <==> n in graph && n !in cache
        decreases todo, |stack|
      {
        var stack0 := stack;
        ghost var done := Scored(score, graph);
        var cur := stack[|stack| - 1];
        stack := stack[..|stack| - 1];
        if Ref(cur, false) in score {
          Dfs.CoveredPop(list, stack0, done, done);
        } else if cur !in cache {
          cache := cache + {cur};
          var more := [];
          if cur.And? {
            KidsOfNode(graph, cur);
            if !IsConst(cur.left) && cur.left.node !in cache {
              more := more + [cur.left.node];
            }
            if !IsConst(cur.right) && cur.right.node !in cache {
              more := more + [cur.right.node];
            }
          }
          Dfs.CoveredPush(list, stack0, done, more);
          stack := stack0 + more;
          todo := todo - {cur};
        } else {
          ComputeScoreAig(cur);
          Dfs.CoveredPop(list, stack0, done, Scored(score, graph));
        }
      }
      Dfs.CoveredAll(list, Scored(score, graph));
      AllScored(score, EnvOf(model), roots);
    }

    // -------------------------------------------------------------------------
    // Moves
    // -------------------------------------------------------------------------

    /** The invariant between moves: every table is what a computation from
        scratch would give for the current inputs. */
    ghost predicate Searching()
      reads `roots, `unsatroots, `score, `model, `parents
    {
      var graph := Reach(roots);
      && RootsWf(roots) && NoClash(roots) && ParentsOk(parents, graph)
      && ModelFull(model, graph) && ScoresFull(score, EnvOf(model), graph) && UnsatOk(unsatroots, roots, model)
    }

    /** Adjusts the falsified roots to a new value of a root's node. */
    method UpdateUnsatroots(n: Node, assignment: int)
      requires UnsatOk(unsatroots, roots, model) && NoClash(roots)
      requires n in model && model[n] == -assignment && assignment in {-1, 1}
      requires Ref(n, false) in roots || Ref(n, true) in roots
      modifies `unsatroots
      ensures UnsatOk(unsatroots, roots, model[n := assignment])
    {
      hide NoClash;
      NoClashAt(roots, n);
      if Ref(n, false) in unsatroots {
        unsatroots := unsatroots - {Ref(n, false)};
      } else if Ref(n, true) in unsatroots {
        unsatroots := unsatroots - {Ref(n, true)};
      } else if assignment == -1 {
        unsatroots := unsatroots + {Ref(n, false)};
      } else {
        unsatroots := unsatroots + {Ref(n, true)};
      }
    }

    /** Stores a new value for a node and keeps the falsified roots up to date. */
    method Assign(n: Node, assignment: int)
      requires UnsatOk(unsatroots, roots, model) && NoClash(roots)
      requires n in model && model[n] in {-1, 1} && assignment in {-1, 1}
      modifies `unsatroots, `model
      ensures UnsatOk(unsatroots, roots, model) && model == old(model)[n := assignment]
    {
      hide UnsatOk, NoClash;
      if model[n] != assignment && (Ref(n, false) in roots || Ref(n, true) in roots) {
        UpdateUnsatroots(n, assignment);
      } else {
        SameUnsat(unsatroots, roots, model, n, assignment);
      }
      model := model[n := assignment];
    }

    /** The conjunctions that may depend on `x`, found through the parents. */
    method CollectCone(x: Node) returns (cone: seq<Node>)
      requires RootsWf(roots) && ParentsOk(parents, Reach(roots)) && x in Reach(roots) && x.Var?
      ensures ConeOk(cone, Reach(roots), x)
    {
      hide Reach, ParentsOk, Explored, Found, Lists, RootsWf;
      ghost var graph := Reach(roots);
      cone := [];
      var cache: set<Node>, stack := {}, [x];
      ghost var todo := graph;
      StartCone(parents, graph, x);
      while stack != []
        modifies {}
        invariant Explored(parents, cache, stack) && Found(graph, stack, x) && Lists(cone, cache, x)
        invariant x in cache || x in stack
        invariant forall n :: n in cache ==> n in graph && (n == x || n.And?)
        invariant forall n :: n in todo <==> n in graph && n !in cache
        decreases todo, |stack|
      {
        var cur := stack[|stack| - 1];
        Dfs.SplitTop(stack);
        FoundTop(graph, stack, x);
        if cur in cache {
          Revisit(parents, cache, stack, x, graph);
          stack := stack[..|stack| - 1];
        } else {
          Visit(parents, cache, stack, x, graph);
          ListOne(cone, cache, x, cur);
          cache := cache + {cur};
          if cur != x {
            cone := cone + [cur];
          }
          stack := stack[..|stack| - 1] + parents[cur];
          todo := todo - {cur};
        }
      }
      ConeComplete(parents, graph, cache, cone, x);
    }

    /** Gives input `x` a new value and updates the model, the falsified roots
        and the scores of its fan-out cone. */
    method UpdateCone(x: Node, assignment: int)
      requires Searching() && x in Reach(roots) && x.Var? && assignment in {-1, 1}
      modifies `unsatroots, `model, `score
      ensures Searching()
      ensures EnvOf(model) == SetInput(EnvOf(old(model)), x.id, assignment == 1)
    {
      hide Reach, ParentsOk, RootsWf, NoClash, UnsatOk, ConeOk, Sorted, EvalNode, Score, From, EnvOf, AndScore, Max,
           Mixed, ScoreMixed, ModelFull, ScoresFull, GraphOk, ValueIn;
      ghost var graph, env0 := Reach(roots), EnvOf(model);
      ghost var env1 := SetInput(env0, x.id, assignment == 1);
      ReachOk(roots);
      var cone := CollectCone(x);
      FullValues(model, graph);
      FullScores(score, env0, graph);
      SetInputMixed(model, graph, cone, x, assignment == 1);
      SetInputScores(score, graph, env0, cone, x, assignment == 1);
      Assign(x, assignment);
      score := score[Ref(x, false) := if assignment < 0 then 0.0 else 1.0];
      score := score[Ref(x, true) := if assignment < 0 then 1.0 else 0.0];
      ghost var cone0 := cone;
      cone := SortById(cone);
      SortedCone(cone0, cone, graph, x);
      SameElements(cone0, cone);
      FromEnds(cone);
      var i := 0;
      while i < |cone|
        invariant 0 <= i <= |cone|
        invariant Mixed(model, graph, env0, env1, From(cone, i)) && UnsatOk(unsatroots, roots, model)
        modifies `model, `unsatroots
      {
        var cur := cone[i];
        StepModel(model, graph, env0, env1, cone, x, i);
        var aleft := GetAssignment(cur.left);
        var aright := GetAssignment(cur.right);
        var ass := if aleft < 0 || aright < 0 then -1 else 1;
        Assign(cur, ass);
        i := i + 1;
      }
      i := 0;
      while i < |cone|
        invariant 0 <= i <= |cone|
        invariant ScoreMixed(score, graph, env0, env1, From(cone, i))
        modifies `score
      {
        var cur := cone[i];
        StepScore(score, graph, env0, env1, cone, x, i);
        var left, right := cur.left, cur.right;
        var sleft := if IsConst(left) then (if left == True then 1.0 else 0.0) else score[left];
        var sright := if IsConst(right) then (if right == True then 1.0 else 0.0) else score[right];
        var s := AndScore(sleft, sright);
        sleft := if IsConst(left) then (if left == True then 0.0 else 1.0) else score[Not(left)];
        sright := if IsConst(right) then (if right == True then 1.0 else 0.0) else score[Not(right)];
        score := score[Ref(cur, false) := s];
        score := score[Ref(cur, true) := Max(sleft, sright)];
        i := i + 1;
      }
      AllRecomputed(model, score, graph, env0, env1);
    }

    /** Any falsified root. */
    method SelectRoot() returns (root: Aig)
      requires Searching() && unsatroots != {}
      ensures root in unsatroots && root.Ref? && root.node in Reach(roots)
      ensures GetAssignment(root) == -1 && root in score && score[root] < 1.0
    {
      hide Reach, EvalNode, ScoreNode;
      root :| root in unsatroots;
      ReachOk(roots);
      ValueIsEval(model, EnvOf(model), root);
      ScoreIsTruth(EnvOf(model), root);
    }

    /** Walks from a falsified root to an input that is responsible for its value. */
    method SelectMove(root: Aig) returns (input: Node, assignment: int)
      requires Searching() && root.Ref? && root.node in Reach(roots) && GetAssignment(root) == -1
      ensures input.Var? && input in Reach(roots) && Responsible(EnvOf(model), root.node, input)
      ensures assignment in {-1, 1} && assignment == -model[input]
    {
      hide Searching, Reach, GraphOk, EvalNode, RootsWf, Responsible, PassesTo;
      ghost var env := EnvOf(model);
      ghost var graph := Reach(roots);
      SearchFacts();
      ReachOk(roots);
      var cur, asscur := root, 1;
      FullValues(model, graph);
      while cur.node.And?
        modifies {}
        invariant cur.Ref? && cur.node in graph
        invariant forall x :: Responsible(env, cur.node, x) ==> Responsible(env, root.node, x)
        invariant asscur in {-1, 1} && asscur == -GetAssignment(cur)
        decreases cur.node
      {
        KidsOfNode(graph, cur.node);
        AndOfValues(model, graph, cur.node);
        var realCur := cur.node;
        asscur := if cur.inverted then -asscur else asscur;
        var left, right := realCur.left, realCur.right;
        var aleft := GetAssignment(left);
        var aright := GetAssignment(right);
        var goRight: bool := *;
        if aleft == -1 && aright == 1 {
          goRight := false;
        } else if aleft == 1 && aright == -1 {
          goRight := true;
        }
        var assnew;
        assert asscur == 1 || (if goRight then aleft else aright) == 1;
        if asscur == 1 {
          assnew := 1;
        } else if (if goRight then aleft else aright) == 1 {
          assnew := -1;
        } else {
          var b: bool := *;
          assnew := if b then 1 else -1;
        }
        cur := if goRight then right else left;
        asscur := assnew;
        ChildValue(model, env, realCur, cur);
        ResponsibleStep(env, realCur, cur);
      }
      input := cur.node;
      SelfResponsible(env, input);
      assignment := if cur.inverted then -asscur else asscur;
    }

    /** One move: it flips exactly one input, responsible for a falsified root. */
    method Move()
      requires Searching() && unsatroots != {}
      modifies `unsatroots, `model, `score, `moves
      ensures Searching() && moves == old(moves) + 1
      ensures Flips(roots, EnvOf(old(model)), EnvOf(model))
    {
      hide Searching, Reach, EvalNode, Responsible;
      var root := SelectRoot();
      var input, assignment := SelectMove(root);
      SearchFacts();
      FalsifiedRoot(unsatroots, roots, model, Reach(roots), root);
      ghost var env := EnvOf(model);
      InputValue(model, input);
      UpdateCone(input, assignment);
      assert FlipOf(roots, env, EnvOf(model), root, input);
      moves := moves + 1;
    }

    lemma SearchFacts()
      requires Searching()
      ensures RootsWf(roots) && NoClash(roots) && ModelFull(model, Reach(roots))
      ensures UnsatOk(unsatroots, roots, model) && ParentsOk(parents, Reach(roots))
    {
    }

    lemma SearchStarts()
      requires RootsWf(roots) && NoClash(roots) && ParentsOk(parents, Reach(roots)) && ModelFull(model, Reach(roots))
      requires ScoresFull(score, EnvOf(model), Reach(roots)) && UnsatOk(unsatroots, roots, model)
      ensures Searching()
    {
    }

    // -------------------------------------------------------------------------
    // The search
    // -------------------------------------------------------------------------

    /** Collects the falsified roots, or finds that the roots clash. */
    method CollectUnsatroots() returns (clash: bool)
      requires ModelFull(model, Reach(roots)) && RootsWf(roots)
      modifies `unsatroots
      ensures clash <==> !NoClash(roots)
      ensures !clash ==> UnsatOk(unsatroots, roots, model)
    {
      hide Reach, EvalNode;
      ReachOk(roots);
      unsatroots := {};
      var todo := roots;
      while todo != {}
        invariant todo <= roots
        invariant forall r :: r in unsatroots <==>
                    r in roots && r !in todo && r.Ref? && r.node in model && ValueIn(model, r) == -1
        invariant forall r :: r in roots && r !in todo && r != True ==> r != False && Not(r) !in roots
      {
        var r :| r in todo;
        todo := todo - {r};
        if r == True {
          continue;
        }
        if r == False || Not(r) in roots {
          return true;
        }
        if GetAssignment(r) == -1 {
          unsatroots := unsatroots + {r};
        }
      }
      clash := false;
    }

    lemma SomeFalse()
      requires Searching() && unsatroots != {}
      ensures !AllTrue(EnvOf(model), roots)
    {
      hide Reach, EvalNode;
      var r :| r in unsatroots;
      FalsifiedRoot(unsatroots, roots, model, Reach(roots), r);
    }

    /** Moves until no root is false, or a restart is due, or `fuel` moves were
        made.  Extends the search made so far. */
    method MoveOn(maxSteps: nat, fuel: nat, ghost start: Point, ghost run0: seq<Point>)
      returns (steps: nat, ghost run: seq<Point>)
      requires Searching() && unsatroots != {} && maxSteps == MaxSteps(restarts + 1)
      requires Leads(roots, useRestarts, run0, start, Point(EnvOf(model), restarts, 0, moves))
      modifies `unsatroots, `model, `score, `moves
      ensures Searching() && moves == old(moves) + steps && steps <= fuel
      ensures Leads(roots, useRestarts, run, start, Point(EnvOf(model), restarts, steps, moves))
      ensures unsatroots == {} || steps == fuel || (useRestarts && steps == maxSteps)
      ensures useRestarts ==> steps <= maxSteps
    {
      hide Reach, EnvOf, AllTrue, Leads, Flips, MaxSteps, Searching;
      run, steps := run0, 0;
      while !useRestarts || steps < maxSteps
        invariant Searching() && unsatroots != {}
        invariant moves == old(moves) + steps && steps <= fuel && (useRestarts ==> steps <= maxSteps)
        invariant Leads(roots, useRestarts, run, start, Point(EnvOf(model), restarts, steps, moves))
        decreases fuel - steps
      {
        if steps == fuel {
          return;
        }
        SomeFalse();
        ghost var now := Point(EnvOf(model), restarts, steps, moves);
        Move();
        steps := steps + 1;
        LeadsMove(roots, useRestarts, run, start, now, EnvOf(model));
        run := run + [Point(EnvOf(model), restarts, steps, moves)];
        if unsatroots == {} {
          return;
        }
      }
    }

    /** Searches for inputs that make all roots true; gives up after `fuel` moves.
        Also returns what the search did. */
    method Sat(rs: set<Aig>, fuel: nat) returns (result: Verdict, ghost run: seq<Point>)
      requires RootsWf(rs)
      modifies this
      ensures |run| > 0 && Last(run) == Point(EnvOf(model), restarts, Last(run).steps, moves)
      ensures Leads(rs, useRestarts, run, Point(iset{}, old(restarts), 0, old(moves)), Last(run))
      ensures result == Satisfiable <==> NoClash(rs) && AllTrue(EnvOf(model), rs)
      ensures result == Unsatisfiable <==> !NoClash(rs)
      ensures result == Unsatisfiable ==> Last(run) == run[0] && forall env :: !AllTrue(env, rs)
      ensures AllTrue(iset{}, rs) ==> result == Satisfiable && moves == old(moves)
      ensures restarts >= old(restarts) && (useRestarts || restarts == old(restarts))
      ensures moves <= old(moves) + fuel && (result == Unknown ==> moves == old(moves) + fuel)
      ensures result == Unknown && useRestarts ==> Last(run).steps < MaxSteps(restarts + 1)
    {
      hide *;
      roots, score := rs, map[];
      ComputeParents();
      GenerateModel(true);
      ghost var start, now := Point(iset{}, restarts, 0, moves), Point(iset{}, restarts, 0, moves);
      run := [start];
      LeadsStart(rs, useRestarts, start);
      var budget := fuel;
      var clash := false;
      while true
        invariant roots == rs && RootsWf(rs) && ParentsOk(parents, Reach(rs)) && ModelFull(model, Reach(rs))
        invariant score == map[] && moves + budget == old(moves) + fuel
        invariant Leads(rs, useRestarts, run, start, now) && now == Point(EnvOf(model), restarts, 0, moves)
        invariant now != start ==> NoClash(rs)
        decreases budget
      {
        clash := CollectUnsatroots();
        LeadsNowhere(rs, useRestarts, run, start, now);
        if clash {
          ClashMeaning(rs);
          return Unsatisfiable, run;
        }
        NoScores(EnvOf(model), Reach(rs));
        ComputeScores();
        if unsatroots == {} {
          NoneFalse(rs, unsatroots, model);
          return Satisfiable, run;
        }
        SearchStarts();
        var j;
        var maxSteps := MaxSteps(restarts + 1);
        j, run := MoveOn(maxSteps, budget, start, run);
        now := Point(EnvOf(model), restarts, j, moves);
        budget := budget - j;
        SearchFacts();
        LeadsNowhere(rs, useRestarts, run, start, now);
        if unsatroots == {} {
          NoneFalse(rs, unsatroots, model);
          return Satisfiable, run;
        }
        SomeFalse();
        if !useRestarts || j < maxSteps {
          return Unknown, run;
        }
        LeadsRestart(rs, useRestarts, run, start, now);
        GenerateModel(true);
        score, unsatroots := map[], {};
        restarts := restarts + 1;
        now := Point(iset{}, restarts, 0, moves);
        run := run + [now];
      }
    }
  }
}
