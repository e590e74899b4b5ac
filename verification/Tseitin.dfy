/** The Tseitin encoder: turns AIG nodes into CNF variables and clauses. */
module Tseitin {
  import opened AigNodes
  import opened AigTable
  import opened AigManager
  import opened Cnf
  import opened EdgeBounds
  import opened Gates
  import opened Regions
  import opened Walks
  import Dfs

  /** All references to the node were seen during the traversal. */
  predicate OnlyLocal(refs: map<Node, nat>, local: map<Node, nat>, n: Node) {
    n in refs && refs[n] <= MarkOf(local, n)
  }

  /** The ids after the marked nodes that are not in `rest` were treated: exactly
      those with only local references lost their ids, except `start`. */
  ghost predicate Forgot(ids0: map<Node, nat>, ids: map<Node, nat>, treated: set<Node>, refs: map<Node, nat>,
                         local: map<Node, nat>, start: Node, restore: bool) {
    && (forall n :: n in ids ==> n in ids0 && ids[n] == ids0[n])
    && (forall n :: n in ids0 ==> (n !in ids <==> n in treated && n != start && !restore && OnlyLocal(refs, local, n)))
  }

  lemma ForgotNone(ids: map<Node, nat>, refs: map<Node, nat>, local: map<Node, nat>, start: Node, restore: bool)
    ensures Forgot(ids, ids, {}, refs, local, start, restore)
  {
  }

  lemma ForgetOne(ids0: map<Node, nat>, ids: map<Node, nat>, treated: set<Node>, refs: map<Node, nat>,
                  local: map<Node, nat>, start: Node, restore: bool, n: Node)
    requires Forgot(ids0, ids, treated, refs, local, start, restore) && n !in treated
    ensures var drop := n != start && !restore && OnlyLocal(refs, local, n);
            Forgot(ids0, if drop then ids - {n} else ids, treated + {n}, refs, local, start, restore)
  {
  }

  lemma DropId(owner: seq<Aig>, ids: map<Node, nat>, n: Node)
    requires IdsOk(owner, ids) && n.And?
    ensures IdsOk(owner, ids - {n})
  {
  }

  /** Variables, clauses and ids only grow, and new ids belong to nodes of the
      graph and are fresh. */
  ghost predicate Grew(owner0: seq<Aig>, clauses0: seq<Clause>, ids0: map<Node, nat>,
                       owner: seq<Aig>, clauses: seq<Clause>, ids: map<Node, nat>, graph: set<Node>) {
    && owner0 <= owner && clauses0 <= clauses
    && (forall n :: n in ids0 ==> n in ids && ids[n] == ids0[n])
    && (forall n :: n in ids && n !in ids0 ==> n in graph && ids[n] >= |owner0|)
    && (forall v :: |owner0| <= v < |owner| ==> owner[v].Ref? && owner[v].node in ids)
  }

  lemma GrewRefl(owner: seq<Aig>, clauses: seq<Clause>, ids: map<Node, nat>, graph: set<Node>)
    ensures Grew(owner, clauses, ids, owner, clauses, ids, graph)
  {
  }

  /** What is left after forgetting, in terms of the state before the call. */
  lemma AfterForget(j: Job, owner0: seq<Aig>, clauses0: seq<Clause>, owner: seq<Aig>, clauses: seq<Clause>,
                    ids1: map<Node, nat>, ids: map<Node, nat>, marked: seq<Node>, local: map<Node, nat>, restore: bool)
    requires Encodable(j.refs, j.start)
    requires Grew(owner0, clauses0, j.ids, owner, clauses, ids1, Region(j.refs, j.ids, j.start))
    requires Forgot(ids1, ids, Elements(marked), j.refs, local, j.start, restore)
    requires j.start in ids1 && forall n :: n in ids1 <==> n in j.ids || n in Region(j.refs, j.ids, j.start)
    requires forall n :: n in marked <==> n in Gated(j.refs, j.ids, j.start)
    requires forall n :: n in marked ==> n in j.refs && MarkOf(local, n) == Visits(j.refs, j.ids, j.start, n)
    ensures owner0 <= owner && clauses0 <= clauses && j.start in ids
    ensures forall n :: n in j.ids ==> n in ids && ids[n] == j.ids[n]
    ensures forall n :: n in ids && n !in j.ids ==> Below(n, j.start) && ids[n] >= |owner0|
    ensures forall n :: n in ids <==> n in j.ids || Gains(j.refs, j.ids, j.start, restore, n)
    ensures forall v :: |owner0| <= v < |owner| ==>
              && owner[v].Ref?
              && (owner[v].node !in ids ==> owner[v].node.And? && owner[v].node != j.start && !restore)
  {
    hide Below, Encodable, Region, Visits;
    forall n | n in ids && n !in j.ids
      ensures Below(n, j.start)
    {
      RegionFacts(j.refs, j.ids, j.start, n);
    }
    forall n
      ensures n in ids <==> n in j.ids || Gains(j.refs, j.ids, j.start, restore, n)
    {
      if n in Region(j.refs, j.ids, j.start) && n !in j.ids {
        RegionFacts(j.refs, j.ids, j.start, n);
      }
    }
  }

  /** A node that somebody holds is referenced more often than it is visited. */
  lemma HandlesKept(j: Job, ids1: map<Node, nat>, ids: map<Node, nat>, marked: seq<Node>, local: map<Node, nat>,
                    restore: bool, t: seq<Aig>, handles: multiset<Node>)
    requires Encodable(j.refs, j.start) && Counters(t, j.refs, handles) && Distinct(marked)
    requires Forgot(ids1, ids, Elements(marked), j.refs, local, j.start, restore)
    requires forall n :: n in Region(j.refs, j.ids, j.start) ==> n in ids1
    requires forall n :: n in marked <==> n in Gated(j.refs, j.ids, j.start)
    requires forall n :: n in marked ==> MarkOf(local, n) == Visits(j.refs, j.ids, j.start, n)
    ensures forall n :: n in Region(j.refs, j.ids, j.start) && n in handles ==> n in ids
  {
    hide Encodable, Region, Gated, Uses, Counters;
    assert Elements(marked) == Gated(j.refs, j.ids, j.start);
    forall n | n in Region(j.refs, j.ids, j.start) && n in handles
      ensures n in ids
    {
      if n in marked && n != j.start {
        RegionFacts(j.refs, j.ids, j.start, n);
        VisitsBound(t, j.refs, handles, j.ids, j.start, marked, n);
        PushedIsUses(j.refs, marked, n);
      }
    }
  }

  lemma GrewStep(owner0: seq<Aig>, clauses0: seq<Clause>, ids0: map<Node, nat>,
                 owner: seq<Aig>, clauses: seq<Clause>, ids: map<Node, nat>, graph: set<Node>,
                 n: Node, clauses': seq<Clause>)
    requires Grew(owner0, clauses0, ids0, owner, clauses, ids, graph)
    requires n in graph && n !in ids && clauses <= clauses'
    ensures Grew(owner0, clauses0, ids0, owner + [Ref(n, false)], clauses', ids[n := |owner|], graph)
  {
  }

  // ---------------------------------------------------------------------------
  // The encoder
  // ---------------------------------------------------------------------------

  class Encoder {
    /** The solver can undo a release of an id, so ids are never released. */
    const haveRestore: bool

    /** The fields `cnf_id`, `mark` and `local` of every node. */
    var cnfId: map<Node, nat>
    var mark: map<Node, nat>
    var local: map<Node, nat>
    /** The largest variable handed out by the solver. */
    var maxVar: nat
    var clauses: seq<Clause>

    /** The node every variable was allocated for, also after its id is forgotten. */
    ghost var owner: seq<Aig>
    /** The roots asserted so far. */
    ghost var roots: seq<Aig>

    /** The emitted clauses describe exactly the nodes that own variables and
        assert exactly the roots; `cnfId` names current owners. */
    ghost predicate Exact()
      reads `owner, `maxVar, `cnfId, `clauses, `roots
    {
      && OwnerOk(owner) && |owner| == maxVar + 1
      && IdsOk(owner, cnfId) && CnfExact(owner, clauses, roots)
    }

    /** Between calls, all marks and local counters are reset. */
    ghost predicate Valid()
      reads this
    {
      Exact() && AllZero(mark) && AllZero(local)
    }

    constructor (haveRestore: bool)
      ensures Valid() && this.haveRestore == haveRestore
      ensures cnfId == map[] && roots == [] && owner == [False, True] && clauses == [[1]] && maxVar == 1
    {
      this.haveRestore := haveRestore;
      cnfId, mark, local := map[], map[], map[];
      maxVar, clauses := 1, [[1]];
      owner, roots := [False, True], [];
      new;
      TrueClause();
    }

    lemma TrueClause()
      ensures CnfExact([False, True], [[1]], [])
    {
      forall alpha, env
        ensures ExactAt(alpha, env, [False, True], [[1]], [])
      {
        Clause1(alpha, 1);
        var cs: seq<Clause> := [[1]];
        assert Sat(alpha, cs) <==> ClauseTrue(alpha, cs[0]);
        assert Eval(env, True);
      }
    }

    lemma SizeOf()
      requires Exact()
      ensures |owner| == maxVar + 1
    {
    }

    /** A fresh variable for an input. */
    method EncodeInput(n: Node)
      requires Exact() && n.Var? && n !in cnfId
      modifies `cnfId, `maxVar, `owner
      ensures Exact() && owner == old(owner) + [Ref(n, false)]
      ensures maxVar == old(maxVar) + 1 && cnfId == old(cnfId)[n := maxVar]
    {
      hide OwnerOk, IdsOk, CnfExact;
      AddInput(owner, cnfId, clauses, roots, n);
      maxVar := maxVar + 1;
      cnfId := cnfId[n := maxVar];
      owner := owner + [Ref(n, false)];
    }

    /** A fresh variable for a conjunction, and the clauses of its shape. */
    method EncodeGate(n: Node, s: Shape)
      requires Exact() && n.And? && n !in cnfId && LeafsEncoded(cnfId, s)
      requires forall env :: Eval(env, Ref(n, false)) == ShapeEval(env, s)
      modifies `cnfId, `maxVar, `owner, `clauses
      ensures Exact() && owner == old(owner) + [Ref(n, false)]
      ensures maxVar == old(maxVar) + 1 && cnfId == old(cnfId)[n := maxVar]
      ensures old(clauses) <= clauses && |clauses| == old(|clauses|) + if s.AndShape? then 3 else 4
    {
      hide OwnerOk, IdsOk, CnfExact, ShapeEval, LeafsEncoded, XorClauses, IteClauses, AndClauses, LitOf;
      var x := maxVar + 1;
      var block;
      match s {
        case XorShape(a, b) => block := XorClauses(x, LitOf(cnfId, a), LitOf(cnfId, b));
        case IteShape(e, t, c) => block := IteClauses(x, LitOf(cnfId, e), LitOf(cnfId, t), LitOf(cnfId, c));
        case AndShape(l, r) => block := AndClauses(x, LitOf(cnfId, l), LitOf(cnfId, r));
      }
      AddGate(owner, cnfId, clauses, roots, n, block, s);
      maxVar := x;
      cnfId := cnfId[n := x];
      clauses := clauses + block;
      owner := owner + [Ref(n, false)];
    }

    /** Encodes `start` and whatever its encoding needs, with an explicit stack.
        Returns the conjunctions it marked, and leaves in `local` how often it
        came to each of them. */
    method Traverse(m: AigMgr, start: Node) returns (marked: seq<Node>)
      requires Valid() && m.Valid() && start in m.refs && Extractable(m.refs, start)
      modifies this
      ensures Exact() && start in cnfId && roots == old(roots)
      ensures Grew(old(owner), old(clauses), old(cnfId), owner, clauses, cnfId, Region(m.refs, old(cnfId), start))
      ensures forall n :: n in cnfId <==> n in old(cnfId) || n in Region(m.refs, old(cnfId), start)
      ensures MarkedOk(marked, mark, old(cnfId)) && LocalOk(local, marked)
      ensures forall n :: n in marked <==> n in Gated(m.refs, old(cnfId), start)
      ensures forall n :: n in marked ==>
                n in m.refs && MarkOf(local, n) == Visits(m.refs, old(cnfId), start, n) <= m.refs[n]
      ensures maxVar == old(maxVar) + |Fresh(m.refs, old(cnfId), start)|
      ensures |clauses| == old(|clauses|) + ClauseCount(m.refs, Gated(m.refs, old(cnfId), start))
    {
      hide AigMgr.Valid, Extractable, Exact, Graph, KidsOf, Below, ShapeOf, ShapeEval, Region, Visits, Gated, Encodable,
           MarkedOk, AllZero, Recognizable, Grew, LocalOk, LeafNodes, NoConstLeaf, LeafsEncoded, WalkOk, Counters,
           SizeOk, ClauseCount, Fresh;
      StoreFacts(m, start);
      ghost var j := Job(m.refs, cnfId, start);
      ghost var region := Region(m.refs, cnfId, start);
      ghost var todo, pos: map<Node, nat> := Graph(m.refs, start).Keys, map[];
      var stack := [start];
      marked := [];
      StartWalk(j, mark, local);
      GrewRefl(owner, clauses, cnfId, region);
      StartSize(m.refs, cnfId);
      while stack != []
        invariant Exact() && WalkOk(j, Walk(stack, mark, local, cnfId, marked, pos, todo)) && roots == old(roots)
        invariant Grew(old(owner), old(clauses), old(cnfId), owner, clauses, cnfId, region)
        invariant SizeOk(m.refs, j.ids, cnfId, maxVar - old(maxVar), |clauses| - old(|clauses|))
        decreases todo, pos.Keys, |stack|
      {
        ghost var w := Walk(stack, mark, local, cnfId, marked, pos, todo);
        var root := stack[|stack| - 1];
        TopFacts(j, w);
        if MarkOf(mark, root) == 2 {
          SeenAgain(j, w, m.id2aig, m.handles);
          assert MarkOf(local, root) < m.refs[root];
          stack := stack[..|stack| - 1];
          local := local[root := MarkOf(local, root) + 1];
        } else if root in cnfId {
          Skip(j, w);
          stack := stack[..|stack| - 1];
        } else if root.Var? {
          FinishInput(j, w, maxVar + 1);
          InputSize(m.refs, j.ids, cnfId, maxVar - old(maxVar), |clauses| - old(|clauses|), root, maxVar + 1);
          GrewStep(old(owner), old(clauses), old(cnfId), owner, clauses, cnfId, region, root, clauses);
          SizeOf();
          stack := stack[..|stack| - 1];
          EncodeInput(root);
        } else {
          NodeFacts(m.refs, root);
          var shape := ShapeOf(m.refs, root);
          if MarkOf(mark, root) == 0 {
            OpenNode(j, w);
            mark := mark[root := 1];
            local := local[root := 1];
            marked := marked + [root];
            pos, todo := pos[root := |stack| - 1], todo - {root};
            stack := stack + LeafNodes(shape);
          } else {
            CloseNode(j, w, maxVar + 1);
            GateSize(m.refs, j.ids, cnfId, maxVar - old(maxVar), |clauses| - old(|clauses|), root, maxVar + 1);
            GateOk(m.refs, root, cnfId);
            ghost var (owner1, clauses1) := (owner, clauses);
            SizeOf();
            stack := stack[..|stack| - 1];
            mark := mark[root := 2];
            EncodeGate(root, shape);
            GrewStep(old(owner), old(clauses), old(cnfId), owner1, clauses1, w.ids, region, root, clauses);
            pos := pos - {root};
          }
        }
      }
      EndWalk(j, Walk(stack, mark, local, cnfId, marked, pos, todo));
      VisitsWithin(j, Walk(stack, mark, local, cnfId, marked, pos, todo), m.id2aig, m.handles);
      EndSize(j, cnfId, maxVar - old(maxVar), |clauses| - old(|clauses|));
    }

    /** What a valid store offers to a traversal. */
    lemma StoreFacts(m: AigMgr, start: Node)
      requires m.Valid() && start in m.refs && Extractable(m.refs, start)
      ensures Encodable(m.refs, start) && Counters(m.id2aig, m.refs, m.handles)
    {
      hide Extractable;
    }

    /** The literal of a handle in the current numbering; 0 if it has none. */
    function GetCnfId(a: Aig): int
      reads this
    {
      LitOf(cnfId, a)
    }

    /** Resets the marks, and forgets the id of every marked conjunction whose
        references were all seen during the traversal. */
    method Forget(m: AigMgr, start: Node, marked: seq<Node>)
      requires Exact() && MarkedOk(marked, mark, map[]) && LocalOk(local, marked)
      requires forall n :: n in marked ==> n in m.refs && MarkOf(local, n) <= m.refs[n]
      modifies `mark, `local, `cnfId
      ensures Valid()
      ensures Forgot(old(cnfId), cnfId, Elements(marked), m.refs, old(local), start, haveRestore)
    {
      hide OwnerOk, CnfExact, IdsOk, MarkedOk, LocalOk, AllZero, Forgot;
      var rest := marked;
      ghost var treated: set<Node> := {};
      ForgotNone(cnfId, m.refs, local, start, haveRestore);
      while rest != []
        invariant Exact() && MarkedOk(rest, mark, map[]) && LocalOk(local, rest)
        invariant forall n :: n in marked <==> n in rest || n in treated
        invariant forall n :: n in treated ==> n !in rest
        invariant forall n :: n in rest ==> MarkOf(local, n) == MarkOf(old(local), n)
        invariant Forgot(old(cnfId), cnfId, treated, m.refs, old(local), start, haveRestore)
        decreases |rest|
      {
        var cur := rest[|rest| - 1];
        PopMarked(rest, mark);
        PopCount(rest, local);
        rest := rest[..|rest| - 1];
        mark := mark[cur := 0];
        var seen := MarkOf(local, cur);
        local := local[cur := 0];
        assert m.refs[cur] >= seen;
        ForgetOne(old(cnfId), cnfId, treated, m.refs, old(local), start, haveRestore, cur);
        treated := treated + {cur};
        if cur != start && m.refs[cur] <= seen && !haveRestore {
          DropId(owner, cnfId, cur);
          cnfId := cnfId - {cur};
        }
      }
      assert treated == Elements(marked);
      NoCounts(mark, local);
    }

    /** Makes sure that `start` has a CNF id and that its variable is defined by
        the emitted clauses.  Existing ids keep their meaning; which nodes have
        gained an id depends on the state before the call only. */
    method ToSatTseitin(m: AigMgr, start: Aig)
      requires Valid() && m.Valid() && m.Live(start)
      requires start.Ref? ==> Extractable(m.refs, start.node)
      modifies this
      ensures Valid() && roots == old(roots)
      ensures old(owner) <= owner && old(clauses) <= clauses
      ensures start.Ref? ==> start.node in cnfId
      ensures !start.Ref? ==> owner == old(owner) && clauses == old(clauses) && cnfId == old(cnfId)
      ensures start.Ref? ==> forall n ::
                n in cnfId <==> n in old(cnfId) || Gains(m.refs, old(cnfId), start.node, haveRestore, n)
      ensures start.Ref? ==> maxVar == old(maxVar) + |Fresh(m.refs, old(cnfId), start.node)|
      ensures start.Ref? ==>
                |clauses| == old(|clauses|) + ClauseCount(m.refs, Gated(m.refs, old(cnfId), start.node))
      ensures start.Ref? ==> forall n :: n in Region(m.refs, old(cnfId), start.node) && n in m.handles ==> n in cnfId
      ensures forall n :: n in old(cnfId) ==> n in cnfId && cnfId[n] == old(cnfId)[n]
      ensures forall n :: n in cnfId && n !in old(cnfId) ==>
                start.Ref? && Below(n, start.node) && cnfId[n] >= |old(owner)|
      ensures forall v :: |old(owner)| <= v < |owner| ==>
                && start.Ref? && owner[v].Ref?
                && (owner[v].node !in cnfId ==> owner[v].node.And? && owner[v].node != start.node && !haveRestore)
    {
      hide OwnerOk, IdsOk, CnfExact, Below, Extractable, AigMgr.Valid, MarkedOk, LocalOk, AllZero, Forgot, Grew,
           Region, Visits, Gated, Encodable, Counters, Fresh, ClauseCount;
      if start.Ref? {
        StoreFacts(m, start.node);
        var marked := Traverse(m, start.node);
        MarkedAnds(marked, mark, old(cnfId));
        MarkedDistinct(marked, mark, old(cnfId));
        ghost var ids1, local1 := cnfId, local;
        Forget(m, start.node, marked);
        ghost var j := Job(m.refs, old(cnfId), start.node);
        AfterForget(j, old(owner), old(clauses), owner, clauses, ids1, cnfId, marked, local1, haveRestore);
        HandlesKept(j, ids1, cnfId, marked, local1, haveRestore, m.id2aig, m.handles);
      }
    }

    /** Asserts that the root is true. */
    method AddToplevel(m: AigMgr, root: Aig)
      requires Valid() && m.Valid() && m.Live(root)
      requires root.Ref? ==> Extractable(m.refs, root.node)
      modifies this
      ensures Valid() && roots == old(roots) + [root]
      ensures old(owner) <= owner && old(clauses) <= clauses
      ensures forall n :: n in cnfId <==>
                n in old(cnfId) || (root.Ref? && Gains(m.refs, old(cnfId), root.node, haveRestore, n))
      ensures |clauses| == old(|clauses|) + (if root == True then 0 else 1)
                           + if root.Ref? then ClauseCount(m.refs, Gated(m.refs, old(cnfId), root.node)) else 0
      ensures maxVar == old(maxVar) + if root.Ref? then |Fresh(m.refs, old(cnfId), root.node)| else 0
      ensures forall n :: n in old(cnfId) ==> n in cnfId && cnfId[n] == old(cnfId)[n]
    {
      hide OwnerOk, IdsOk, CnfExact, Below, Extractable, AigMgr.Valid, Gains, Fresh, ClauseCount, Gated;
      var block: seq<Clause> := [];
      if root == False {
        block := [[]];
      } else if root != True {
        ToSatTseitin(m, root);
        block := [[GetCnfId(root)]];
      }
      AddRoot(owner, cnfId, clauses, roots, root, block);
      clauses := clauses + block;
      roots := roots + [root];
    }

    // -------------------------------------------------------------------------
    // What the emitted clauses mean, after any sequence of calls
    // -------------------------------------------------------------------------

    /** As long as no root is asserted, every assignment of the input variables
        extends to exactly one satisfying assignment of all allocated variables,
        the evaluation of their nodes. */
    lemma ExtendsUniquely(inputs: Model)
      requires Exact() && roots == []
      ensures var env := InputsOf(inputs, owner);
              && Sat(ModelOf(env, owner), clauses) && SameInputs(ModelOf(env, owner), inputs, owner)
              && forall beta :: Sat(beta, clauses) && SameInputs(beta, inputs, owner) ==> Matches(beta, env, owner)
    {
      IdsInjective(owner, cnfId);
      UniqueExtension(owner, clauses, inputs);
    }

    /** In every satisfying assignment, the literal of each handle that has one
        is the value of the handle under the assignment's inputs. */
    lemma LiteralIsValue(alpha: Model, a: Aig)
      requires Exact() && Sat(alpha, clauses) && (a.Ref? ==> a.node in cnfId)
      ensures GetCnfId(a) != 0
      ensures LitTrue(alpha, GetCnfId(a)) == Eval(InputsOf(alpha, owner), a)
    {
      hide Sat, LitTrue, Eval;
      var env := InputsOf(alpha, owner);
      IdsInjective(owner, cnfId);
      InputsOfAgrees(alpha, owner);
      assert ExactAt(alpha, env, owner, clauses, roots);
      LitMeaning(alpha, env, owner, cnfId, a);
    }

    /** The clauses are satisfiable exactly when some inputs make all asserted
        roots true, and every satisfying assignment contains such inputs. */
    lemma SatisfiableIffRoots()
      requires Exact()
      ensures (exists alpha :: Sat(alpha, clauses)) <==> (exists env :: RootsTrue(env, roots))
      ensures forall alpha :: Sat(alpha, clauses) ==> RootsTrue(InputsOf(alpha, owner), roots)
    {
      IdsInjective(owner, cnfId);
      SatIffRoots(owner, clauses, roots);
    }
  }
}
