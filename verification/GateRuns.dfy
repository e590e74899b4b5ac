/** Two runs from an empty store to clauses: an exclusive or and a conditional
    of inputs are recognized as gates, and their inner nodes get no CNF id. */
module GateRuns {
  import opened AigLaws
  import opened AigNodes
  import opened AigTable
  import opened AigManager
  import opened Cnf
  import opened EdgeBounds
  import opened Gates
  import opened Guarantee
  import opened Regions
  import opened Tseitin

  // ---------------------------------------------------------------------------
  // Two conjunctions of inputs below a third one
  // ---------------------------------------------------------------------------

  predicate OverInputs(p: Node, inputs: set<Node>) {
    && p.And? && p.left.Ref? && p.right.Ref? && p.left.node in inputs && p.right.node in inputs
    && p.left.node != p.right.node
  }

  /** `n` is the conjunction of the complements of `p` and `q`, which are
      conjunctions of these inputs. */
  predicate Halves(n: Node, p: Node, q: Node, inputs: set<Node>) {
    && n == And(n.id, Ref(p, true), Ref(q, true)) && OverInputs(p, inputs) && OverInputs(q, inputs)
    && p.id < n.id && q.id < n.id && p.id != q.id
    && (forall v :: v in inputs ==> v.Var? && v.id < n.id)
    && inputs == {p.left.node, p.right.node, q.left.node, q.right.node}
  }

  lemma BelowHalves(n: Node, p: Node, q: Node, inputs: set<Node>, x: Node)
    requires Halves(n, p, q, inputs)
    ensures Below(x, n) <==> x in {n, p, q} + inputs
  {
    assert Below(x, p) <==> x == p || x == p.left.node || x == p.right.node;
    assert Below(x, q) <==> x == q || x == q.left.node || x == q.right.node;
    assert Below(x, n) <==> x == n || Below(x, p) || Below(x, q);
  }

  /** A store that holds just the conjunction and the inputs has just the nodes
      below it, and the two halves are not shared. */
  lemma HalvesRefs(m: AigMgr, n: Node, p: Node, q: Node, inputs: set<Node>)
    requires m.Valid() && Halves(n, p, q, inputs) && m.handles == multiset(inputs) + multiset{n}
    ensures m.refs.Keys == {n, p, q} + inputs && m.refs[p] == 1 && m.refs[q] == 1
    ensures forall v :: v in m.refs && v.Var? ==> v in m.handles
  {
    hide AigMgr.Valid, EdgesOf, SumEdges, NodeEdges, Counters, Below;
    forall x
      ensures x in m.refs <==> x in {n, p, q} + inputs
    {
      m.LiveIffReachable(x);
      BelowHalves(n, p, q, inputs, x);
      BelowHeld(n, inputs, m.handles, x);
    }
    StoreCounters(m);
    HalvesCounts(m.id2aig, m.refs, m.handles, n, p, q, inputs);
  }

  lemma BelowHeld(n: Node, inputs: set<Node>, handles: multiset<Node>, x: Node)
    requires handles == multiset(inputs) + multiset{n} && forall v :: v in inputs ==> v.Var?
    ensures (exists h :: h in handles && Below(x, h)) <==> Below(x, n) || x in inputs
  {
    SelfBelow(x);
    if x in inputs {
      assert x in handles;
    }
    assert n in handles;
  }

  lemma HalvesCounts(t: seq<Aig>, refs: map<Node, nat>, handles: multiset<Node>, n: Node, p: Node, q: Node,
                     inputs: set<Node>)
    requires Counters(t, refs, handles) && Halves(n, p, q, inputs)
    requires handles == multiset(inputs) + multiset{n} && refs.Keys == {n, p, q} + inputs
    ensures refs[p] == 1 && refs[q] == 1
  {
    hide EdgesOf, SumEdges, NodeEdges, TableOk, Halves;
    HalvesStored(t, refs.Keys, n, p, q, inputs);
    SumAll(t, [p, q, n]);
    HalvesEdges(n, p, q, inputs);
    HalvesNotHeld(n, p, q, inputs);
  }

  lemma HalvesNotHeld(n: Node, p: Node, q: Node, inputs: set<Node>)
    requires Halves(n, p, q, inputs)
    ensures p !in multiset(inputs) + multiset{n} && q !in multiset(inputs) + multiset{n}
  {
  }

  lemma HalvesEdges(n: Node, p: Node, q: Node, inputs: set<Node>)
    requires Halves(n, p, q, inputs)
    ensures SumEdges([p, q, n])[p] == 1 && SumEdges([p, q, n])[q] == 1
  {
    hide SumEdges, NodeEdges;
    SumTwo(p, q);
    SumSnoc([p, q], n);
    assert [p, q, n] == [p, q] + [n];
    EdgePair(p);
    EdgePair(q);
    EdgePair(n);
  }

  lemma HalvesStored(t: seq<Aig>, live: set<Node>, n: Node, p: Node, q: Node, inputs: set<Node>)
    requires TableOk(t, live) && Halves(n, p, q, inputs) && live == {n, p, q} + inputs
    ensures var ps := [p, q, n];
            Distinct(ps) && Stored(t, ps)
            && forall i :: 0 <= i < |t| && IsAnd(t[i]) ==> t[i].node in ps && t[i].node.id == i
  {
    hide Closed, Wf;
    var ps := [p, q, n];
    assert ps[0] == p && ps[1] == q && ps[2] == n;
    forall i | 0 <= i < |t| && IsAnd(t[i])
      ensures t[i].node in ps && t[i].node.id == i
    {
      assert t[i].node in live;
    }
  }

  // ---------------------------------------------------------------------------
  // What the constructors build
  // ---------------------------------------------------------------------------

  /** An input, or its complement. */
  predicate IsInputOf(a: Aig, inputs: set<Node>) {
    a.Ref? && a.node in inputs && a.node.Var?
  }

  /** A conjunction of two different inputs that is not there yet is stored as it is. */
  lemma InputsResult(live: set<Node>, sorted: bool, l: Aig, r: Aig, id: nat, res: Aig)
    requires l.Ref? && r.Ref? && l.node.Var? && r.node.Var? && l.node.id < r.node.id
    requires Conjoins(live, sorted, l, r, id, res) && forall n :: n in live ==> !HasOperands(n, l, r)
    ensures res == Ref(And(id, l, r), false)
  {
    hide TwoLevel, Contradictory;
    NoRuleIffUnrelated(l, r);
    NoPositives(l, r);
  }

  /** So is a conjunction of complements of two new conjunctions of inputs. */
  lemma ComplementsResult(live: set<Node>, sorted: bool, p: Node, q: Node, id: nat, res: Aig)
    requires p.And? && q.And? && p.id < q.id && Conjoins(live, sorted, Ref(p, true), Ref(q, true), id, res)
    requires forall x :: x in live && x.And? ==> x.left.Ref? && x.left.node.Var?
    requires p.left.Ref? && p.right.Ref? && q.left.Ref? && q.right.Ref?
    requires p.left.node.Var? && p.right.node.Var? && q.left.node.Var? && q.right.node.Var?
    requires forall a :: HasChild(Ref(p, true), a) ==> !HasChild(Ref(q, true), a)
    ensures res == Ref(And(id, Ref(p, true), Ref(q, true)), false)
  {
    hide TwoLevel, Contradictory;
    var l, r := Ref(p, true), Ref(q, true);
    NotResolving(p, q);
    assert Unrelated(l, r);
    NoRuleIffUnrelated(l, r);
    NoPositives(l, r);
    forall x
      ensures !IsConjNode(sorted, x, l, r) || x !in live
      ensures IsXorPair(l, r) ==> !IsXorNode(live, sorted, l, r, x)
    {
    }
  }

  lemma NotResolving(p: Node, q: Node)
    requires p.And? && q.And? && forall a :: HasChild(Ref(p, true), a) ==> !HasChild(Ref(q, true), a)
    ensures !FoundResolving(p, q)
  {
    forall c, d
      ensures !(IsPair(p, c, d) && IsPair(q, c, Not(d)))
    {
      if IsPair(p, c, d) {
        assert HasChild(Ref(p, true), c);
      }
    }
  }

  /** What three calls build on a store that has the inputs only. */
  lemma HalvesBuilt(inputs: set<Node>, sorted: bool, l1: Aig, r1: Aig, l2: Aig, r2: Aig, res: Aig)
      returns (n: Node, p: Node, q: Node)
    requires ThreeAnds(inputs, sorted, l1, r1, l2, r2, res) && forall v :: v in inputs ==> v.Var?
    requires IsInputOf(l1, inputs) && IsInputOf(r1, inputs) && l1.node.id < r1.node.id
    requires IsInputOf(l2, inputs) && IsInputOf(r2, inputs) && l2.node.id < r2.node.id
    requires inputs == {l1.node, r1.node, l2.node, r2.node}
    requires l1 != l2 && l1 != r2 && r1 != l2 && r1 != r2
    ensures Halves(n, p, q, inputs) && res == Ref(n, false)
    ensures HasOperands(p, l1, r1) && HasOperands(q, l2, r2)
  {
    hide AndResult;
    var pa, qa, i, j, k :|
      && Conjoins(inputs, sorted, l1, r1, i, pa)
      && Conjoins(With(inputs, pa), sorted, l2, r2, j, qa)
      && Conjoins(With(With(inputs, pa), qa), sorted, Not(pa), Not(qa), k, res);
    InputsResult(inputs, sorted, l1, r1, i, pa);
    InputsResult(With(inputs, pa), sorted, l2, r2, j, qa);
    n, p, q := And(k, Not(pa), Not(qa)), And(i, l1, r1), And(j, l2, r2);
    ComplementsResult(With(With(inputs, pa), qa), sorted, p, q, k, res);
  }

  // ---------------------------------------------------------------------------
  // What a first call of the encoder does
  // ---------------------------------------------------------------------------

  /** The gate's clauses mention exactly the inputs. */
  lemma HalvesKids(refs: map<Node, nat>, n: Node, p: Node, q: Node, inputs: set<Node>)
    requires Halves(n, p, q, inputs) && refs.Keys == {n, p, q} + inputs && refs[p] == 1 && refs[q] == 1
    requires OppositeChildren(n.left, n.right)
    ensures Recognizable(refs, n) && !IsPlain(refs, n)
    ensures forall k :: k in KidsOf(refs, n) <==> k in inputs
  {
    hide ShapeOf, IsPlain, Inspected;
    HalvesInspected(refs, n, p, q, inputs);
    ShapeIff(refs, n);
    PlainShape(refs, n);
    match ShapeOf(refs, n)
    case AndShape(_, _) =>
    case XorShape(a, b) => assert a.Ref? && b.Ref? && KidsOf(refs, n) == [a.node, b.node];
    case IteShape(e, t, c) => assert e.Ref? && t.Ref? && c.Ref? && KidsOf(refs, n) == [e.node, t.node, c.node];
  }

  lemma HalvesInspected(refs: map<Node, nat>, n: Node, p: Node, q: Node, inputs: set<Node>)
    requires Halves(n, p, q, inputs) && refs.Keys == {n, p, q} + inputs && refs[p] == 1 && refs[q] == 1
    ensures Inspected(refs, n) && Recognizable(refs, n)
  {
  }

  lemma PlainShape(refs: map<Node, nat>, n: Node)
    requires n.And? && Recognizable(refs, n)
    ensures IsPlain(refs, n) <==> ShapeOf(refs, n).AndShape?
  {
  }

  lemma HalvesRegion(refs: map<Node, nat>, n: Node, p: Node, q: Node, inputs: set<Node>)
    requires Halves(n, p, q, inputs) && Recognizable(refs, n) && !IsPlain(refs, n)
    requires forall k :: k in KidsOf(refs, n) <==> k in inputs
    ensures Region(refs, map[], n) == {n} + inputs && Gated(refs, map[], n) == {n}
    ensures Fresh(refs, map[], n) == {n} + inputs
    ensures ClauseCount(refs, {n}) == 4
  {
    hide KidsOf, IsPlain, Recognizable, Region;
    forall x
      ensures x in Region(refs, map[], n) <==> x in {n} + inputs
    {
      RegionUnfold(refs, map[], n, x);
      forall k | k in inputs
        ensures x in Region(refs, map[], k) <==> x == k
      {
        InputRegion(refs, k, x);
      }
    }
    assert Recognized(refs, {n}) == {n};
  }

  lemma InputRegion(refs: map<Node, nat>, v: Node, x: Node)
    requires v.Var?
    ensures x in Region(refs, map[], v) <==> x == v
  {
    RegionUnfold(refs, map[], v, x);
  }

  /** Encodes the conjunction with a new encoder: one gate, one variable for it
      and one for each input, and ids for no other node. */
  method EncodeHalves(m: AigMgr, a: Aig, haveRestore: bool, ghost p: Node, ghost q: Node, ghost inputs: set<Node>)
      returns (e: Encoder)
    requires m.Valid() && a.Ref? && Halves(a.node, p, q, inputs) && OppositeChildren(a.node.left, a.node.right)
    requires m.handles == multiset(inputs) + multiset{a.node}
    ensures e.Valid() && e.haveRestore == haveRestore && forall x :: x in e.cnfId <==> x in {a.node} + inputs
    ensures e.maxVar == 2 + |inputs| && |e.clauses| == 5
    ensures m.Live(a) && p in m.refs && q in m.refs && Below(p, a.node) && Below(q, a.node) && !Promise(e.cnfId)
  {
    hide AigMgr.Valid, Encoder.Valid, Region, Gated, Fresh, ClauseCount, Visits, Extractable, Below, KidsOf,
         Recognizable, IsPlain, OppositeChildren;
    ghost var n := a.node;
    HalvesRefs(m, n, p, q, inputs);
    HalvesKids(m.refs, n, p, q, inputs);
    HalvesRegion(m.refs, n, p, q, inputs);
    HeldInputs(m, n);
    e := new Encoder(haveRestore);
    e.ToSatTseitin(m, a);
    BelowHalves(n, p, q, inputs, p);
    BelowHalves(n, p, q, inputs, q);
    assert |{n} + inputs| == 1 + |inputs|;
  }

  // ---------------------------------------------------------------------------
  // The runs
  // ---------------------------------------------------------------------------

  /** A store with two or three inputs. */
  method BuildInputs(sortAig: bool, three: bool) returns (m: AigMgr)
    ensures fresh(m) && fresh(m.inputs) && m.Valid() && m.sortAig == sortAig
    ensures m.refs.Keys == {Var(2), Var(3)} + if three then {Var(4)} else {}
    ensures m.handles == multiset(m.refs.Keys)
  {
    hide AigMgr.Valid;
    m := new AigMgr(sortAig, true);
    var x := m.NewVar();
    var y := m.NewVar();
    if three {
      var z := m.NewVar();
      assert m.refs.Keys == {Var(2), Var(3), Var(4)};
    } else {
      assert m.refs.Keys == {Var(2), Var(3)};
    }
  }

  lemma InputHeld(handles: multiset<Node>, inputs: set<Node>, a: Aig)
    requires handles == multiset(inputs) && a.Ref? && a.node in inputs
    ensures H(a) <= handles
  {
  }

  lemma HOfRef(a: Aig)
    requires a.Ref?
    ensures H(a) == multiset{a.node}
  {
  }

  /** Builds an equivalence of two inputs and encodes it: four clauses, and no
      ids for the inner nodes. */
  method InnerNodeWithoutId(sortAig: bool, haveRestore: bool)
      returns (m: AigMgr, e: Encoder, a: Aig, ghost p: Node, ghost q: Node)
    ensures m.Valid() && e.Valid() && e.haveRestore == haveRestore && m.Live(a) && a.Ref? && a.node in e.cnfId
    ensures IsEquiv(a, Ref(Var(2), false), Ref(Var(3), false))
    ensures p in m.refs && q in m.refs && p != q && Below(p, a.node) && Below(q, a.node)
    ensures p !in e.cnfId && q !in e.cnfId && !Promise(e.cnfId)
    ensures e.maxVar == 4 && |e.clauses| == 5
  {
    hide AigMgr.Valid, Encoder.Valid, ThreeAnds, Below, IsEquiv, H, OppositeChildren;
    m := BuildInputs(sortAig, false);
    var x, y := Ref(Var(2), false), Ref(Var(3), false);
    ghost var inputs := m.refs.Keys;
    InputHeld(m.handles, inputs, x);
    InputHeld(m.handles, inputs, y);
    a := m.Eq(x, y);
    ghost var n;
    n, p, q := HalvesBuilt(inputs, sortAig, x, Not(y), Not(x), y, a);
    HOfRef(a);
    OppositeAt(n.left, n.right);
    e := EncodeHalves(m, a, haveRestore, p, q, inputs);
  }

  lemma OppositeAt(l: Aig, r: Aig)
    requires IsAnd(l) && IsAnd(r) && l.node.right == Not(r.node.right)
    ensures OppositeChildren(l, r)
  {
  }

  /** Builds a conditional of three inputs and encodes it: four clauses, and no
      ids for the inner nodes. */
  method ConditionalInCnf(sortAig: bool, haveRestore: bool)
      returns (m: AigMgr, e: Encoder, a: Aig, ghost p: Node, ghost q: Node)
    ensures m.Valid() && e.Valid() && e.haveRestore == haveRestore && m.Live(a) && a.Ref? && a.node in e.cnfId
    ensures IsIte(a, Ref(Var(4), false), Ref(Var(2), false), Ref(Var(3), false))
    ensures p in m.refs && q in m.refs && p != q && Below(p, a.node) && Below(q, a.node)
    ensures p !in e.cnfId && q !in e.cnfId && !Promise(e.cnfId)
    ensures e.maxVar == 5 && |e.clauses| == 5
  {
    hide AigMgr.Valid, Encoder.Valid, ThreeAnds, Below, IsIte, H, OppositeChildren;
    m := BuildInputs(sortAig, true);
    var t, f, c := Ref(Var(2), false), Ref(Var(3), false), Ref(Var(4), false);
    ghost var inputs := m.refs.Keys;
    InputHeld(m.handles, inputs, t);
    InputHeld(m.handles, inputs, f);
    InputHeld(m.handles, inputs, c);
    a := m.Cond(c, t, f);
    ghost var n;
    n, p, q := HalvesBuilt(inputs, sortAig, t, c, f, Not(c), Not(a));
    HOfRef(a);
    OppositeAt(n.left, n.right);
    e := EncodeHalves(m, a, haveRestore, p, q, inputs);
  }
}
