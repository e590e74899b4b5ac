/** The gates that the encoder recognizes, and the graph of nodes that their
    clauses mention. */
module Gates {
  import opened AigLaws
  import opened AigNodes
  import opened AigTable
  import opened Cnf
  import Dfs

  // ---------------------------------------------------------------------------
  // Gate recognition
  // ---------------------------------------------------------------------------

  predicate Unshared(refs: map<Node, nat>, a: Aig) {
    a.Ref? && (a.node in refs ==> refs[a.node] <= 1)
  }

  /** Both children are inverted and not shared, so their children are inspected. */
  predicate Inspected(refs: map<Node, nat>, n: Node) {
    && n.And? && n.left.Ref? && n.left.inverted && n.right.Ref? && n.right.inverted
    && Unshared(refs, n.left) && Unshared(refs, n.right)
  }

  /** What the recognizers rely on: inspected children are conjunctions. */
  predicate Recognizable(refs: map<Node, nat>, n: Node) {
    Inspected(refs, n) ==> IsAnd(n.left) && IsAnd(n.right)
  }

  /** The shape a conjunction is encoded with: an equivalence, a conditional, or
      a plain conjunction of its children. */
  function ShapeOf(refs: map<Node, nat>, n: Node): Shape
    requires n.And? && Recognizable(refs, n)
  {
    if Inspected(refs, n) then
      var (ll, lr) := (n.left.node.left, n.left.node.right);
      var (rl, rr) := (n.right.node.left, n.right.node.right);
      if ll == Not(rl) && lr == Not(rr) then XorShape(rr, ll)
      else if Not(lr) == rl then IteShape(Not(ll), Not(rr), rl)
      else if Not(ll) == rl then IteShape(Not(lr), Not(rr), rl)
      else if Not(lr) == rr then IteShape(Not(ll), Not(rl), rr)
      else if Not(ll) == rr then IteShape(Not(lr), Not(rl), rr)
      else AndShape(n.left, n.right)
    else AndShape(n.left, n.right)
  }

  /** The node is encoded as a conjunction of its two children. */
  predicate IsPlain(refs: map<Node, nat>, p: Node)
    requires p.And? && Recognizable(refs, p)
  {
    ShapeOf(refs, p).AndShape?
  }

  /** Which nodes are recognized: those whose inspected inner nodes have
      complementary children, as an equivalence if these are the two left and the
      two right ones, and otherwise as a conditional on the complementary child. */
  lemma ShapeIff(refs: map<Node, nat>, n: Node)
    requires n.And? && Recognizable(refs, n)
    ensures Inspected(refs, n) <==>
              forall c :: c in {n.left, n.right} ==> c.Ref? && c.inverted && !(c.node in refs && refs[c.node] > 1)
    ensures IsPlain(refs, n) <==> !(Inspected(refs, n) && OppositeChildren(n.left, n.right))
    ensures ShapeOf(refs, n).XorShape? <==>
              && Inspected(refs, n)
              && n.left.node.left == Not(n.right.node.left) && n.left.node.right == Not(n.right.node.right)
    ensures match ShapeOf(refs, n)
            case AndShape(l, r) => l == n.left && r == n.right
            case XorShape(a, b) => IsPair(n.left.node, b, Not(a)) && IsPair(n.right.node, Not(b), a)
            case IteShape(e, t, c) => IsPair(n.left.node, Not(c), Not(e)) && IsPair(n.right.node, c, Not(t))
  {
    if Inspected(refs, n) {
      NotNot(n.left.node.left);
      NotNot(n.left.node.right);
      NotNot(n.right.node.left);
      NotNot(n.right.node.right);
    }
  }

  /** The recognized shape has the meaning of the node, under every assignment. */
  lemma ShapeMeaning(refs: map<Node, nat>, n: Node, env: Env)
    requires n.And? && Recognizable(refs, n)
    ensures Eval(env, Ref(n, false)) == ShapeEval(env, ShapeOf(refs, n))
  {
    if Inspected(refs, n) {
      var l, r := n.left.node, n.right.node;
      EvalNot(env, l.left);
      EvalNot(env, l.right);
      EvalNot(env, r.left);
      EvalNot(env, r.right);
      EvalAnd(env, n.left);
      EvalAnd(env, n.right);
    }
  }

  /** With sorting on, the crossed exclusive-or pattern cannot occur: the ids of
      the children would have to ascend in both directions. */
  lemma NoCrossedXor(live: set<Node>, n: Node)
    requires Unique(live, true) && n.And? && IsAnd(n.left) && IsAnd(n.right)
    requires n.left.node in live && n.right.node in live
    ensures n.left.node.left != Not(n.right.node.right) || n.left.node.right != Not(n.right.node.left)
  {
    var l, r := n.left.node, n.right.node;
    assert Rank(l.left) < Rank(l.right) && Rank(r.left) < Rank(r.right);
  }

  ghost predicate LeafBelow(a: Aig, n: Node) {
    a.Ref? && a.node.id < n.id && Below(a.node, n)
  }

  lemma BelowTrans(a: Node, b: Node, c: Node)
    requires Below(a, b) && Below(b, c)
    ensures Below(a, c)
  {
    if b != c {
      if c.left.Ref? && Below(b, c.left.node) {
        BelowTrans(a, b, c.left.node);
      } else {
        BelowTrans(a, b, c.right.node);
      }
    }
  }

  lemma LeafNot(a: Aig, n: Node)
    ensures LeafBelow(Not(a), n) <==> LeafBelow(a, n)
  {
  }

  lemma ChildrenBelow(n: Node)
    requires n.And? && Wf(n)
    ensures LeafBelow(n.left, n) && LeafBelow(n.right, n)
  {
    assert Below(n.left.node, n.left.node) && Below(n.right.node, n.right.node);
  }

  lemma GrandchildBelow(a: Aig, c: Aig, n: Node)
    requires c.Ref? && LeafBelow(a, c.node) && LeafBelow(c, n)
    ensures LeafBelow(a, n)
  {
    BelowTrans(a.node, c.node, n);
  }

  lemma WfChildren(n: Node)
    requires n.And? && Wf(n)
    ensures n.left.Ref? && n.right.Ref? && Wf(n.left.node) && Wf(n.right.node)
  {
  }

  /** The leafs of a shape are older nodes below the encoded one, never constants. */
  lemma LeafsBelow(refs: map<Node, nat>, n: Node)
    requires n.And? && Wf(n) && Recognizable(refs, n)
    ensures forall a :: a in Leafs(ShapeOf(refs, n)) ==> LeafBelow(a, n)
  {
    hide LeafBelow, Wf, Unshared, Not;
    WfChildren(n);
    ChildrenBelow(n);
    if Inspected(refs, n) {
      var l, r := n.left.node, n.right.node;
      ChildrenBelow(l);
      ChildrenBelow(r);
      GrandchildBelow(l.left, n.left, n);
      GrandchildBelow(l.right, n.left, n);
      GrandchildBelow(r.left, n.right, n);
      GrandchildBelow(r.right, n.right, n);
      LeafNot(l.left, n);
      LeafNot(l.right, n);
      LeafNot(r.left, n);
      LeafNot(r.right, n);
    }
  }

  // ---------------------------------------------------------------------------
  // The graph the traversal walks
  // ---------------------------------------------------------------------------

  predicate NoConstLeaf(s: Shape) {
    match s
    case XorShape(a, b) => a.Ref? && b.Ref?
    case IteShape(e, t, c) => e.Ref? && t.Ref? && c.Ref?
    case AndShape(l, r) => l.Ref? && r.Ref?
  }

  function LeafNodes(s: Shape): seq<Node>
    requires NoConstLeaf(s)
  {
    match s
    case XorShape(a, b) => [a.node, b.node]
    case IteShape(e, t, c) => [e.node, t.node, c.node]
    case AndShape(l, r) => [l.node, r.node]
  }

  ghost predicate NodeOk(refs: map<Node, nat>, n: Node) {
    Recognizable(refs, n) && (n.And? ==> NoConstLeaf(ShapeOf(refs, n)))
  }

  /** The shape edges of a node: what its clauses mention. */
  function KidsOf(refs: map<Node, nat>, n: Node): seq<Node> {
    if n.And? && Recognizable(refs, n) && NoConstLeaf(ShapeOf(refs, n)) then LeafNodes(ShapeOf(refs, n)) else []
  }

  /** Every inspected child below `start` is a conjunction. */
  ghost predicate Extractable(refs: map<Node, nat>, start: Node) {
    forall n :: n in refs && Below(n, start) ==> Recognizable(refs, n)
  }

  ghost function Graph(refs: map<Node, nat>, start: Node): map<Node, seq<Node>> {
    map n | n in refs && Below(n, start) :: KidsOf(refs, n)
  }

  lemma LeafNodesOf(s: Shape, k: Node)
    requires NoConstLeaf(s)
    ensures k in LeafNodes(s) <==> exists a :: a in Leafs(s) && a.Ref? && a.node == k
    ensures forall a :: a in Leafs(s) ==> a.Ref? && a.node in LeafNodes(s)
  {
    match s
    case XorShape(a, b) => assert a in Leafs(s) && b in Leafs(s);
    case IteShape(e, t, c) => assert e in Leafs(s) && t in Leafs(s) && c in Leafs(s);
    case AndShape(l, r) => assert l in Leafs(s) && r in Leafs(s);
  }

  lemma NodesOk(refs: map<Node, nat>, n: Node)
    requires Wf(n) && Recognizable(refs, n)
    ensures NodeOk(refs, n)
    ensures forall k :: k in KidsOf(refs, n) ==> k.id < n.id && Below(k, n)
  {
    hide ShapeOf, Below, Wf, Recognizable;
    if n.And? {
      var s := ShapeOf(refs, n);
      LeafsBelow(refs, n);
      match s {
        case XorShape(a, b) => assert a in Leafs(s) && b in Leafs(s);
        case IteShape(e, t, c) => assert e in Leafs(s) && t in Leafs(s) && c in Leafs(s);
        case AndShape(l, r) => assert l in Leafs(s) && r in Leafs(s);
      }
      forall k | k in LeafNodes(s)
        ensures k.id < n.id && Below(k, n)
      {
        LeafNodesOf(s, k);
      }
    }
  }

  lemma GraphNodes(refs: map<Node, nat>, start: Node)
    requires Extractable(refs, start) && forall n :: n in refs ==> Wf(n)
    ensures forall n :: n in refs && Below(n, start) ==> NodeOk(refs, n)
  {
    hide NodeOk, Below, Wf, Recognizable;
    forall n | n in refs && Below(n, start)
      ensures NodeOk(refs, n)
    {
      NodesOk(refs, n);
    }
  }

  lemma GraphEntries(refs: map<Node, nat>, start: Node)
    ensures var kids := Graph(refs, start);
            && (forall n :: n in kids <==> n in refs && Below(n, start))
            && (forall n :: n in kids ==> kids[n] == KidsOf(refs, n))
  {
  }

  lemma EdgesOk(refs: map<Node, nat>, start: Node, kids: map<Node, seq<Node>>)
    requires start in refs && Closed(refs.Keys) && forall n :: n in refs ==> Wf(n)
    requires forall n :: n in kids <==> n in refs && Below(n, start)
    requires forall n :: n in kids ==> NodeOk(refs, n) && kids[n] == KidsOf(refs, n)
    ensures Dfs.KidsOk(kids)
  {
    hide Closed, NodeOk, KidsOf, Below, Wf;
    forall n, k | n in kids && k in kids[n]
      ensures k in kids && k.id < n.id
    {
      GraphEdge(refs, start, n, k);
    }
  }

  lemma GraphOk(refs: map<Node, nat>, start: Node)
    requires start in refs && Extractable(refs, start) && Closed(refs.Keys) && forall n :: n in refs ==> Wf(n)
    ensures forall n :: n in refs && Below(n, start) ==> NodeOk(refs, n)
    ensures start in Graph(refs, start) && Dfs.KidsOk(Graph(refs, start))
  {
    hide Closed, NodeOk, KidsOf, Below, Wf, Recognizable, Graph, Dfs.KidsOk;
    GraphNodes(refs, start);
    GraphEntries(refs, start);
    SelfBelow(start);
    EdgesOk(refs, start, Graph(refs, start));
  }

  lemma GraphEdge(refs: map<Node, nat>, start: Node, n: Node, k: Node)
    requires start in refs && Closed(refs.Keys) && n in refs && Wf(n) && Below(n, start)
    requires NodeOk(refs, n) && k in KidsOf(refs, n)
    ensures k in refs && Below(k, start) && k.id < n.id
  {
    hide Closed, KidsOf, Below, Wf, ShapeOf, Recognizable;
    NodesOk(refs, n);
    BelowTrans(k, n, start);
    BelowClosed(refs.Keys, k, start);
  }

  lemma SelfBelow(n: Node)
    ensures Below(n, n)
  {
  }

  /** The leafs of the shape are encoded once all successors are. */
  lemma LeafsFromKids(refs: map<Node, nat>, n: Node, ids: map<Node, nat>)
    requires n.And? && NodeOk(refs, n) && forall k :: k in KidsOf(refs, n) ==> k in ids
    ensures LeafsEncoded(ids, ShapeOf(refs, n))
  {
    hide ShapeOf;
    LeafNodesOf(ShapeOf(refs, n), n);
  }

  lemma GateOk(refs: map<Node, nat>, n: Node, ids: map<Node, nat>)
    requires n.And? && NodeOk(refs, n) && forall k :: k in KidsOf(refs, n) ==> k in ids
    ensures LeafsEncoded(ids, ShapeOf(refs, n))
    ensures forall env :: Eval(env, Ref(n, false)) == ShapeEval(env, ShapeOf(refs, n))
  {
    hide Recognizable, ShapeOf, LeafsEncoded, ShapeEval, NoConstLeaf;
    LeafsFromKids(refs, n, ids);
    forall env
      ensures Eval(env, Ref(n, false)) == ShapeEval(env, ShapeOf(refs, n))
    {
      ShapeMeaning(refs, n, env);
    }
  }

  lemma NodeFacts(refs: map<Node, nat>, n: Node)
    requires n.And? && NodeOk(refs, n)
    ensures Recognizable(refs, n) && NoConstLeaf(ShapeOf(refs, n))
    ensures KidsOf(refs, n) == LeafNodes(ShapeOf(refs, n))
  {
  }
}
