/** Why an encoder call visits a node at most as often as it is referenced: every
    visit comes along a parent edge of its own. */
module EdgeBounds {
  import opened AigNodes
  import opened AigTable
  import opened Cnf
  import opened Gates
  import opened Regions

  /** Ids and counters of a store. */
  ghost predicate Counters(t: seq<Aig>, refs: map<Node, nat>, handles: multiset<Node>) {
    TableOk(t, refs.Keys) && CountsOk(refs, handles + EdgesOf(t))
  }

  // ---------------------------------------------------------------------------
  // Parent edges
  // ---------------------------------------------------------------------------

  /** The parent edges that leave the listed nodes. */
  ghost function SumEdges(ps: seq<Node>): multiset<Node> {
    if ps == [] then multiset{} else SumEdges(ps[..|ps| - 1]) + NodeEdges(Ref(ps[|ps| - 1], false))
  }

  lemma SumSnoc(ps: seq<Node>, p: Node)
    ensures SumEdges(ps + [p]) == SumEdges(ps) + NodeEdges(Ref(p, false))
  {
    assert (ps + [p])[..|ps|] == ps;
  }

  lemma SumNone()
    ensures SumEdges([]) == multiset{}
  {
  }

  lemma SumOne(p: Node)
    ensures SumEdges([p]) == NodeEdges(Ref(p, false))
  {
    SumSnoc([], p);
    assert [] + [p] == [p];
  }

  lemma SumTwo(p: Node, q: Node)
    ensures SumEdges([p, q]) == NodeEdges(Ref(p, false)) + NodeEdges(Ref(q, false))
  {
    SumOne(p);
    SumSnoc([p], q);
    assert [p] + [q] == [p, q];
  }

  lemma {:induction false} SumConcat(ps: seq<Node>, qs: seq<Node>)
    ensures SumEdges(ps + qs) == SumEdges(ps) + SumEdges(qs)
  {
    hide SumEdges, NodeEdges;
    if qs == [] {
      assert ps + qs == ps;
      SumNone();
    } else {
      var k := |qs| - 1;
      var rest, q := qs[..k], qs[k];
      SumConcat(ps, rest);
      SumSnoc(ps + rest, q);
      SumSnoc(rest, q);
      assert qs == rest + [q] && ps + qs == ps + rest + [q];
    }
  }

  ghost predicate Stored(t: seq<Aig>, ps: seq<Node>) {
    forall p :: p in ps ==> p.id < |t| && t[p.id] == Ref(p, false)
  }

  /** Different stored nodes have different edges. */
  lemma {:induction false} SumWithin(t: seq<Aig>, ps: seq<Node>)
    requires Distinct(ps) && Stored(t, ps)
    ensures SumEdges(ps) <= EdgesOf(t)
    decreases |ps|
  {
    hide EdgesOf, NodeEdges;
    if ps != [] {
      var k := |ps| - 1;
      var p, rest := ps[k], ps[..k];
      assert ps == rest + [p];
      ClearEdges(t, p.id);
      assert Stored(t[p.id := False], rest);
      SumWithin(t[p.id := False], rest);
    }
  }

  /** A list of all stored conjunctions has all edges. */
  lemma {:induction false} SumAll(t: seq<Aig>, ps: seq<Node>)
    requires Distinct(ps) && Stored(t, ps)
    requires forall i :: 0 <= i < |t| && IsAnd(t[i]) ==> t[i].node in ps && t[i].node.id == i
    ensures SumEdges(ps) == EdgesOf(t)
    decreases |ps|
  {
    hide EdgesOf, NodeEdges;
    if ps == [] {
      NoEdges(t);
    } else {
      var k := |ps| - 1;
      var p, rest := ps[k], ps[..k];
      assert ps == rest + [p];
      ClearEdges(t, p.id);
      var t' := t[p.id := False];
      assert Stored(t', rest);
      forall i | 0 <= i < |t'| && IsAnd(t'[i])
        ensures t'[i].node in rest && t'[i].node.id == i
      {
        assert t[i].node in ps;
      }
      SumAll(t', rest);
    }
  }

  lemma {:induction false} NoEdges(t: seq<Aig>)
    requires forall i :: 0 <= i < |t| ==> !IsAnd(t[i])
    ensures EdgesOf(t) == multiset{}
  {
    if t != [] {
      NoEdges(t[..|t| - 1]);
    }
  }

  ghost predicate IsChild(c: Node, p: Node) {
    p.And? && ((p.left.Ref? && p.left.node == c) || (p.right.Ref? && p.right.node == c))
  }

  lemma ChildEdge(c: Node, p: Node)
    requires IsChild(c, p)
    ensures p.And? && NodeEdges(Ref(p, false))[c] >= 1
    ensures p.left.Ref? && p.right.Ref? && p.left.node == p.right.node == c ==> NodeEdges(Ref(p, false))[c] >= 2
  {
  }

  lemma EdgesCounted(t: seq<Aig>, refs: map<Node, nat>, handles: multiset<Node>, ps: seq<Node>, c: Node)
    requires Counters(t, refs, handles) && Distinct(ps) && (forall p :: p in ps ==> p in refs) && c in refs
    ensures handles[c] + SumEdges(ps)[c] <= refs[c]
  {
    hide EdgesOf, NodeEdges, SumEdges, Closed, Wf;
    SumWithin(t, ps);
  }

  /** A node that is not shared has only one parent edge. */
  lemma OnlyParent(t: seq<Aig>, refs: map<Node, nat>, handles: multiset<Node>, c: Node, p: Node, q: Node)
    requires Counters(t, refs, handles) && c in refs && refs[c] <= 1
    requires p in refs && IsChild(c, p) && q in refs && IsChild(c, q)
    ensures p == q && !(p.left.Ref? && p.right.Ref? && p.left.node == p.right.node)
  {
    hide Counters, NodeEdges, SumEdges, IsChild;
    ChildEdge(c, p);
    ChildEdge(c, q);
    if p != q {
      SumTwo(p, q);
      EdgesCounted(t, refs, handles, [p, q], c);
    }
    SumOne(p);
    EdgesCounted(t, refs, handles, [p], c);
    if p.left.Ref? && p.right.Ref? && p.left.node == p.right.node {
      BothChildren(c, p);
    }
  }

  lemma BothChildren(c: Node, p: Node)
    requires IsChild(c, p) && p.left.Ref? && p.right.Ref? && p.left.node == p.right.node
    ensures p.left.node == c
  {
  }

  // ---------------------------------------------------------------------------
  // The edges behind shape edges
  // ---------------------------------------------------------------------------

  /** The nodes whose edges a shape follows: the node itself, or the two inner
      nodes of a recognized gate. */
  ghost function Sources(refs: map<Node, nat>, p: Node): seq<Node> {
    if p.And? && Recognizable(refs, p) && !IsPlain(refs, p) && p.left.Ref? && p.right.Ref?
    then [p.left.node, p.right.node] else [p]
  }

  lemma KidsBySources(refs: map<Node, nat>, p: Node)
    requires p.And? && NodeOk(refs, p) && Wf(p)
    ensures multiset(KidsOf(refs, p)) <= SumEdges(Sources(refs, p))
  {
    hide SumEdges, NodeEdges, Wf, Recognizable, KidsOf;
    WfChildren(p);
    NodeRecognizable(refs, p);
    SumOne(p);
    if IsPlain(refs, p) {
      PlainEdges(refs, p);
    } else {
      SumTwo(p.left.node, p.right.node);
      GateEdges(refs, p);
    }
  }

  lemma PlainEdges(refs: map<Node, nat>, p: Node)
    requires p.And? && NodeOk(refs, p) && IsPlain(refs, p) && p.left.Ref? && p.right.Ref?
    ensures multiset(KidsOf(refs, p)) == NodeEdges(Ref(p, false))
  {
    hide NodeEdges, Unshared;
    NodeFacts(refs, p);
    EdgePair(p);
    assert KidsOf(refs, p) == [p.left.node, p.right.node];
  }

  lemma GateEdges(refs: map<Node, nat>, p: Node)
    requires p.And? && NodeOk(refs, p) && Wf(p) && !IsPlain(refs, p)
    ensures p.left.Ref? && p.right.Ref?
    ensures multiset(KidsOf(refs, p)) <= NodeEdges(Ref(p.left.node, false)) + NodeEdges(Ref(p.right.node, false))
  {
    hide NodeEdges, Wf;
    WfChildren(p);
    InnerFacts(refs, p);
    var l, r := p.left.node, p.right.node;
    WfChildren(l);
    WfChildren(r);
    EdgePair(l);
    EdgePair(r);
    GateKids(refs, p);
    var (ll, lr, rl, rr) := (l.left.node, l.right.node, r.left.node, r.right.node);
    if KidsOf(refs, p) == [rr, ll] {
      TwoWithin(ll, lr, rl, rr);
    } else {
      ThreeWithin(KidsOf(refs, p), ll, lr, rl, rr);
    }
  }

  lemma EdgePair(n: Node)
    requires n.And? && n.left.Ref? && n.right.Ref?
    ensures NodeEdges(Ref(n, false)) == multiset{n.left.node, n.right.node}
  {
  }

  /** The shape edges of a recognized gate. */
  lemma GateKids(refs: map<Node, nat>, p: Node)
    requires p.And? && NodeOk(refs, p) && Wf(p) && !IsPlain(refs, p) && IsAnd(p.left) && IsAnd(p.right)
    requires p.left.node.left.Ref? && p.left.node.right.Ref? && p.right.node.left.Ref? && p.right.node.right.Ref?
    ensures var (ll, lr, rl, rr) := (p.left.node.left.node, p.left.node.right.node,
                                     p.right.node.left.node, p.right.node.right.node);
            KidsOf(refs, p) == [rr, ll] || IsTriple(KidsOf(refs, p), ll, lr, rl, rr)
  {
    hide Wf, Unshared;
    NodeFacts(refs, p);
  }

  /** One node of the left pair and both of the right pair. */
  predicate IsTriple(s: seq<Node>, ll: Node, lr: Node, rl: Node, rr: Node) {
    |s| == 3 && (s[0] == ll || s[0] == lr) && ((s[1] == rl && s[2] == rr) || (s[1] == rr && s[2] == rl))
  }

  lemma TwoWithin(ll: Node, lr: Node, rl: Node, rr: Node)
    ensures multiset([rr, ll]) <= multiset{ll, lr} + multiset{rl, rr}
  {
  }

  lemma ThreeWithin(s: seq<Node>, ll: Node, lr: Node, rl: Node, rr: Node)
    requires IsTriple(s, ll, lr, rl, rr)
    ensures multiset(s) <= multiset{ll, lr} + multiset{rl, rr}
  {
    Triple(s[0], s[1], s[2]);
    assert s == [s[0]] + [s[1], s[2]];
  }

  lemma Triple(a: Node, b: Node, c: Node)
    ensures multiset([a] + [b, c]) == multiset{a} + multiset{b, c} && multiset{b, c} == multiset{c, b}
  {
  }

  /** What an inner node of a recognized gate is. */
  lemma InnerFacts(refs: map<Node, nat>, p: Node)
    requires p.And? && Recognizable(refs, p) && !IsPlain(refs, p)
    ensures Inspected(refs, p) && IsAnd(p.left) && IsAnd(p.right)
    ensures IsChild(p.left.node, p) && IsChild(p.right.node, p)
  {
  }

  /** A shape edge of a plain conjunction leads to a child, one of a gate to a
      child of an inner node. */
  lemma KidOrigin(refs: map<Node, nat>, p: Node, k: Node)
    requires p.And? && NodeOk(refs, p) && Wf(p) && k in KidsOf(refs, p)
    ensures if IsPlain(refs, p) then IsChild(k, p)
            else p.left.Ref? && p.right.Ref? && (IsChild(k, p.left.node) || IsChild(k, p.right.node))
  {
    hide Unshared, Wf;
    WfChildren(p);
    NodeFacts(refs, p);
    if !IsPlain(refs, p) {
      InnerFacts(refs, p);
      WfChildren(p.left.node);
      WfChildren(p.right.node);
    }
  }

  /** The call never comes to an inner node of a gate it emits clauses for: the
      inner node has one parent only, and the gate's clauses skip it. */
  lemma {:induction false} InnerNotReached(t: seq<Aig>, refs: map<Node, nat>, handles: multiset<Node>,
                                          ids: map<Node, nat>, start: Node, p: Node, l: Node)
    requires Counters(t, refs, handles) && Encodable(refs, start)
    requires p in Gated(refs, ids, start) && Recognizable(refs, p) && !IsPlain(refs, p)
    requires l == p.left.node || l == p.right.node
    requires p.left.Ref? && p.right.Ref?
    ensures l !in Region(refs, ids, start)
    decreases start.id - p.id
  {
    hide Counters, Region, Encodable, KidsOf, Wf, NodeOk, Below, Recognizable, ShapeOf, IsPlain;
    RegionFacts(refs, ids, start, p);
    InnerFacts(refs, p);
    InnerLive(refs, start, p);
    if l in Region(refs, ids, start) {
      var q := RegionParent(refs, ids, start, l);
      RegionFacts(refs, ids, start, q);
      KidsNonEmpty(refs, q, l);
      NodeRecognizable(refs, q);
      KidOrigin(refs, q, l);
      if IsPlain(refs, q) {
        OnlyParent(t, refs, handles, l, p, q);
      } else {
        InnerFacts(refs, q);
        InnerLive(refs, start, q);
        var s := if IsChild(l, q.left.node) then q.left.node else q.right.node;
        OnlyParent(t, refs, handles, l, p, s);
        InnerNotReached(t, refs, handles, ids, start, q, p);
      }
    }
  }

  lemma NodeRecognizable(refs: map<Node, nat>, p: Node)
    requires NodeOk(refs, p)
    ensures Recognizable(refs, p)
  {
  }

  lemma KidsNonEmpty(refs: map<Node, nat>, q: Node, k: Node)
    requires k in KidsOf(refs, q)
    ensures q.And?
  {
  }

  /** The children of a conjunction in the region are older live nodes; those of
      an inspected one are not shared. */
  lemma InnerLive(refs: map<Node, nat>, start: Node, p: Node)
    requires Encodable(refs, start) && p in refs && p.And?
    ensures p.left.Ref? && p.right.Ref? && p.left.node in refs && p.right.node in refs
    ensures p.left.node.id < p.id && p.right.node.id < p.id
    ensures Inspected(refs, p) ==> refs[p.left.node] <= 1 && refs[p.right.node] <= 1
  {
    assert Wf(p);
  }

  // ---------------------------------------------------------------------------
  // All visits together
  // ---------------------------------------------------------------------------

  ghost function AllSources(refs: map<Node, nat>, ps: seq<Node>): seq<Node> {
    if ps == [] then [] else AllSources(refs, ps[..|ps| - 1]) + Sources(refs, ps[|ps| - 1])
  }

  lemma {:induction false} SourceOrigin(refs: map<Node, nat>, ps: seq<Node>, x: Node) returns (p: Node)
    requires x in AllSources(refs, ps)
    ensures p in ps && x in Sources(refs, p)
  {
    hide Sources;
    var k := |ps| - 1;
    if x in Sources(refs, ps[k]) {
      p := ps[k];
    } else {
      p := SourceOrigin(refs, ps[..k], x);
    }
  }

  /** Two gates never follow the edges of the same node. */
  lemma SourcesApart(t: seq<Aig>, refs: map<Node, nat>, handles: multiset<Node>, ids: map<Node, nat>, start: Node,
                     p: Node, q: Node, x: Node)
    requires Counters(t, refs, handles) && Encodable(refs, start)
    requires p in Gated(refs, ids, start) && q in Gated(refs, ids, start)
    requires x in Sources(refs, p) && x in Sources(refs, q)
    ensures p == q
  {
    hide Counters, Region, Encodable, KidsOf, Wf, NodeOk, Below, ShapeOf, IsPlain;
    RegionFacts(refs, ids, start, p);
    RegionFacts(refs, ids, start, q);
    NodeRecognizable(refs, p);
    NodeRecognizable(refs, q);
    InnerLive(refs, start, p);
    InnerLive(refs, start, q);
    if !IsPlain(refs, p) {
      InnerFacts(refs, p);
      if IsPlain(refs, q) {
        InnerNotReached(t, refs, handles, ids, start, p, q);
      } else {
        InnerFacts(refs, q);
        OnlyParent(t, refs, handles, x, p, q);
      }
    } else if !IsPlain(refs, q) {
      InnerNotReached(t, refs, handles, ids, start, q, p);
    }
  }

  lemma SourcesDistinct(t: seq<Aig>, refs: map<Node, nat>, handles: multiset<Node>, ids: map<Node, nat>, start: Node,
                        p: Node)
    requires Counters(t, refs, handles) && Encodable(refs, start) && p in Gated(refs, ids, start)
    ensures Distinct(Sources(refs, p)) && forall x :: x in Sources(refs, p) ==> x in refs
  {
    hide Counters, Region, Encodable, KidsOf, Wf, NodeOk, Below, ShapeOf, IsPlain;
    RegionFacts(refs, ids, start, p);
    NodeRecognizable(refs, p);
    InnerLive(refs, start, p);
    if !IsPlain(refs, p) {
      InnerFacts(refs, p);
      OnlyParent(t, refs, handles, p.left.node, p, p);
    }
  }

  lemma {:induction false} AllDistinct(t: seq<Aig>, refs: map<Node, nat>, handles: multiset<Node>,
                                      ids: map<Node, nat>, start: Node, ps: seq<Node>)
    requires Counters(t, refs, handles) && Encodable(refs, start) && Distinct(ps)
    requires forall p :: p in ps ==> p in Gated(refs, ids, start)
    ensures Distinct(AllSources(refs, ps)) && forall x :: x in AllSources(refs, ps) ==> x in refs
    decreases |ps|
  {
    hide Counters, Gated, Encodable, Sources;
    if ps != [] {
      var k := |ps| - 1;
      var p, rest := ps[k], ps[..k];
      AllDistinct(t, refs, handles, ids, start, rest);
      SourcesDistinct(t, refs, handles, ids, start, p);
      forall x | x in AllSources(refs, rest) && x in Sources(refs, p)
        ensures false
      {
        var q := SourceOrigin(refs, rest, x);
        SourcesApart(t, refs, handles, ids, start, p, q, x);
      }
      DistinctConcat(AllSources(refs, rest), Sources(refs, p));
    }
  }

  lemma DistinctConcat(s: seq<Node>, r: seq<Node>)
    requires Distinct(s) && Distinct(r) && forall x :: x in s ==> x !in r
    ensures Distinct(s + r)
  {
    var c := s + r;
    forall i, j | 0 <= i < j < |c|
      ensures c[i] != c[j]
    {
      if i < |s| <= j {
        assert c[i] in s && c[j] == r[j - |s|] && c[j] in r;
      } else if |s| <= i {
        assert c[i] == r[i - |s|] && c[j] == r[j - |s|];
      }
    }
  }

  lemma {:induction false} PushedBySources(refs: map<Node, nat>, ps: seq<Node>)
    requires forall p :: p in ps ==> p.And? && NodeOk(refs, p) && Wf(p)
    ensures Pushed(refs, ps) <= SumEdges(AllSources(refs, ps))
    decreases |ps|
  {
    hide KidsOf, SumEdges, NodeOk, Wf, Sources;
    if ps != [] {
      var k := |ps| - 1;
      PushedBySources(refs, ps[..k]);
      KidsBySources(refs, ps[k]);
      SumConcat(AllSources(refs, ps[..k]), Sources(refs, ps[k]));
    }
  }

  /** Whatever gates of the region were expanded: a node is used by them at most
      as often as it is referenced, and handles come on top. */
  lemma PushedBound(t: seq<Aig>, refs: map<Node, nat>, handles: multiset<Node>, ids: map<Node, nat>, start: Node,
                    ps: seq<Node>, n: Node)
    requires Counters(t, refs, handles) && Encodable(refs, start) && Distinct(ps) && n in refs
    requires forall p :: p in ps ==> p in Gated(refs, ids, start)
    ensures handles[n] + Pushed(refs, ps)[n] <= refs[n]
  {
    hide Counters, Region, Encodable, KidsOf, SumEdges, NodeOk, Wf, AllSources, Below, Pushed;
    forall p | p in ps
      ensures p.And? && NodeOk(refs, p) && Wf(p)
    {
      RegionFacts(refs, ids, start, p);
    }
    AllDistinct(t, refs, handles, ids, start, ps);
    PushedBySources(refs, ps);
    EdgesCounted(t, refs, handles, AllSources(refs, ps), n);
  }

  /** The start node itself is never used by the gates below it. */
  lemma {:induction false} StartNotPushed(refs: map<Node, nat>, ids: map<Node, nat>, start: Node, ps: seq<Node>)
    requires Encodable(refs, start) && forall p :: p in ps ==> p in Gated(refs, ids, start)
    ensures Pushed(refs, ps)[start] == 0
    decreases |ps|
  {
    hide Encodable, KidsOf, Region, NodeOk, Wf, Below;
    if ps != [] {
      var k := |ps| - 1;
      var p := ps[k];
      assert p in ps;
      StartNotPushed(refs, ids, start, ps[..k]);
      RegionFacts(refs, ids, start, p);
      NodeRecognizable(refs, p);
      NodesOk(refs, p);
    }
  }

  /** The bound that the encoder asserts: a node is visited at most as often as it
      is referenced; less often if a handle refers to it and it is not the start. */
  lemma VisitsBound(t: seq<Aig>, refs: map<Node, nat>, handles: multiset<Node>, ids: map<Node, nat>, start: Node,
                    ps: seq<Node>, n: Node)
    requires Counters(t, refs, handles) && Encodable(refs, start) && Distinct(ps) && n in refs
    requires forall p :: p in ps ==> p in Gated(refs, ids, start)
    ensures (if n == start then 1 else 0) + Pushed(refs, ps)[n] <= refs[n]
    ensures n != start && n in handles ==> Pushed(refs, ps)[n] < refs[n]
  {
    hide Encodable, Gated, Pushed, TableOk;
    PushedBound(t, refs, handles, ids, start, ps, n);
    if n == start {
      StartNotPushed(refs, ids, start, ps);
    }
  }
}
