/** The interface promises that every node below an encoded one has a CNF id:
    when a call keeps the promise. */
module Guarantee {
  import opened AigNodes
  import opened AigTable
  import opened AigManager
  import opened Cnf
  import opened EdgeBounds
  import opened Gates
  import opened Regions
  import opened Tseitin

  // ---------------------------------------------------------------------------
  // When a call keeps the promise
  // ---------------------------------------------------------------------------

  /** The promise of the interface: with a node, every node below it has an id. */
  ghost predicate Promise(ids: map<Node, nat>) {
    forall p, n :: p in ids && Below(n, p) ==> n in ids
  }

  /** The node has a reference that the call does not come along. */
  ghost predicate UsedElsewhere(refs: map<Node, nat>, ids: map<Node, nat>, start: Node, n: Node) {
    n in refs && refs[n] > Visits(refs, ids, start, n)
  }

  /** The node is not recognized as a gate, unless its inner nodes have ids. */
  ghost predicate Open(refs: map<Node, nat>, ids: map<Node, nat>, p: Node)
    requires p.And?
  {
    && Recognizable(refs, p)
    && (IsPlain(refs, p) || (p.left.Ref? && p.right.Ref? && p.left.node in ids && p.right.node in ids))
  }

  ghost predicate AllOpen(refs: map<Node, nat>, ids: map<Node, nat>, start: Node) {
    forall p :: Below(p, start) && p.And? && p !in ids ==> Open(refs, ids, p)
  }

  ghost predicate AllUsed(refs: map<Node, nat>, ids: map<Node, nat>, start: Node, restore: bool) {
    forall p :: Below(p, start) && p.And? && p !in ids ==>
      p == start || restore || UsedElsewhere(refs, ids, start, p)
  }

  /** Where no inner node is skipped, every node below without an id is reached. */
  lemma {:induction false} BelowInRegion(refs: map<Node, nat>, ids: map<Node, nat>, start: Node, root: Node, n: Node)
    requires Encodable(refs, start) && AllOpen(refs, ids, start) && Promise(ids)
    requires Below(root, start) && root in Region(refs, ids, start) && Below(n, root) && n !in ids
    ensures n in Region(refs, ids, start)
    decreases root
  {
    hide Region, Encodable, Wf, NodeOk, Recognizable, IsPlain, ShapeOf, KidsOf;
    if n != root {
      RegionFacts(refs, ids, start, root);
      InnerLive(refs, start, root);
      var l, r := root.left.node, root.right.node;
      var c := if Below(n, l) then l else r;
      BelowChild(root, start, c);
      OpenKid(refs, ids, root, c);
      RegionClosed(refs, ids, start, root, c);
      BelowInRegion(refs, ids, start, c, n);
    }
  }

  lemma OpenKid(refs: map<Node, nat>, ids: map<Node, nat>, p: Node, c: Node)
    requires p.And? && NodeOk(refs, p) && Open(refs, ids, p) && p.left.Ref? && p.right.Ref?
    requires (c == p.left.node || c == p.right.node) && c !in ids
    ensures c in KidsOf(refs, p)
  {
    NodeFacts(refs, p);
  }

  /** A call keeps the promise exactly when each conjunction below the start that
      has no id yet is no recognized gate (or its inner nodes have ids already),
      and is the start, or used elsewhere, or ids are never released. */
  lemma PromiseKept(t: seq<Aig>, refs: map<Node, nat>, handles: multiset<Node>, ids: map<Node, nat>,
                    after: map<Node, nat>, start: Node, restore: bool)
    requires Counters(t, refs, handles) && Encodable(refs, start) && Promise(ids)
    requires forall n :: n in after <==> n in ids || Gains(refs, ids, start, restore, n)
    ensures Promise(after) <==> AllOpen(refs, ids, start) && AllUsed(refs, ids, start, restore)
  {
    hide Region, Encodable, Counters, Visits, IsPlain, Recognizable, Below, NodeOk, Wf, Open, Gains;
    StartGains(refs, ids, start, restore);
    if Promise(after) {
      forall p | Below(p, start) && p.And? && p !in ids
        ensures Open(refs, ids, p) && (p == start || restore || UsedElsewhere(refs, ids, start, p))
      {
        GainedIsOpen(t, refs, handles, ids, after, start, restore, p);
      }
    }
    if AllOpen(refs, ids, start) && AllUsed(refs, ids, start, restore) {
      forall p, n | p in after && Below(n, p)
        ensures n in after
      {
        if p !in ids && n !in ids {
          GainedBelow(refs, ids, start, restore, p);
          BelowTrans(n, p, start);
          OpenGains(refs, ids, start, restore, n);
        }
      }
    }
  }

  lemma StartGains(refs: map<Node, nat>, ids: map<Node, nat>, start: Node, restore: bool)
    ensures start in Region(refs, ids, start) && Gains(refs, ids, start, restore, start)
  {
    hide Visits, Region;
    RegionUnfold(refs, ids, start, start);
  }

  lemma GainedBelow(refs: map<Node, nat>, ids: map<Node, nat>, start: Node, restore: bool, p: Node)
    requires Encodable(refs, start) && Gains(refs, ids, start, restore, p)
    ensures Below(p, start)
  {
    hide Region, Encodable, Below, Visits;
    RegionFacts(refs, ids, start, p);
  }

  lemma OpenGains(refs: map<Node, nat>, ids: map<Node, nat>, start: Node, restore: bool, n: Node)
    requires Encodable(refs, start) && Promise(ids) && Below(n, start) && n !in ids
    requires AllOpen(refs, ids, start) && AllUsed(refs, ids, start, restore)
    ensures Gains(refs, ids, start, restore, n)
  {
    hide Region, Encodable, Below, Visits, Open, Promise, AllOpen;
    StartGains(refs, ids, start, restore);
    SelfBelow(start);
    BelowInRegion(refs, ids, start, start, n);
  }

  lemma GainedIsOpen(t: seq<Aig>, refs: map<Node, nat>, handles: multiset<Node>, ids: map<Node, nat>,
                     after: map<Node, nat>, start: Node, restore: bool, p: Node)
    requires Counters(t, refs, handles) && Encodable(refs, start) && Below(p, start) && p.And? && p !in ids
    requires Promise(after) && start in after
    requires forall n :: n in after <==> n in ids || Gains(refs, ids, start, restore, n)
    ensures Open(refs, ids, p) && (p == start || restore || UsedElsewhere(refs, ids, start, p))
  {
    hide Region, Encodable, Counters, Visits, IsPlain, Recognizable, NodeOk, Wf;
    assert Gains(refs, ids, start, restore, p);
    RegionFacts(refs, ids, start, p);
    NodeRecognizable(refs, p);
    InnerLive(refs, start, p);
    if !IsPlain(refs, p) {
      InnerHasId(t, refs, handles, ids, after, start, restore, p, p.left.node);
      InnerHasId(t, refs, handles, ids, after, start, restore, p, p.right.node);
    }
  }

  lemma InnerHasId(t: seq<Aig>, refs: map<Node, nat>, handles: multiset<Node>, ids: map<Node, nat>,
                   after: map<Node, nat>, start: Node, restore: bool, p: Node, c: Node)
    requires Counters(t, refs, handles) && Encodable(refs, start) && Below(p, start) && Promise(after) && start in after
    requires p in Gated(refs, ids, start) && Recognizable(refs, p) && !IsPlain(refs, p)
    requires p.left.Ref? && p.right.Ref? && (c == p.left.node || c == p.right.node)
    requires c in after ==> c in ids || Gains(refs, ids, start, restore, c)
    ensures c in ids
  {
    hide Region, Encodable, Counters, Visits, IsPlain, Recognizable;
    BelowChild(p, start, c);
    InnerNotReached(t, refs, handles, ids, start, p, c);
  }

  // ---------------------------------------------------------------------------
  // Held inputs
  // ---------------------------------------------------------------------------

  /** While somebody holds every live input, the recognizers only ever inspect
      conjunctions: a held input with a parent is shared. */
  lemma HeldInputs(m: AigMgr, start: Node)
    requires m.Valid() && forall n :: n in m.refs && n.Var? ==> n in m.handles
    ensures Extractable(m.refs, start)
  {
    hide AigMgr.Valid, Recognizable, Counters, Encodable, Below;
    StoreCounters(m);
    forall n | n in m.refs && Below(n, start)
      ensures Recognizable(m.refs, n)
    {
      InspectedAnds(m.id2aig, m.refs, m.handles, n);
    }
  }

  lemma StoreCounters(m: AigMgr)
    requires m.Valid()
    ensures Counters(m.id2aig, m.refs, m.handles)
  {
  }

  lemma InspectedAnds(t: seq<Aig>, refs: map<Node, nat>, handles: multiset<Node>, n: Node)
    requires Counters(t, refs, handles) && n in refs && forall v :: v in refs && v.Var? ==> v in handles
    ensures Recognizable(refs, n)
  {
    if Inspected(refs, n) {
      UnsharedIsAnd(t, refs, handles, n, n.left.node);
      UnsharedIsAnd(t, refs, handles, n, n.right.node);
    }
  }

  lemma UnsharedIsAnd(t: seq<Aig>, refs: map<Node, nat>, handles: multiset<Node>, n: Node, c: Node)
    requires Counters(t, refs, handles) && n in refs && forall v :: v in refs && v.Var? ==> v in handles
    requires IsChild(c, n) && (c in refs ==> refs[c] <= 1)
    ensures c.And?
  {
    hide CountsOk, EdgesOf, SumEdges, NodeEdges;
    ChildLive(t, refs.Keys, n, c);
    SumOne(n);
    ChildEdge(c, n);
    EdgesCounted(t, refs, handles, [n], c);
  }

  lemma ChildLive(t: seq<Aig>, live: set<Node>, n: Node, c: Node)
    requires TableOk(t, live) && n in live && IsChild(c, n)
    ensures c in live
  {
    assert Within(live, n.left) && Within(live, n.right);
  }

  /** A new encoder keeps the promise, having no ids, and so does a call on an
      encoder that kept it so far, exactly under the conditions named. */
  method EncodeAll(e: Encoder, m: AigMgr, start: Aig)
    requires e.Valid() && m.Valid() && m.Live(start) && start.Ref? && Extractable(m.refs, start.node)
    requires Promise(e.cnfId)
    modifies e
    ensures e.Valid() && start.node in e.cnfId
    ensures Promise(e.cnfId) <==> AllOpen(m.refs, old(e.cnfId), start.node)
                                  && AllUsed(m.refs, old(e.cnfId), start.node, e.haveRestore)
  {
    hide AigMgr.Valid, Encoder.Valid, Extractable, Counters, Encodable, Below, Gains, AllOpen, AllUsed, Region, Promise;
    e.StoreFacts(m, start.node);
    ghost var ids := e.cnfId;
    e.ToSatTseitin(m, start);
    PromiseKept(m.id2aig, m.refs, m.handles, ids, e.cnfId, start.node, e.haveRestore);
  }
}
