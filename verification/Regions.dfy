/** Which nodes an encoder call visits, how often, and which of them keep a CNF
    id: everything here depends on the reference counts and ids before the call. */
module Regions {
  import opened AigNodes
  import opened AigTable
  import opened Cnf
  import opened Gates

  /** What `n` reaches along shape edges through nodes without ids. */
  ghost function Region(refs: map<Node, nat>, ids: map<Node, nat>, n: Node): set<Node>
    decreases n.id
  {
    {n} + if n in ids then {} else set k, m | k in KidsOf(refs, n) && k.id < n.id && m in Region(refs, ids, k) :: m
  }

  /** The conjunctions for which a call on `start` emits clauses. */
  ghost function Gated(refs: map<Node, nat>, ids: map<Node, nat>, start: Node): set<Node> {
    set m | m in Region(refs, ids, start) && m.And? && m !in ids
  }

  /** The shape edges that lead from these nodes to `n`. */
  ghost function Uses(refs: map<Node, nat>, from: set<Node>, n: Node): set<(Node, int)> {
    set p, i | p in from && 0 <= i < |KidsOf(refs, p)| && KidsOf(refs, p)[i] == n :: (p, i)
  }

  /** How often a call on `start` comes to `n`. */
  ghost function Visits(refs: map<Node, nat>, ids: map<Node, nat>, start: Node, n: Node): nat {
    |Uses(refs, Gated(refs, ids, start), n)| + if n == start then 1 else 0
  }

  /** The nodes that a call on `start` leaves with an id although they had none. */
  ghost predicate Gains(refs: map<Node, nat>, ids: map<Node, nat>, start: Node, restore: bool, n: Node) {
    && n in Region(refs, ids, start)
    && (n == start || n.Var? || restore || (n in refs && refs[n] > Visits(refs, ids, start, n)))
  }

  /** The nodes that a call on `start` allocates variables for. */
  ghost function Fresh(refs: map<Node, nat>, ids: map<Node, nat>, start: Node): set<Node> {
    set m | m in Region(refs, ids, start) && m !in ids
  }

  /** The clauses emitted for these conjunctions: three for a plain one, four for
      a recognized gate. */
  ghost function ClauseCount(refs: map<Node, nat>, gates: set<Node>): nat {
    3 * |gates| + |Recognized(refs, gates)|
  }

  ghost function Recognized(refs: map<Node, nat>, gates: set<Node>): set<Node> {
    set n | n in gates && n.And? && Recognizable(refs, n) && !IsPlain(refs, n)
  }

  // ---------------------------------------------------------------------------
  // The region
  // ---------------------------------------------------------------------------

  /** The nodes below `start` are live and can be inspected. */
  ghost predicate Encodable(refs: map<Node, nat>, start: Node) {
    start in refs && Extractable(refs, start) && Closed(refs.Keys) && forall n :: n in refs ==> Wf(n)
  }

  lemma RegionUnfold(refs: map<Node, nat>, ids: map<Node, nat>, n: Node, m: Node)
    ensures m in Region(refs, ids, n) <==>
            m == n || (n !in ids && exists k :: k in KidsOf(refs, n) && k.id < n.id && m in Region(refs, ids, k))
  {
  }

  lemma {:induction false} RegionClosed(refs: map<Node, nat>, ids: map<Node, nat>, n: Node, m: Node, k: Node)
    requires m in Region(refs, ids, n) && m !in ids && k in KidsOf(refs, m) && k.id < m.id
    ensures k in Region(refs, ids, n)
    decreases n.id
  {
    hide KidsOf, Region;
    RegionUnfold(refs, ids, n, m);
    RegionUnfold(refs, ids, n, k);
    if m == n {
      RegionUnfold(refs, ids, k, k);
    } else {
      var c :| c in KidsOf(refs, n) && c.id < n.id && m in Region(refs, ids, c);
      RegionClosed(refs, ids, c, m, k);
    }
  }

  /** The region is the least set that contains `n` and is closed under the shape
      edges of nodes without ids. */
  lemma {:induction false} RegionLeast(refs: map<Node, nat>, ids: map<Node, nat>, n: Node, s: set<Node>)
    requires n in s && forall m, k :: m in s && m !in ids && k in KidsOf(refs, m) ==> k in s
    ensures Region(refs, ids, n) <= s
    decreases n.id
  {
    hide KidsOf, Region;
    forall m | m in Region(refs, ids, n)
      ensures m in s
    {
      RegionUnfold(refs, ids, n, m);
      if m != n {
        var k :| k in KidsOf(refs, n) && k.id < n.id && m in Region(refs, ids, k);
        RegionLeast(refs, ids, k, s);
      }
    }
  }

  /** Every other node of the region is used by a node of the region. */
  lemma {:induction false} RegionParent(refs: map<Node, nat>, ids: map<Node, nat>, n: Node, m: Node) returns (q: Node)
    requires m in Region(refs, ids, n) && m != n
    ensures q in Region(refs, ids, n) && q !in ids && m in KidsOf(refs, q) && m.id < q.id
    decreases n.id
  {
    hide KidsOf, Region;
    RegionUnfold(refs, ids, n, m);
    RegionUnfold(refs, ids, n, n);
    var k :| k in KidsOf(refs, n) && k.id < n.id && m in Region(refs, ids, k);
    if m == k {
      q := n;
    } else {
      q := RegionParent(refs, ids, k, m);
      RegionUnfold(refs, ids, n, q);
    }
  }

  lemma {:induction false} RegionBelow(refs: map<Node, nat>, ids: map<Node, nat>, start: Node, n: Node, m: Node)
    requires Encodable(refs, start) && n in refs && Below(n, start) && m in Region(refs, ids, n)
    ensures m in refs && Below(m, start) && NodeOk(refs, m) && m.id <= n.id
    decreases n.id
  {
    hide KidsOf, Region, Below, Closed, Wf, NodeOk, Recognizable;
    RegionUnfold(refs, ids, n, m);
    NodesOk(refs, n);
    if m != n {
      var k :| k in KidsOf(refs, n) && k.id < n.id && m in Region(refs, ids, k);
      GraphEdge(refs, start, n, k);
      RegionBelow(refs, ids, start, k, m);
    }
  }

  lemma RegionFacts(refs: map<Node, nat>, ids: map<Node, nat>, start: Node, m: Node)
    requires Encodable(refs, start) && m in Region(refs, ids, start)
    ensures m in refs && Below(m, start) && NodeOk(refs, m) && m.id <= start.id && Wf(m)
  {
    hide Region, Below, Closed, Wf, NodeOk, Extractable;
    SelfBelow(start);
    RegionBelow(refs, ids, start, start, m);
  }

  // ---------------------------------------------------------------------------
  // Counting shape edges
  // ---------------------------------------------------------------------------

  /** The nodes that the listed nodes' shape edges lead to, with multiplicity. */
  ghost function Pushed(refs: map<Node, nat>, ps: seq<Node>): multiset<Node> {
    if ps == [] then multiset{} else Pushed(refs, ps[..|ps| - 1]) + multiset(KidsOf(refs, ps[|ps| - 1]))
  }

  lemma PushedSnoc(refs: map<Node, nat>, ps: seq<Node>, p: Node)
    ensures Pushed(refs, ps + [p]) == Pushed(refs, ps) + multiset(KidsOf(refs, p))
  {
    assert (ps + [p])[..|ps|] == ps;
  }

  ghost function Indices(s: seq<Node>, p: Node, n: Node): set<(Node, int)> {
    set i | 0 <= i < |s| && s[i] == n :: (p, i)
  }

  lemma {:induction false} CountIndices(s: seq<Node>, p: Node, n: Node)
    ensures |Indices(s, p, n)| == multiset(s)[n]
  {
    if s == [] {
      assert Indices(s, p, n) == {};
    } else {
      var k := |s| - 1;
      CountIndices(s[..k], p, n);
      assert s == s[..k] + [s[k]];
      assert multiset(s)[n] == multiset(s[..k])[n] + if s[k] == n then 1 else 0;
      if s[k] == n {
        assert Indices(s, p, n) == Indices(s[..k], p, n) + {(p, k)};
      } else {
        assert Indices(s, p, n) == Indices(s[..k], p, n);
      }
    }
  }

  /** Counting by list and counting edges is the same. */
  lemma {:induction false} PushedIsUses(refs: map<Node, nat>, ps: seq<Node>, n: Node)
    requires Distinct(ps)
    ensures Pushed(refs, ps)[n] == |Uses(refs, Elements(ps), n)|
  {
    hide KidsOf;
    if ps == [] {
      assert Uses(refs, Elements(ps), n) == {};
    } else {
      var k := |ps| - 1;
      var rest, last := ps[..k], ps[k];
      PushedIsUses(refs, rest, n);
      CountIndices(KidsOf(refs, last), last, n);
      UsesSplit(refs, rest, last, n);
      assert ps == rest + [last];
    }
  }

  lemma UsesSplit(refs: map<Node, nat>, rest: seq<Node>, last: Node, n: Node)
    requires last !in rest
    ensures |Uses(refs, Elements(rest + [last]), n)|
            == |Uses(refs, Elements(rest), n)| + |Indices(KidsOf(refs, last), last, n)|
  {
    hide KidsOf;
    var all, old', new' := Uses(refs, Elements(rest + [last]), n), Uses(refs, Elements(rest), n),
      Indices(KidsOf(refs, last), last, n);
    forall e
      ensures e in all <==> e in old' || e in new'
    {
      if e in all {
        assert e.0 in rest + [last];
      }
    }
    assert all == old' + new';
    assert old' !! new';
  }
}
