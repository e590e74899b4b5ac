/** The reference-counted, hash-consed store of And-Inverter Graphs. */
module AigManager {
  import opened AigLaws
  import opened AigNodes
  import opened AigTable

  /** Where a chain id is stored: in the head array or in a node's `next` field. */
  datatype Slot = Head(h: nat) | Link(n: Node)

  const UNIQUE_TABLE_LIMIT: nat := 0x4000_0000

  /** Operands in the order in which a conjunction stores them. */
  function Ordered(sorted: bool, l: Aig, r: Aig): (Aig, Aig) {
    if sorted && Rank(r) < Rank(l) then (r, l) else (l, r)
  }

  /** The node is the conjunction of exactly these operands, in this order. */
  predicate HasOperands(n: Node, l: Aig, r: Aig) {
    n.And? && n.left == l && n.right == r
  }

  ghost predicate IsConjNode(sorted: bool, n: Node, left: Aig, right: Aig) {
    var (l, r) := Ordered(sorted, left, right);
    HasOperands(n, l, r)
  }

  /** Node `x` is the complement of the exclusive or that a pair of operands
      stands for, built from nodes that exist. */
  ghost predicate IsXorNode(live: set<Node>, sorted: bool, l: Aig, r: Aig, x: Node)
    requires IsXorPair(l, r)
  {
    && x in live
    && exists p, q :: p in live && q in live
          && IsConjNode(sorted, p, l.node.left, Not(l.node.right))
          && IsConjNode(sorted, q, Not(l.node.left), l.node.right)
          && IsConjNode(sorted, x, Ref(p, true), Ref(q, true))
  }

  /** Exactly which handle the AND constructor returns, given the nodes that exist. */
  ghost predicate AndResult(live: set<Node>, sorted: bool, left: Aig, right: Aig, nextId: nat, res: Aig)
    requires WfAig(left) && WfAig(right)
  {
    var (l, r, o) := Normal(left, right);
    if o.Return? then res == o.result
    else if Contradictory(l, r) then res == False
    else if IsXorPair(l, r) && exists x :: IsXorNode(live, sorted, l, r, x) then
      res.Ref? && res.inverted && IsXorNode(live, sorted, l, r, res.node)
    else
      && res.Ref? && !res.inverted && IsConjNode(sorted, res.node, l, r)
      && (res.node in live || (res.node.id == nextId && forall n :: n in live ==> !IsConjNode(sorted, n, l, r)))
  }

  lemma ReturnResult(live: set<Node>, sorted: bool, left: Aig, right: Aig, nextId: nat, l: Aig, r: Aig, res: Aig)
    requires WfAig(left) && WfAig(right) && Normal(left, right) == (l, r, Return(res))
    ensures AndResult(live, sorted, left, right, nextId, res)
  {
  }

  lemma FalseResult(live: set<Node>, sorted: bool, left: Aig, right: Aig, nextId: nat, l: Aig, r: Aig, o: Outcome)
    requires WfAig(left) && WfAig(right) && Normal(left, right) == (l, r, o) && !o.Return? && Contradictory(l, r)
    ensures AndResult(live, sorted, left, right, nextId, False)
  {
  }

  lemma XorResult(live: set<Node>, sorted: bool, left: Aig, right: Aig, nextId: nat, l: Aig, r: Aig, o: Outcome,
                  x: Node)
    requires WfAig(left) && WfAig(right) && Normal(left, right) == (l, r, o) && !o.Return? && !Contradictory(l, r)
    requires IsXorPair(l, r) && IsXorNode(live, sorted, l, r, x)
    ensures AndResult(live, sorted, left, right, nextId, Ref(x, true))
  {
  }

  lemma NodeResult(live: set<Node>, sorted: bool, left: Aig, right: Aig, nextId: nat, l: Aig, r: Aig, o: Outcome,
                   n: Node)
    requires WfAig(left) && WfAig(right) && Normal(left, right) == (l, r, o) && !o.Return? && !Contradictory(l, r)
    requires IsXorPair(l, r) ==> forall x :: !IsXorNode(live, sorted, l, r, x)
    requires IsConjNode(sorted, n, l, r)
    requires n in live || (n.id == nextId && forall m :: m in live ==> !IsConjNode(sorted, m, l, r))
    ensures AndResult(live, sorted, left, right, nextId, Ref(n, false))
  {
  }

  /** The implicit normalization: on operands that stand for the exclusive or of
      `a` and `b`, if its complement was built from its two halves, that is
      what is returned, inverted. */
  lemma XorNormalized(live: set<Node>, sorted: bool, l: Aig, r: Aig, a: Aig, b: Aig, p: Node, q: Node, x: Node,
                      nextId: nat, res: Aig)
    requires WfAig(l) && WfAig(r) && Unrelated(l, r) && Unique(live, sorted)
    requires IsNegAnd(l) && HasOperands(l.node, a, b) && IsNegAnd(r) && HasOperands(r.node, Not(a), Not(b))
    requires p in live && q in live && x in live && p.id < q.id
    requires HasOperands(p, a, Not(b)) && HasOperands(q, Not(a), b) && HasOperands(x, Ref(p, true), Ref(q, true))
    requires sorted ==> Rank(a) < Rank(b)
    requires AndResult(live, sorted, l, r, nextId, res)
    ensures res == Ref(x, true)
  {
    hide TwoLevel, Contradictory, Unrelated;
    NoRuleIffUnrelated(l, r);
    NoPositives(l, r);
    assert IsXorPair(l, r);
    assert IsXorNode(live, sorted, l, r, x);
  }

  /** The exact result obeys the laws of the AND constructor. */
  lemma ResultObeysLaws(live: set<Node>, sorted: bool, left: Aig, right: Aig, nextId: nat, res: Aig)
    requires Lean(left) && Lean(right) && AndResult(live, sorted, left, right, nextId, res)
    ensures AndLaws(left, right, res)
  {
    hide TwoLevel, AndLaws, Contradictory, IsXorNode, IsConjNode;
    RulesObeyLaws(left, right, res);
  }

  /** Rewriting the operands does not change the result. */
  lemma SameResult(live: set<Node>, sorted: bool, l: Aig, r: Aig, l': Aig, r': Aig, nextId: nat, res: Aig)
    requires WfAig(l) && WfAig(r) && TwoLevel(l, r) == Retry(l', r')
    ensures WfAig(l') && WfAig(r')
    ensures AndResult(live, sorted, l, r, nextId, res) <==> AndResult(live, sorted, l', r', nextId, res)
  {
    hide TwoLevel, Contradictory, IsXorNode, IsConjNode;
    TwoLevelDecreases(l, r);
  }

  ghost function With(live: set<Node>, a: Aig): set<Node> {
    if a.Ref? then live + {a.node} else live
  }

  /** The AND constructor returns `res` on a store with these nodes, where `id` is
      larger than all their ids. */
  ghost predicate Conjoins(live: set<Node>, sorted: bool, l: Aig, r: Aig, id: nat, res: Aig) {
    WfAig(l) && WfAig(r) && (forall n :: n in live ==> n.id < id) && AndResult(live, sorted, l, r, id, res)
  }

  /** Three calls of the AND constructor: on `l1` and `r1`, on `l2` and `r2`, and
      on the complements of both results. */
  ghost predicate ThreeAnds(live: set<Node>, sorted: bool, l1: Aig, r1: Aig, l2: Aig, r2: Aig, res: Aig) {
    exists p, q, i, j, k ::
      && Conjoins(live, sorted, l1, r1, i, p)
      && Conjoins(With(live, p), sorted, l2, r2, j, q)
      && Conjoins(With(With(live, p), q), sorted, Not(p), Not(q), k, res)
  }

  // ---------------------------------------------------------------------------
  // Chains
  // ---------------------------------------------------------------------------

  lemma ChainFrame(head: nat, next: map<Node, nat>, lst: seq<Node>, c: Node, id: nat)
    requires ChainIs(head, next, lst) && c !in lst
    ensures ChainIs(head, next[c := id], lst)
  {
  }

  lemma ChainTail(head: nat, next: map<Node, nat>, lst: seq<Node>)
    requires ChainIs(head, next, lst) && lst != []
    ensures ChainIs(next[lst[0]], next, lst[1..])
  {
    forall i | 0 <= i < |lst| - 1
      ensures lst[1..][i] in next && next[lst[1..][i]] == FirstId(lst[1..][i + 1..])
    {
      assert lst[1..][i + 1..] == lst[i + 2..];
    }
  }

  lemma ChainCons(head: nat, next: map<Node, nat>, lst: seq<Node>, c: Node)
    requires ChainIs(head, next, lst) && c !in lst
    ensures ChainIs(c.id, next[c := head], [c] + lst)
  {
    var l, nx := [c] + lst, next[c := head];
    forall i | 0 <= i < |l|
      ensures l[i] in nx && nx[l[i]] == FirstId(l[i + 1..])
    {
      if i == 0 {
        assert l[1..] == lst;
      } else {
        assert l[i + 1..] == lst[i..];
      }
    }
  }

  /** Storing the id of a new node in the last slot of a chain appends it. */
  lemma ChainAppend(head: nat, next: map<Node, nat>, lst: seq<Node>, c: Node, head': nat, next': map<Node, nat>)
    requires ChainIs(head, next, lst) && Distinct(lst) && c !in lst
    requires lst == [] ==> head' == c.id && next' == next[c := 0]
    requires lst != [] ==> head' == head && next' == next[c := 0][lst[|lst| - 1] := c.id]
    ensures ChainIs(head', next', lst + [c]) && Distinct(lst + [c])
  {
    var l := lst + [c];
    forall i | 0 <= i < |l|
      ensures l[i] in next' && next'[l[i]] == FirstId(l[i + 1..])
    {
      if i < |lst| - 1 {
        assert l[i + 1..][0] == lst[i + 1..][0];
        assert lst[i] != lst[|lst| - 1];
      }
    }
  }

  ghost function Without(lst: seq<Node>, k: nat): seq<Node>
    requires k < |lst|
  {
    lst[..k] + lst[k + 1..]
  }

  lemma WithoutMembers(lst: seq<Node>, k: nat)
    requires Distinct(lst) && k < |lst|
    ensures forall n :: n in Without(lst, k) <==> n in lst && n != lst[k]
  {
    var l := Without(lst, k);
    forall n | n in lst && n != lst[k]
      ensures n in l
    {
      var i :| 0 <= i < |lst| && lst[i] == n;
      assert l[if i < k then i else i - 1] == n;
    }
  }

  lemma WithoutDistinct(lst: seq<Node>, k: nat)
    requires Distinct(lst) && k < |lst|
    ensures Distinct(Without(lst, k))
  {
    var l := Without(lst, k);
    forall i, j | 0 <= i < j < |l|
      ensures l[i] != l[j]
    {
      assert lst[if i < k then i else i + 1] != lst[if j < k then j else j + 1];
    }
  }

  /** Redirecting the slot before position `k` to the successor removes that node. */
  lemma ChainRemove(head: nat, next: map<Node, nat>, lst: seq<Node>, k: nat, head': nat, next': map<Node, nat>)
    requires ChainIs(head, next, lst) && Distinct(lst) && k < |lst|
    requires k == 0 ==> head' == next[lst[k]] && next' == next
    requires k > 0 ==> head' == head && next' == next[lst[k - 1] := next[lst[k]]]
    ensures ChainIs(head', next', Without(lst, k))
  {
    hide FirstId;
    var l := Without(lst, k);
    FirstOf(l);
    FirstOf(lst);
    FirstAfter(lst, k);
    forall i | 0 <= i < |l|
      ensures l[i] in next' && next'[l[i]] == FirstId(l[i + 1..])
    {
      var i' := if i < k then i else i + 1;
      assert l[i] == lst[i'];
      FirstAfter(l, i);
      FirstAfter(lst, i');
    }
  }

  lemma FirstOf(lst: seq<Node>)
    ensures FirstId(lst) == if lst == [] then 0 else lst[0].id
  {
  }

  lemma FirstAfter(lst: seq<Node>, i: nat)
    requires i < |lst|
    ensures FirstId(lst[i + 1..]) == if i + 1 < |lst| then lst[i + 1].id else 0
  {
  }

  // ---------------------------------------------------------------------------
  // Counters
  // ---------------------------------------------------------------------------

  lemma CountsInc(refs: map<Node, nat>, out: multiset<Node>, n: Node)
    requires CountsOk(refs, out) && n in refs
    ensures CountsOk(refs[n := refs[n] + 1], out + multiset{n})
    ensures refs[n := refs[n] + 1].Keys == refs.Keys
  {
  }

  lemma AddHandle(handles: multiset<Node>, edges: multiset<Node>, n: Node)
    ensures handles + edges + multiset{n} == handles + multiset{n} + edges
  {
  }

  lemma CountsNew(refs: map<Node, nat>, out: multiset<Node>, n: Node)
    requires CountsOk(refs, out) && n !in refs
    ensures CountsOk(refs[n := 1], out + multiset{n})
  {
  }

  /** The counters after entering conjunction `n` and taking a reference to it. */
  lemma InsertCounts(t: seq<Aig>, refs: map<Node, nat>, handles: multiset<Node>, n: Node)
    requires CountsOk(refs, handles + EdgesOf(t)) && n !in refs && n.And?
    requires n.left.Ref? && n.left.node in refs && n.right.Ref? && n.right.node in refs
    ensures var refs1 := refs[n := 1][n.left.node := refs[n.left.node] + 1];
            && n.right.node in refs1
            && CountsOk(refs1[n.right.node := refs1[n.right.node] + 1],
                        handles + multiset{n} + EdgesOf(t + [Ref(n, false)]))
            && refs1[n.right.node := refs1[n.right.node] + 1].Keys == refs.Keys + {n}
            && AndCount(t + [Ref(n, false)]) == AndCount(t) + 1
  {
    hide CountsOk, EdgesOf, AndCount, NodeEdges;
    var l, r, edges := n.left.node, n.right.node, EdgesOf(t);
    AppendEntry(t, Ref(n, false));
    EdgesOfEntry(Ref(n, false));
    CountsNew(refs, handles + edges, n);
    CountsInc(refs[n := 1], handles + edges + multiset{n}, l);
    CountsInc(refs[n := 1][l := refs[l] + 1], handles + edges + multiset{n} + multiset{l}, r);
    NewEdges(handles, edges, n, l, r);
  }

  lemma NewEdges(handles: multiset<Node>, edges: multiset<Node>, n: Node, l: Node, r: Node)
    ensures handles + edges + multiset{n} + multiset{l} + multiset{r}
            == handles + multiset{n} + (edges + (multiset{l} + multiset{r}))
  {
  }

  // ---------------------------------------------------------------------------
  // Entering a new node
  // ---------------------------------------------------------------------------

  lemma TableAppend(t: seq<Aig>, live: set<Node>, n: Node)
    requires TableOk(t, live) && n.id == |t|
    requires n.And? ==> n.left.Ref? && n.left.node in live && n.right.Ref? && n.right.node in live
    ensures n !in live && TableOk(t + [Ref(n, false)], live + {n})
  {
  }

  /** Looking up the first id of a list of live nodes. */
  lemma LookupFirst(t: seq<Aig>, live: set<Node>, lst: seq<Node>)
    requires TableOk(t, live) && (lst != [] ==> lst[0] in live)
    ensures FirstId(lst) < |t|
    ensures t[FirstId(lst)] == if lst == [] then False else Ref(lst[0], false)
  {
  }

  lemma LookupNext(t: seq<Aig>, live: set<Node>, next: map<Node, nat>, lst: seq<Node>, k: nat)
    requires TableOk(t, live) && ChainIs(FirstId(lst), next, lst) && k + 1 < |lst| && lst[k + 1] in live
    ensures lst[k] in next && next[lst[k]] < |t| && t[next[lst[k]]] == Ref(lst[k + 1], false)
  {
    assert lst[k + 1..][0] == lst[k + 1];
  }

  lemma UniqueAppend(live: set<Node>, sorted: bool, n: Node)
    requires Unique(live, sorted) && n.And?
    requires forall m :: m in live ==> !HasOperands(m, n.left, n.right)
    requires sorted ==> Rank(n.left) < Rank(n.right)
    ensures Unique(live + {n}, sorted)
  {
  }

  lemma BucketsAppend(live: set<Node>, buckets: seq<seq<Node>>, n: Node, h: nat)
    requires |buckets| > 0 && BucketsOk(live, buckets) && n !in live && n.And? && h == HashNode(n, |buckets|)
    ensures BucketsOk(live + {n}, buckets[h := buckets[h] + [n]])
  {
  }

  /** A new node is in no bucket, and no bucket lists a node of another one. */
  lemma Apart(t: seq<Aig>, live: set<Node>, buckets: seq<seq<Node>>, n: Node, h: nat)
    requires TableOk(t, live) && h < |buckets| && BucketsOk(live, buckets) && n.id == |t|
    ensures forall k :: 0 <= k < |buckets| ==> n !in buckets[k]
    ensures buckets[h] != [] ==>
              forall k :: 0 <= k < |buckets| && k != h ==> buckets[h][|buckets[h]| - 1] !in buckets[k]
  {
    if buckets[h] != [] {
      var last := buckets[h][|buckets[h]| - 1];
      assert last in buckets[h];
      forall k | 0 <= k < |buckets| && k != h
        ensures last !in buckets[k]
      {
      }
    }
  }

  lemma VarNotStored(live: set<Node>, buckets: seq<seq<Node>>, n: Node, sorted: bool)
    requires |buckets| > 0 && BucketsOk(live, buckets) && Unique(live, sorted) && n.Var?
    ensures BucketsOk(live + {n}, buckets) && Unique(live + {n}, sorted)
  {
  }

  lemma NewInput(live: set<Node>, inputs: set<Node>, sorted: bool, n: Node)
    requires AllReduced(live, sorted) && InputsKnown(live, inputs) && n.Var?
    ensures AllReduced(live + {n}, sorted) && InputsKnown(live + {n}, inputs + {n})
  {
    hide Reduced;
  }

  lemma NewConjunction(live: set<Node>, inputs: set<Node>, sorted: bool, n: Node)
    requires AllReduced(live, sorted) && InputsKnown(live, inputs) && n.And? && Reduced(sorted, n.left, n.right)
    ensures AllReduced(live + {n}, sorted) && InputsKnown(live + {n}, inputs)
  {
    hide Reduced;
  }

  lemma Fewer(live: set<Node>, inputs: set<Node>, sorted: bool, n: Node)
    requires AllReduced(live, sorted) && InputsKnown(live, inputs)
    ensures AllReduced(live - {n}, sorted) && InputsKnown(live - {n}, inputs)
  {
    hide Reduced;
  }

  /** The chains after a new node was stored in the last slot of chain `h`. */
  lemma ChainsAppend(chains: seq<nat>, next: map<Node, nat>, buckets: seq<seq<Node>>, n: Node, h: nat,
                     chains': seq<nat>, next': map<Node, nat>)
    requires ChainsOk(chains, next, buckets) && h < |chains|
    requires forall k :: 0 <= k < |buckets| ==> n !in buckets[k]
    requires buckets[h] != [] ==>
               forall k :: 0 <= k < |buckets| && k != h ==> buckets[h][|buckets[h]| - 1] !in buckets[k]
    requires buckets[h] == [] ==> chains' == chains[h := n.id] && next' == next[n := 0]
    requires buckets[h] != [] ==>
               chains' == chains && next' == next[n := 0][buckets[h][|buckets[h]| - 1] := n.id]
    ensures ChainsOk(chains', next', buckets[h := buckets[h] + [n]])
  {
    var buckets' := buckets[h := buckets[h] + [n]];
    forall k | 0 <= k < |chains'|
      ensures ChainIs(chains'[k], next', buckets'[k]) && Distinct(buckets'[k])
    {
      assert ChainIs(chains[k], next, buckets[k]) && Distinct(buckets[k]);
      if k == h {
        ChainAppend(chains[h], next, buckets[h], n, chains'[h], next');
      } else {
        ChainFrame(chains[k], next, buckets[k], n, 0);
        if buckets[h] != [] {
          ChainFrame(chains[k], next[n := 0], buckets[k], buckets[h][|buckets[h]| - 1], n.id);
        }
      }
    }
  }

  /** The slot that ends a chain with this content. */
  function EndSlot(h: nat, lst: seq<Node>): Slot {
    if lst == [] then Head(h) else Link(lst[|lst| - 1])
  }

  function StoreHead(chains: seq<nat>, slot: Slot, id: nat): seq<nat> {
    if slot.Head? && slot.h < |chains| then chains[slot.h := id] else chains
  }

  lemma StoreSize(chains: seq<nat>, slot: Slot, id: nat)
    ensures |StoreHead(chains, slot, id)| == |chains|
  {
  }

  function StoreLink(next: map<Node, nat>, slot: Slot, id: nat): map<Node, nat> {
    if slot.Link? then next[slot.n := id] else next
  }

  /** The unique table after conjunction `n` was entered at the end of its chain. */
  lemma InsertUnique(t: seq<Aig>, live: set<Node>, sorted: bool, chains: seq<nat>, next: map<Node, nat>,
                     buckets: seq<seq<Node>>, n: Node, h: nat, slot: Slot)
    requires TableOk(t, live) && |chains| == |buckets| > 0 && ChainsOk(chains, next, buckets)
    requires BucketsOk(live, buckets) && Unique(live, sorted)
    requires n.And? && n.id == |t| && n.left.Ref? && n.left.node in live && n.right.Ref? && n.right.node in live
    requires forall m :: m in live ==> !HasOperands(m, n.left, n.right)
    requires sorted ==> Rank(n.left) < Rank(n.right)
    requires h == HashNode(n, |buckets|) && slot == EndSlot(h, buckets[h])
    ensures n !in live && TableOk(t + [Ref(n, false)], live + {n}) && Unique(live + {n}, sorted)
    ensures var buckets' := buckets[h := buckets[h] + [n]];
            && BucketsOk(live + {n}, buckets')
            && ChainsOk(StoreHead(chains, slot, n.id), StoreLink(next[n := 0], slot, n.id), buckets')
  {
    hide TableOk, BucketsOk, Unique, AllReduced, InputsKnown, ChainsOk, HashIds;
    Apart(t, live, buckets, n, h);
    TableAppend(t, live, n);
    UniqueAppend(live, sorted, n);
    BucketsAppend(live, buckets, n, h);
    ChainsAppend(chains, next, buckets, n, h, StoreHead(chains, slot, n.id), StoreLink(next[n := 0], slot, n.id));
  }

  /** The chains built so far hold exactly the nodes in `done`, each where it hashes to. */
  ghost predicate Rehashed(chains: seq<nat>, next: map<Node, nat>, buckets: seq<seq<Node>>, done: set<Node>) {
    && |chains| == |buckets| > 0
    && ChainsOk(chains, next, buckets)
    && BucketsOk(done, buckets)
  }

  // ---------------------------------------------------------------------------
  // Deleting a node
  // ---------------------------------------------------------------------------

  lemma CountsDec(refs: map<Node, nat>, out: multiset<Node>, n: Node)
    requires CountsOk(refs, out) && n in refs && refs[n] > 1
    ensures CountsOk(refs[n := refs[n] - 1], out - multiset{n})
    ensures refs[n := refs[n] - 1].Keys == refs.Keys
  {
  }

  lemma CountsDrop(refs: map<Node, nat>, out: multiset<Node>, n: Node)
    requires CountsOk(refs, out) && n in refs && refs[n] == 1
    ensures CountsOk(refs - {n}, out - multiset{n}) && (refs - {n}).Keys == refs.Keys - {n}
    ensures n !in out - multiset{n}
  {
  }

  lemma StartRelease(handles: multiset<Node>, edges: multiset<Node>, n: Node)
    requires n in handles
    ensures handles - multiset{n} + edges + Hs([Ref(n, false)]) == handles + edges
  {
    assert [Ref(n, false)][..0] == [];
  }

  /** What a pending release says about the counters. */
  lemma TopIsLive(refs: map<Node, nat>, base: multiset<Node>, stack: seq<Aig>)
    requires stack != [] && stack[|stack| - 1].Ref? && CountsOk(refs, base + Hs(stack))
    ensures var n := stack[|stack| - 1].node;
            n in refs && refs[n] > 0 && base + Hs(stack) == base + Hs(stack[..|stack| - 1]) + multiset{n}
  {
  }

  lemma NoPending(base: multiset<Node>)
    ensures base + Hs([]) == base
  {
  }

  lemma PushTwo(v: seq<Aig>, a: Aig, b: Aig)
    ensures Hs(v + [a, b]) == Hs(v) + (H(b) + H(a))
  {
    var w := v + [a];
    assert v + [a, b] == w + [b];
    assert (w + [b])[..|w|] == w && w[..|v|] == v;
  }

  lemma MoveEdges(handles: multiset<Node>, edges: multiset<Node>, out: multiset<Node>, pending: multiset<Node>)
    ensures handles + (edges + out) + pending == handles + edges + (pending + out)
  {
  }

  lemma TableDelete(t: seq<Aig>, live: set<Node>, n: Node)
    requires TableOk(t, live) && n in live && n !in EdgesOf(t)
    ensures TableOk(t[n.id := False], live - {n})
  {
    hide EdgesOf;
    NoEdgeNoParent(t, live, n);
  }

  lemma UniqueDelete(live: set<Node>, sorted: bool, n: Node)
    requires Unique(live, sorted)
    ensures Unique(live - {n}, sorted)
  {
  }

  lemma VarNotListed(live: set<Node>, buckets: seq<seq<Node>>, n: Node)
    requires |buckets| > 0 && BucketsOk(live, buckets) && n.Var?
    ensures BucketsOk(live - {n}, buckets)
  {
  }

  /** Deleting a node turns its outgoing edges into pending releases. */
  lemma DeleteCounts(t: seq<Aig>, refs: map<Node, nat>, handles: multiset<Node>, rest: seq<Aig>, stack': seq<Aig>,
                     n: Node)
    requires TableOk(t, refs.Keys) && n in refs && refs[n] == 1
    requires CountsOk(refs, handles + EdgesOf(t) + Hs(rest) + multiset{n})
    requires n.And? ==> stack' == rest + [n.right, n.left]
    requires n.Var? ==> stack' == rest
    ensures n !in EdgesOf(t)
    ensures CountsOk(refs - {n}, handles + EdgesOf(t[n.id := False]) + Hs(stack'))
    ensures AndCount(t) == AndCount(t[n.id := False]) + if n.And? then 1 else 0
  {
    hide TableOk, CountsOk, EdgesOf, NodeEdges, Hs, AndCount;
    TableEntry(t, refs.Keys, n);
    var out := handles + EdgesOf(t) + Hs(rest);
    CountsDrop(refs, out + multiset{n}, n);
    assert out + multiset{n} - multiset{n} == out;
    ClearEdges(t, n.id);
    ClearCount(t, n.id);
    EdgesOfEntry(t[n.id]);
    MoveEdges(handles, EdgesOf(t[n.id := False]), NodeEdges(t[n.id]), Hs(rest));
    if n.And? {
      PushTwo(rest, n.right, n.left);
    } else {
      assert Hs(rest) + multiset{} == Hs(rest);
    }
  }

  lemma TableEntry(t: seq<Aig>, live: set<Node>, n: Node)
    requires TableOk(t, live) && n in live
    ensures 2 <= n.id < |t| && t[n.id] == Ref(n, false)
    ensures n.And? ==> n.left.Ref? && n.right.Ref?
  {
  }

  /** A list of distinct live conjunctions that all hash to `h`. */
  ghost predicate Hashed(live: set<Node>, lst: seq<Node>, size: nat, h: nat)
    requires size > 0
  {
    forall n :: n in lst ==> n in live && n.And? && HashNode(n, size) == h
  }

  lemma BucketFacts(live: set<Node>, buckets: seq<seq<Node>>, h: nat)
    requires h < |buckets| && BucketsOk(live, buckets)
    ensures Hashed(live, buckets[h], |buckets|, h)
    ensures forall n :: n in live && n.And? && HashNode(n, |buckets|) == h ==> n in buckets[h]
  {
  }

  /** What is left of chain `i` while it is being moved. */
  ghost predicate Remaining(live: set<Node>, next: map<Node, nat>, rest: seq<Node>, size: nat, i: nat)
    requires size > 0
  {
    Distinct(rest) && Hashed(live, rest, size, i) && ChainIs(FirstId(rest), next, rest)
  }

  /** The chains from `i` on are still as they were. */
  ghost predicate Pending(chains: seq<nat>, next: map<Node, nat>, buckets: seq<seq<Node>>, i: nat) {
    |chains| == |buckets| && forall h :: i <= h < |chains| ==> ChainIs(chains[h], next, buckets[h])
  }

  /** The nodes of the chains before `i`, and of chain `i` up to `rest`, are done. */
  ghost predicate DoneUpTo(done: set<Node>, live: set<Node>, rest: seq<Node>, size: nat, i: nat)
    requires size > 0
  {
    forall n :: n in done <==> n in live && n.And? && HashNode(n, size) <= i && n !in rest
  }

  lemma StartMove(chains: seq<nat>, next: map<Node, nat>, buckets: seq<seq<Node>>, newSize: nat)
    requires ChainsOk(chains, next, buckets) && newSize > 0
    ensures Pending(chains, next, buckets, 0)
    ensures Rehashed(seq(newSize, _ => 0), next, seq(newSize, _ => []), {})
  {
  }

  lemma BucketDistinct(chains: seq<nat>, next: map<Node, nat>, buckets: seq<seq<Node>>, i: nat)
    requires ChainsOk(chains, next, buckets) && i < |buckets|
    ensures Distinct(buckets[i])
  {
  }

  lemma StartChain(live: set<Node>, chains: seq<nat>, next: map<Node, nat>, buckets: seq<seq<Node>>, i: nat,
                   done: set<Node>)
    requires i < |buckets| && BucketsOk(live, buckets) && Pending(chains, next, buckets, i) && Distinct(buckets[i])
    requires if i == 0 then done == {} else DoneUpTo(done, live, [], |buckets|, i - 1)
    ensures Remaining(live, next, buckets[i], |buckets|, i) && Pending(chains, next, buckets, i + 1)
    ensures DoneUpTo(done, live, buckets[i], |buckets|, i) && chains[i] == FirstId(buckets[i])
    ensures buckets[i] != [] ==> buckets[i][0] in live
  {
    hide HashIds;
    BucketFacts(live, buckets, i);
  }

  lemma StepRest(live: set<Node>, next: map<Node, nat>, rest: seq<Node>, size: nat, i: nat, v: nat)
    requires size > 0 && rest != [] && Remaining(live, next, rest, size, i)
    ensures rest[0] in next && rest[0] in live && rest[0].And? && HashNode(rest[0], size) == i
    ensures next[rest[0]] == FirstId(rest[1..]) && (rest[1..] != [] ==> rest[1] in live)
    ensures Remaining(live, next[rest[0] := v], rest[1..], size, i)
  {
    hide HashIds;
    var c := rest[0];
    ChainTail(FirstId(rest), next, rest);
    assert c in rest && forall n :: n in rest[1..] ==> n in rest;
    ChainFrame(next[c], next, rest[1..], c, v);
  }

  lemma StepPending(live: set<Node>, chains: seq<nat>, next: map<Node, nat>, buckets: seq<seq<Node>>, i: nat,
                    c: Node, v: nat)
    requires i < |buckets| && BucketsOk(live, buckets) && Pending(chains, next, buckets, i + 1)
    requires HashNode(c, |buckets|) == i
    ensures Pending(chains, next[c := v], buckets, i + 1)
  {
    hide HashIds;
    forall k | i + 1 <= k < |chains|
      ensures ChainIs(chains[k], next[c := v], buckets[k])
    {
      BucketFacts(live, buckets, k);
      ChainFrame(chains[k], next, buckets[k], c, v);
    }
  }

  lemma StepDone(live: set<Node>, rest: seq<Node>, size: nat, i: nat, done: set<Node>)
    requires size > 0 && rest != [] && DoneUpTo(done, live, rest, size, i)
    requires rest[0] in live && rest[0].And? && HashNode(rest[0], size) == i && Distinct(rest)
    ensures rest[0] !in done && DoneUpTo(done + {rest[0]}, live, rest[1..], size, i)
  {
    hide HashIds;
    forall n
      ensures n in rest <==> n == rest[0] || n in rest[1..]
    {
      assert rest == [rest[0]] + rest[1..];
    }
  }

  /** The rest of the chain, and the later chains, survive the move of one node. */
  lemma StepChain(live: set<Node>, chains: seq<nat>, next: map<Node, nat>, buckets: seq<seq<Node>>, i: nat,
                  rest: seq<Node>, done: set<Node>, v: nat)
    requires i < |buckets| && BucketsOk(live, buckets) && Pending(chains, next, buckets, i + 1)
    requires rest != [] && Remaining(live, next, rest, |buckets|, i)
    requires DoneUpTo(done, live, rest, |buckets|, i)
    ensures rest[0] in next && rest[0] in live && rest[0].And? && rest[0] !in done
    ensures next[rest[0]] == FirstId(rest[1..]) && (rest[1..] != [] ==> rest[1] in live)
    ensures Remaining(live, next[rest[0] := v], rest[1..], |buckets|, i)
    ensures Pending(chains, next[rest[0] := v], buckets, i + 1)
    ensures DoneUpTo(done + {rest[0]}, live, rest[1..], |buckets|, i)
  {
    hide BucketsOk, Pending, DoneUpTo, HashIds, HashNode;
    StepRest(live, next, rest, |buckets|, i, v);
    StepPending(live, chains, next, buckets, i, rest[0], v);
    StepDone(live, rest, |buckets|, i, done);
  }

  lemma RehashedAll(chains: seq<nat>, next: map<Node, nat>, buckets: seq<seq<Node>>, done: set<Node>,
                 live: set<Node>, size: nat)
    requires Rehashed(chains, next, buckets, done) && size > 0 && DoneUpTo(done, live, [], size, size - 1)
    ensures ChainsOk(chains, next, buckets) && BucketsOk(live, buckets)
  {
  }

  /** Moving one node to the front of its new chain. */
  lemma MoveNode(chains: seq<nat>, next: map<Node, nat>, buckets: seq<seq<Node>>, done: set<Node>, c: Node, h: nat)
    requires Rehashed(chains, next, buckets, done) && c !in done && c.And? && h == HashNode(c, |buckets|)
    ensures Rehashed(chains[h := c.id], next[c := chains[h]], buckets[h := [c] + buckets[h]], done + {c})
  {
    var next', buckets', chains' := next[c := chains[h]], buckets[h := [c] + buckets[h]], chains[h := c.id];
    forall k | 0 <= k < |chains'|
      ensures ChainIs(chains'[k], next', buckets'[k]) && Distinct(buckets'[k])
    {
      assert ChainIs(chains[k], next, buckets[k]) && Distinct(buckets[k]) && c !in buckets[k];
      if k == h {
        ChainCons(chains[h], next, buckets[h], c);
      } else {
        ChainFrame(chains[k], next, buckets[k], c, chains[h]);
      }
    }
  }

  lemma ChainFacts(chains: seq<nat>, next: map<Node, nat>, buckets: seq<seq<Node>>, h: nat)
    requires ChainsOk(chains, next, buckets) && h < |buckets|
    ensures ChainIs(chains[h], next, buckets[h]) && chains[h] == FirstId(buckets[h])
  {
  }

  /** The unique table after the node at position `k` of chain `h` was unlinked. */
  lemma RemoveOne(chains: seq<nat>, next: map<Node, nat>, buckets: seq<seq<Node>>, live: set<Node>, h: nat, k: nat)
    requires ChainsOk(chains, next, buckets) && BucketsOk(live, buckets) && h < |buckets| && k < |buckets[h]|
    ensures var (n, lst) := (buckets[h][k], buckets[h]);
            && n in next && (k > 0 ==> lst[k - 1] in next)
            && var buckets' := buckets[h := Without(lst, k)];
            && BucketsOk(live - {n}, buckets')
            && (k == 0 ==> ChainsOk(chains[h := next[n]], next, buckets'))
            && (k > 0 ==> ChainsOk(chains, next[lst[k - 1] := next[n]], buckets'))
  {
    hide HashIds;
    var lst := buckets[h];
    var n := lst[k];
    var buckets' := buckets[h := Without(lst, k)];
    assert n in lst;
    BucketFacts(live, buckets, h);
    WithoutMembers(lst, k);
    WithoutDistinct(lst, k);
    var chains' := if k == 0 then chains[h := next[n]] else chains;
    var next' := if k == 0 then next else next[lst[k - 1] := next[n]];
    forall j | 0 <= j < |buckets'|
      ensures ChainIs(chains'[j], next', buckets'[j]) && Distinct(buckets'[j])
    {
      assert ChainIs(chains[j], next, buckets[j]) && Distinct(buckets[j]);
      if j == h {
        ChainRemove(chains[h], next, lst, k, chains'[h], next');
      } else if k > 0 {
        BucketFacts(live, buckets, j);
        assert lst[k - 1] in lst;
        ChainFrame(chains[j], next, buckets[j], lst[k - 1], next[n]);
      }
    }
  }

  lemma EmptyTable()
    ensures TableOk([False, True], {}) && CountsOk(map[], multiset{} + EdgesOf([False, True]))
    ensures AndCount([False, True]) == 0
  {
    AppendEntry([], False);
    AppendEntry([False], True);
    assert [] + [False] == [False] && [False] + [True] == [False, True];
  }

  lemma EmptyChains(sorted: bool)
    ensures ChainsOk([0], map[], [[]]) && BucketsOk({}, [[]]) && Unique({}, sorted)
    ensures AllReduced({}, sorted) && InputsKnown({}, {})
  {
  }

  lemma EdgeParent(t: seq<Aig>, live: set<Node>, i: nat, n: Node)
    requires TableOk(t, live) && i < |t| && n in NodeEdges(t[i])
    ensures t[i].Ref? && t[i].node in live && t[i].node.And? && n.id < t[i].node.id < |t|
    ensures t[i].node.left.Ref? && t[i].node.right.Ref?
    ensures n == t[i].node.left.node || n == t[i].node.right.node
  {
    assert t[i].Ref? ==> Wf(t[i].node);
  }

  /** The inputs that were ever handed out.  An object of its own, so that every
      operation that does not list it keeps it. */
  class Inputs {
    ghost var nodes: set<Node>

    ghost constructor ()
      ensures nodes == {}
    {
      nodes := {};
    }
  }

  class AigMgr {
    /** BTOR_OPT_SORT_AIG. */
    const sortAig: bool
    /** BTOR_OPT_SORT_AIGVEC, read by the vector layer. */
    const sortAigvec: bool

    var id2aig: seq<Aig>
    var refs: map<Node, nat>
    var next: map<Node, nat>
    var chains: seq<nat>
    var numElements: nat

    /** The handles given out and not yet released, with multiplicity. */
    ghost var handles: multiset<Node>
    /** The content of every chain. */
    ghost var buckets: seq<seq<Node>>
    ghost const inputs: Inputs

    /** The state is determined by `handles`: the counters are exactly the
        handles plus the parent edges of the live nodes, and the unique table
        lists exactly the live conjunctions.  All of them are irreducible. */
    ghost predicate Valid()
      reads this, inputs
    {
      && TableOk(id2aig, refs.Keys)
      && CountsOk(refs, handles + EdgesOf(id2aig))
      && |chains| == |buckets| > 0 && IsPow2(|chains|)
      && ChainsOk(chains, next, buckets)
      && BucketsOk(refs.Keys, buckets)
      && Unique(refs.Keys, sortAig) && AllReduced(refs.Keys, sortAig)
      && InputsKnown(refs.Keys, inputs.nodes)
      && numElements == AndCount(id2aig)
    }

    /** The handle may be used: it is constant or its node has not been deleted. */
    ghost predicate Live(a: Aig)
      reads this
    {
      a.Ref? ==> a.node in refs
    }

    /** The caller owns a reference to the handle, so no release of another
        reference can delete its node. */
    ghost predicate Held(a: Aig)
      reads this
    {
      H(a) <= handles
    }

    constructor (sortAig: bool, sortAigvec: bool)
      ensures Valid() && handles == multiset{} && refs == map[]
      ensures id2aig == [False, True] && |chains| == 1
      ensures this.sortAig == sortAig && this.sortAigvec == sortAigvec
      ensures fresh(inputs) && inputs.nodes == {}
    {
      hide TableOk, CountsOk, BucketsOk, Unique, AllReduced, InputsKnown, ChainsOk, EdgesOf, AndCount;
      this.sortAig, this.sortAigvec := sortAig, sortAigvec;
      id2aig, refs, next := [False, True], map[], map[];
      chains, numElements := [0], 0;
      handles, buckets := multiset{}, [[]];
      inputs := new Inputs();
      new;
      EmptyTable();
      EmptyChains(sortAig);
      assert refs.Keys == {};
    }

    // -------------------------------------------------------------------------
    // Lookups
    // -------------------------------------------------------------------------

    function GetById(id: nat): Aig
      requires id < |id2aig|
      reads this
    {
      id2aig[id]
    }

    /** The slot at the end of chain `h`. */
    ghost predicate LastSlot(h: nat, slot: Slot)
      reads this
    {
      h < |buckets| && slot == EndSlot(h, buckets[h])
    }

    /** What position `k` of chain `h` holds, and where the walk goes next. */
    lemma Hop(h: nat, k: nat)
      requires Valid() && h < |chains| && k < |buckets[h]|
      ensures var n := buckets[h][k];
              && n in refs && n.And? && n in next
              && next[n] < |id2aig| && id2aig[next[n]] == At(h, k + 1)
    {
      var lst := buckets[h];
      assert ChainIs(chains[h], next, lst);
      assert lst[k] in lst;
      if k + 1 < |lst| {
        assert lst[k + 1..][0] == lst[k + 1] && lst[k + 1] in lst;
      }
    }

    ghost function At(h: nat, k: nat): Aig
      reads this
    {
      if h < |buckets| && k < |buckets[h]| then Ref(buckets[h][k], false) else False
    }

    lemma FirstHop(h: nat)
      requires Valid() && h < |chains|
      ensures chains[h] < |id2aig| && id2aig[chains[h]] == At(h, 0)
    {
      assert ChainIs(chains[h], next, buckets[h]);
      assert buckets[h] != [] ==> buckets[h][0] in buckets[h];
    }

    /** A conjunction that is in no chain does not exist. */
    lemma NotInBucket(l: Aig, r: Aig, h: nat)
      requires Valid() && h == HashIds(Rank(l), Rank(r), |chains|)
      requires forall i :: 0 <= i < |buckets[h]| ==> !HasOperands(buckets[h][i], l, r)
      ensures forall n :: n in refs ==> !HasOperands(n, l, r)
    {
      forall n | n in refs && n.And?
        ensures !HasOperands(n, l, r)
      {
        assert n in buckets[HashNode(n, |buckets|)];
      }
    }

    /** Walks one chain.  Finds the unique live conjunction with these children,
        or the slot at which it has to be entered. */
    method FindAnd(left: Aig, right: Aig) returns (slot: Slot, cur: Aig)
      requires Valid() && left.Ref? && right.Ref? && Live(left) && Live(right)
      ensures cur != False ==>
                && cur.Ref? && !cur.inverted && Live(cur)
                && IsConjNode(sortAig, cur.node, left, right)
      ensures cur == False ==>
                && (forall n :: n in refs ==> !IsConjNode(sortAig, n, left, right))
                && var (l, r) := Ordered(sortAig, left, right);
                   LastSlot(HashIds(Rank(l), Rank(r), |chains|), slot)
    {
      hide TableOk, CountsOk, BucketsOk, Unique, AllReduced, InputsKnown, ChainsOk, HashIds, IsPow2, EdgesOf, AndCount;
      var (l, r) := Ordered(sortAig, left, right);
      var h := HashIds(Rank(l), Rank(r), |chains|);
      slot := Head(h);
      ghost var k := 0;
      FirstHop(h);
      cur := GetById(chains[h]);
      while cur != False
        invariant k <= |buckets[h]| && cur == At(h, k)
        invariant slot == if k == 0 then Head(h) else Link(buckets[h][k - 1])
        invariant forall i :: 0 <= i < k ==> !HasOperands(buckets[h][i], l, r)
        decreases |buckets[h]| - k
      {
        Hop(h, k);
        if cur.node.left == l && cur.node.right == r {
          return;
        }
        slot := Link(cur.node);
        cur := GetById(next[cur.node]);
        k := k + 1;
      }
      NotInBucket(l, r, h);
    }

    // -------------------------------------------------------------------------
    // References
    // -------------------------------------------------------------------------

    method Copy(a: Aig) returns (res: Aig)
      requires Valid() && Live(a)
      modifies `refs, `handles
      ensures Valid() && res == a && refs.Keys == old(refs.Keys)
      ensures handles == old(handles) + H(a)
    {
      if a.Ref? {
        CountsInc(refs, handles + EdgesOf(id2aig), a.node);
        AddHandle(handles, EdgesOf(id2aig), a.node);
        refs := refs[a.node := refs[a.node] + 1];
        handles := handles + multiset{a.node};
      }
      res := a;
    }

    method Store(slot: Slot, id: nat)
      requires slot.Head? ==> slot.h < |chains|
      modifies `chains, `next
      ensures chains == StoreHead(old(chains), slot, id)
      ensures next == StoreLink(old(next), slot, id)
    {
      match slot
      case Head(h) => chains := chains[h := id];
      case Link(n) => next := next[n := id];
    }

    // -------------------------------------------------------------------------
    // Variables and conjunctions
    // -------------------------------------------------------------------------

    /** Doubles the table and moves every node to the chain it now hashes to. */
    method Enlarge()
      requires Valid()
      modifies `chains, `next, `buckets
      ensures Valid() && |chains| == 2 * old(|chains|)
    {
      hide TableOk, CountsOk, BucketsOk, Unique, AllReduced, InputsKnown, ChainsOk, HashIds, EdgesOf, AndCount,
           NodeEdges, Rehashed, Remaining, Pending, DoneUpTo;
      var size := |chains|;
      var newSize := 2 * size;
      var newChains: seq<nat> := seq(newSize, _ => 0);
      ghost var newBuckets: seq<seq<Node>> := seq(newSize, _ => []);
      ghost var done := {};
      StartMove(chains, next, buckets, newSize);
      var i := 0;
      while i < size
        modifies `next
        invariant 0 <= i <= size && |newChains| == |newBuckets| == newSize
        invariant Rehashed(newChains, next, newBuckets, done) && Pending(chains, next, buckets, i)
        invariant if i == 0 then done == {} else DoneUpTo(done, refs.Keys, [], size, i - 1)
      {
        ghost var rest := buckets[i];
        BucketDistinct(chains, old(next), buckets, i);
        StartChain(refs.Keys, chains, next, buckets, i, done);
        LookupFirst(id2aig, refs.Keys, rest);
        var cur := GetById(chains[i]);
        while cur != False
          modifies `next
          invariant cur == if rest == [] then False else Ref(rest[0], false)
          invariant |newChains| == |newBuckets| == newSize
          invariant Rehashed(newChains, next, newBuckets, done) && Pending(chains, next, buckets, i + 1)
          invariant Remaining(refs.Keys, next, rest, size, i) && DoneUpTo(done, refs.Keys, rest, size, i)
          decreases |rest|
        {
          var c := cur.node;
          var h := HashNode(c, newSize);
          StepChain(refs.Keys, chains, next, buckets, i, rest, done, newChains[h]);
          LookupFirst(id2aig, refs.Keys, rest[1..]);
          MoveNode(newChains, next, newBuckets, done, c, h);
          cur := GetById(next[c]);
          next := next[c := newChains[h]];
          newChains := newChains[h := c.id];
          newBuckets := newBuckets[h := [c] + newBuckets[h]];
          done, rest := done + {c}, rest[1..];
        }
        i := i + 1;
      }
      RehashedAll(newChains, next, newBuckets, done, refs.Keys, size);
      chains, buckets := newChains, newBuckets;
    }

    /** A new input; its id was never used before. */
    method NewVar() returns (a: Aig)
      requires Valid()
      modifies this, inputs
      ensures Valid()
      ensures a == Ref(Var(old(|id2aig|)), false) && a.node !in old(refs)
      ensures inputs.nodes == old(inputs.nodes) + {a.node}
      ensures handles == old(handles) + H(a)
      ensures id2aig == old(id2aig) + [a] && refs.Keys == old(refs.Keys) + {a.node}
    {
      hide TableOk, CountsOk, BucketsOk, Unique, AllReduced, InputsKnown, ChainsOk, EdgesOf, AndCount, NodeEdges;
      var n := Var(|id2aig|);
      a := Ref(n, false);
      EdgesOfEntry(a);
      AppendEntry(id2aig, a);
      TableAppend(id2aig, refs.Keys, n);
      CountsNew(refs, handles + EdgesOf(id2aig), n);
      AddHandle(handles, EdgesOf(id2aig), n);
      VarNotStored(refs.Keys, buckets, n, sortAig);
      NewInput(refs.Keys, inputs.nodes, sortAig, n);
      inputs.nodes := inputs.nodes + {n};
      id2aig := id2aig + [a];
      refs := refs[n := 1];
      handles := handles + multiset{n};
      assert refs.Keys == old(refs.Keys) + {n};
      assert EdgesOf(id2aig) == EdgesOf(old(id2aig));
    }

    /** Enters a conjunction that is not yet in the table. */
    method Insert(left: Aig, right: Aig, slot: Slot) returns (res: Aig)
      requires Valid() && left.Ref? && right.Ref? && Live(left) && Live(right)
      requires forall n :: n in refs ==> !HasOperands(n, left, right)
      requires sortAig ==> Rank(left) < Rank(right)
      requires LastSlot(HashIds(Rank(left), Rank(right), |chains|), slot) && Reduced(sortAig, left, right)
      modifies this
      ensures Valid()
      ensures res == Ref(Node.And(old(|id2aig|), left, right), false) && res.node !in old(refs)
      ensures handles == old(handles) + H(res)
      ensures id2aig == old(id2aig) + [res] && refs.Keys == old(refs.Keys) + {res.node}
      ensures |chains| == old(|chains|) && numElements == old(numElements) + 1
    {
      hide Reduced, StoreHead, StoreLink, TableOk, CountsOk, BucketsOk, Unique, AllReduced, InputsKnown, ChainsOk,
           EdgesOf, AndCount, NodeEdges, HashIds, IsPow2;
      var n := Node.And(|id2aig|, left, right);
      res := Ref(n, false);
      ghost var h := HashNode(n, |buckets|);
      InsertUnique(id2aig, refs.Keys, sortAig, chains, next, buckets, n, h, slot);
      InsertCounts(id2aig, refs, handles, n);
      NewConjunction(refs.Keys, inputs.nodes, sortAig, n);

      var refs1 := refs[n := 1];
      refs1 := refs1[left.node := refs1[left.node] + 1];
      refs1 := refs1[right.node := refs1[right.node] + 1];
      next := next[n := 0];
      StoreSize(chains, slot, n.id);
      Store(slot, n.id);
      id2aig, refs, numElements := id2aig + [res], refs1, numElements + 1;
      handles, buckets := handles + multiset{n}, buckets[h := buckets[h] + [n]];
    }

    /** Live nodes with the same id are the same node. */
    lemma SameId(a: Aig, b: Aig)
      requires Valid() && Live(a) && Live(b) && a.Ref? && b.Ref?
      ensures a.node.id == b.node.id ==> a.node == b.node
    {
    }

    lemma LiveFacts()
      requires Valid()
      ensures Closed(refs.Keys)
      ensures forall n :: n in refs ==> Wf(n)
    {
    }

    /** No rule applies to the children of a live conjunction: they are unrelated,
        and with sorting on they do not even resolve in another order.  Within
        its budget, the search for a contradiction found none below them. */
    lemma LiveReduced(n: Node)
      requires Valid() && n in refs && n.And?
      ensures Lean(Ref(n, false)) && (Unrelated(n.left, n.right) || (sortAig && Unrelated(n.right, n.left)))
      ensures sortAig && IsNegAnd(n.left) && IsNegAnd(n.right) ==> !Resolves(n.left.node, n.right.node)
      ensures !ClashWithin(Positives(n.left) + Positives(n.right), 8, n.left, n.right)
              || (sortAig && !ClashWithin(Positives(n.right) + Positives(n.left), 8, n.right, n.left))
    {
      hide Valid, Irreducible, ClashWithin, Resolves, FoundResolving, Separate, Positives;
      LiveFacts();
      LiveReducible(n);
      ReducedChildren(n, sortAig);
      if sortAig && IsNegAnd(n.left) && IsNegAnd(n.right) {
        assert Closed(refs.Keys) && Within(refs.Keys, n.left) && Within(refs.Keys, n.right);
        LiveSorted(n.left.node);
        LiveSorted(n.right.node);
        SortedResolution(n.left.node, n.right.node);
      }
    }

    lemma LiveSorted(n: Node)
      requires Valid() && sortAig && n in refs && n.And?
      ensures Rank(n.left) < Rank(n.right)
    {
    }

    lemma LiveLean(a: Aig)
      requires Valid() && Live(a)
      ensures Lean(a)
    {
      hide Valid, Irreducible, Separate;
      LiveFacts();
      if IsAnd(a) {
        LiveReducible(a.node);
        ReducedChildren(a.node, sortAig);
      }
    }

    lemma LiveReducible(n: Node)
      requires Valid() && n in refs && n.And?
      ensures Reduced(sortAig, n.left, n.right)
    {
    }

    lemma UniqueNodes()
      requires Valid()
      ensures forall m, n, l, r ::
                m in refs && n in refs && IsConjNode(sortAig, m, l, r) && IsConjNode(sortAig, n, l, r) ==> m == n
    {
    }

    /** A live node that nobody holds has a live parent. */
    lemma LiveParent(n: Node) returns (p: Node)
      requires Valid() && n in refs && n !in handles
      ensures p in refs && p.And? && n.id < p.id < |id2aig|
      ensures p.left.Ref? && p.right.Ref? && (n == p.left.node || n == p.right.node)
    {
      hide EdgesOf, TableOk, BucketsOk, ChainsOk, Unique, AllReduced, InputsKnown, AndCount, IsPow2, NodeEdges;
      var i := EdgeHasParent(id2aig, n);
      EdgeParent(id2aig, refs.Keys, i, n);
      p := id2aig[i].node;
    }

    /** A node is live exactly when it can be reached from an outstanding handle. */
    lemma {:induction false} LiveIffReachable(n: Node)
      requires Valid()
      ensures n in refs <==> exists h :: h in handles && Below(n, h)
      decreases |id2aig| - n.id
    {
      hide Valid, Closed, Wf;
      if n in refs && n !in handles {
        var p := LiveParent(n);
        LiveIffReachable(p);
        var h :| h in handles && Below(p, h);
        BelowChild(p, h, n);
      }
      if h :| h in handles && Below(n, h) {
        LiveFacts();
        assert H(Ref(h, false)) <= handles;
        HeldIsLive(Ref(h, false));
        BelowClosed(refs.Keys, n, h);
      }
    }

    lemma HeldIsLive(a: Aig)
      requires Valid() && Held(a)
      ensures Live(a)
    {
    }

    // -------------------------------------------------------------------------
    // The AND constructor
    // -------------------------------------------------------------------------

    /** The implicit XOR normalization: if the conjunction of the operands is the
        complement of an exclusive or that is already in the table, finds it. */
    method FindXor(left: Aig, right: Aig) returns (res: Aig)
      requires Valid() && IsXorPair(left, right) && Live(left) && Live(right)
      ensures res.Ref? ==> Live(res)
      ensures res.Ref? ==> IsConj(Not(res), left, right)
      ensures res.Ref? ==> !res.inverted && IsXorNode(refs.Keys, sortAig, left, right, res.node)
      ensures !res.Ref? ==> res == False && forall x :: !IsXorNode(refs.Keys, sortAig, left, right, x)
    {
      LiveFacts();
      UniqueNodes();
      var a, b := left.node.left, left.node.right;
      res := False;
      var _, l := FindAnd(a, Not(b));
      if l != False {
        var _, r := FindAnd(Not(a), b);
        if r != False {
          var _, x := FindAnd(Not(l), Not(r));
          if x != False {
            res := x;
            forall env
              ensures Eval(env, Not(res)) == (Eval(env, left) && Eval(env, right))
            {
              XorPairMeaning(env, left, right);
              OperandsMeaning(env, l, a, Not(b));
              OperandsMeaning(env, r, Not(a), b);
              OperandsMeaning(env, x, Not(l), Not(r));
            }
          }
        }
      }
    }

    lemma OperandsMeaning(env: Env, res: Aig, left: Aig, right: Aig)
      requires res.Ref? && !res.inverted
      requires IsConjNode(sortAig, res.node, left, right)
      ensures Eval(env, res) == (Eval(env, left) && Eval(env, right))
      ensures Eval(env, Not(res)) == !Eval(env, res)
      ensures Eval(env, Not(left)) == !Eval(env, left)
      ensures Eval(env, Not(right)) == !Eval(env, right)
    {
      EvalNot(env, left);
      EvalNot(env, right);
    }

    /** Applies the two-level rules until one of them gives the result or none
        applies.  The operands keep standing for the conjunction asked for. */
    method Rewrite(left: Aig, right: Aig) returns (l: Aig, r: Aig, outcome: Outcome)
      requires Valid() && Live(left) && Live(right)
      ensures WfAig(left) && WfAig(right) && (l, r, outcome) == Normal(left, right)
      ensures outcome.Return? ==> Live(outcome.result) && IsConj(outcome.result, left, right)
      ensures !outcome.Return? ==>
                && Live(l) && Live(r) && SameConj(l, r, left, right)
                && l.Ref? && r.Ref? && l.node != r.node && TwoLevel(l, r) == NoRule
                && WfAig(l) && WfAig(r) && Unrelated(l, r)
    {
      hide TableOk, CountsOk, BucketsOk, Unique, AllReduced, InputsKnown, ChainsOk, HashIds, IsPow2, EdgesOf,
           AndCount, TwoLevel, Unrelated;
      LiveFacts();
      l, r := left, right;
      outcome := TwoLevel(l, r);
      TwoLevelDecreases(l, r);
      TwoLevelWithin(refs.Keys, l, r);
      OutcomeSound(l, r);
      while outcome.Retry?
        invariant Live(l) && Live(r) && outcome == TwoLevel(l, r)
        invariant OutcomeOk(left, right, outcome)
        invariant SameConj(l, r, left, right)
        invariant WfAig(l) && WfAig(r) && Normal(l, r) == Normal(left, right)
        invariant match outcome
                  case Return(a) => Live(a)
                  case Retry(l', r') => Live(l') && Live(r') && Rank(l') + Rank(r') < Rank(l) + Rank(r)
                  case NoRule => l.Ref? && r.Ref? && l.node != r.node
        decreases Rank(l) + Rank(r)
      {
        l, r := outcome.left, outcome.right;
        outcome := TwoLevel(l, r);
        TwoLevelDecreases(l, r);
        TwoLevelWithin(refs.Keys, l, r);
        OutcomeSound(l, r);
        OutcomeTransfer(l, r, left, right, outcome);
      }
      NoRuleIffUnrelated(l, r);
    }

    lemma OperandsConj(res: Aig, left: Aig, right: Aig)
      requires res.Ref? && !res.inverted
      requires IsConjNode(sortAig, res.node, left, right)
      ensures IsConj(res, left, right)
    {
    }

    /** Hash-consing: the conjunction of these operands if it exists, else a new one. */
    method FindOrInsert(l: Aig, r: Aig) returns (res: Aig)
      requires Valid() && Live(l) && Live(r) && l.Ref? && r.Ref? && l.node != r.node && Irreducible(l, r)
      modifies this
      ensures Valid()
      ensures handles == old(handles) + H(res)
      ensures res.Ref? && !res.inverted && IsConjNode(sortAig, res.node, l, r)
      ensures res.node in old(refs) || (res.node.id == old(|id2aig|) &&
                forall n :: n in old(refs) ==> !IsConjNode(sortAig, n, l, r))
      ensures forall n :: n in refs <==> n in old(refs) || n == res.node
      ensures |chains| == if res.node !in old(refs) && old(numElements) == old(|chains|) < UNIQUE_TABLE_LIMIT
                          then 2 * old(|chains|) else old(|chains|)
    {
      hide TwoLevel, Contradictory, TableOk, CountsOk, BucketsOk, Unique, AllReduced, InputsKnown, ChainsOk, HashIds,
           IsPow2, EdgesOf, AndCount;
      var slot, cur := FindAnd(l, r);
      if cur == False {
        if numElements == |chains| && |chains| < UNIQUE_TABLE_LIMIT {
          Enlarge();
          slot, cur := FindAnd(l, r);
        }
        SameId(l, r);
        var (l', r') := Ordered(sortAig, l, r);
        assert Reduced(sortAig, l', r');
        res := Insert(l', r', slot);
      } else {
        res := Copy(cur);
      }
    }

    /** The AND constructor, with exactly which handle it returns. */
    method AndExact(left: Aig, right: Aig) returns (res: Aig)
      requires Valid() && Held(left) && Held(right)
      modifies this
      ensures Valid()
      ensures handles == old(handles) + H(res)
      ensures IsConj(res, left, right)
      ensures WfAig(left) && WfAig(right)
      ensures AndResult(old(refs.Keys), sortAig, left, right, old(|id2aig|), res)
      ensures AndLaws(left, right, res)
      ensures forall n :: n in refs <==> n in old(refs) || (res.Ref? && n == res.node)
    {
      hide TableOk, CountsOk, BucketsOk, Unique, AllReduced, InputsKnown, ChainsOk, HashIds, IsPow2, EdgesOf, AndCount,
        IsConj, SameConj, Contradictory, IsXorNode, IsXorPair, IsConjNode, Normal, TwoLevel, Wf, Valid, Eval,
        AndResult, Unrelated, AndLaws, Lean;
      HeldIsLive(left);
      HeldIsLive(right);
      LiveLean(left);
      LiveLean(right);
      ghost var live, nextId := refs.Keys, |id2aig|;
      var l, r, outcome := Rewrite(left, right);
      if outcome.Return? {
        ReturnResult(refs.Keys, sortAig, left, right, |id2aig|, l, r, outcome.result);
        res := Copy(outcome.result);
      } else if Contradictory(l, r) {
        FalseResult(refs.Keys, sortAig, left, right, |id2aig|, l, r, outcome);
        ContradictionSound(l, r);
        ConjTransfer(False, l, r, left, right);
        res := False;
      } else {
        var x := False;
        if IsXorPair(l, r) {
          x := FindXor(l, r);
        }
        if x != False {
          ConjTransfer(Not(x), l, r, left, right);
          XorResult(refs.Keys, sortAig, left, right, |id2aig|, l, r, outcome, x.node);
          res := Copy(Not(x));
        } else {
          res := FindOrInsert(l, r);
          OperandsConj(res, l, r);
          ConjTransfer(res, l, r, left, right);
          NodeResult(old(refs.Keys), sortAig, left, right, old(|id2aig|), l, r, outcome, res.node);
        }
      }
      ResultObeysLaws(live, sortAig, left, right, nextId, res);
    }

    lemma ConjoinsNow(left: Aig, right: Aig, live: set<Node>, id: nat, res: Aig)
      requires forall n :: n in live ==> n.id < id
      requires WfAig(left) && WfAig(right) && AndResult(live, sortAig, left, right, id, res)
      requires forall n :: n in refs <==> n in live || (res.Ref? && n == res.node)
      ensures Conjoins(live, sortAig, left, right, id, res) && refs.Keys == With(live, res)
    {
      hide AndResult, Wf;
    }

    lemma IdsBelow()
      requires Valid()
      ensures forall n :: n in refs ==> n.id < |id2aig|
    {
    }

    /** Conjunction of two handles; the caller receives one new reference. */
    method And(left: Aig, right: Aig) returns (res: Aig)
      requires Valid() && Held(left) && Held(right)
      modifies this
      ensures Valid()
      ensures handles == old(handles) + H(res)
      ensures IsConj(res, left, right) && AndLaws(left, right, res)
      ensures Conjoins(old(refs.Keys), sortAig, left, right, old(|id2aig|), res)
      ensures refs.Keys == With(old(refs.Keys), res)
    {
      hide Valid, IsConj, AndResult, AndLaws, WfAig, Conjoins, With;
      ghost var live, id := refs.Keys, |id2aig|;
      IdsBelow();
      res := AndExact(left, right);
      ConjoinsNow(left, right, live, id, res);
    }

    /** Disjunction: the complement of the conjunction of the complements. */
    method Or(left: Aig, right: Aig) returns (res: Aig)
      requires Valid() && Held(left) && Held(right)
      modifies this
      ensures Valid()
      ensures handles == old(handles) + H(res)
      ensures IsDisj(res, left, right)
      ensures Conjoins(old(refs.Keys), sortAig, Not(left), Not(right), old(|id2aig|), Not(res))
      ensures refs.Keys == With(old(refs.Keys), res)
    {
      hide Valid, IsConj, IsDisj, H, AndLaws, Conjoins, With;
      HOfNot(left);
      HOfNot(right);
      res := And(Not(left), Not(right));
      HOfNot(res);
      WithNot(old(refs.Keys), res);
      DeMorgan(res, left, right);
      res := Not(res);
    }

    lemma WithNot(live: set<Node>, a: Aig)
      ensures With(live, Not(a)) == With(live, a) && Not(Not(a)) == a
    {
    }

    // -------------------------------------------------------------------------
    // Release
    // -------------------------------------------------------------------------

    /** Unlinks a conjunction from its chain. */
    method DeleteEntry(n: Node)
      requires TableOk(id2aig, refs.Keys) && |chains| == |buckets| > 0
      requires ChainsOk(chains, next, buckets) && BucketsOk(refs.Keys, buckets)
      requires n in refs && n.And? && numElements > 0
      modifies `chains, `next, `buckets, `numElements
      ensures |chains| == |buckets| == old(|chains|) && ChainsOk(chains, next, buckets)
      ensures BucketsOk(refs.Keys - {n}, buckets)
      ensures numElements == old(numElements) - 1
    {
      hide TableOk, ChainsOk, BucketsOk, HashIds, HashNode, ChainIs, Without, Distinct, FirstId, Closed, Wf;
      var h := HashNode(n, |chains|);
      BucketFacts(refs.Keys, buckets, h);
      ghost var lst := buckets[h];
      ghost var k := 0;
      ghost var goal :| 0 <= goal < |lst| && lst[goal] == n;
      ChainFacts(chains, next, buckets, h);
      LookupFirst(id2aig, refs.Keys, lst);
      var prev := False;
      var cur := GetById(chains[h]);
      while cur != Ref(n, false)
        modifies {}
        invariant k <= goal && cur == Ref(lst[k], false)
        invariant prev == if k == 0 then False else Ref(lst[k - 1], false)
        decreases goal - k
      {
        assert lst[k + 1] in lst;
        LookupNext(id2aig, refs.Keys, next, lst, k);
        prev := cur;
        cur := GetById(next[cur.node]);
        k := k + 1;
      }
      RemoveOne(chains, next, buckets, refs.Keys, h, k);
      if prev == False {
        chains := chains[h := next[cur.node]];
      } else {
        next := next[prev.node := next[cur.node]];
      }
      numElements := numElements - 1;
      buckets := buckets[h := Without(lst, k)];
    }

    /** The invariant while the handles on `stack` wait to be released. */
    ghost predicate Releasing(stack: seq<Aig>)
      reads this, inputs
    {
      && TableOk(id2aig, refs.Keys)
      && CountsOk(refs, handles + EdgesOf(id2aig) + Hs(stack))
      && |chains| == |buckets| > 0 && IsPow2(|chains|)
      && ChainsOk(chains, next, buckets)
      && BucketsOk(refs.Keys, buckets)
      && Unique(refs.Keys, sortAig) && AllReduced(refs.Keys, sortAig)
      && InputsKnown(refs.Keys, inputs.nodes)
      && numElements == AndCount(id2aig)
      && forall i :: 0 <= i < |stack| ==> stack[i].Ref?
    }

    /** Deletes the node whose last reference is on top of the stack; the
        references to its children become pending. */
    method DeleteNode(n: Node, ghost stack: seq<Aig>)
      requires Releasing(stack) && stack != [] && stack[|stack| - 1].node == n && n in refs && refs[n] == 1
      modifies `id2aig, `refs, `chains, `next, `buckets, `numElements
      ensures var rest := stack[..|stack| - 1];
              Releasing(if n.And? then rest + [n.right, n.left] else rest)
      ensures |refs| < old(|refs|) && |id2aig| == old(|id2aig|)
    {
      hide TableOk, CountsOk, BucketsOk, Unique, AllReduced, InputsKnown, ChainsOk, HashIds, IsPow2, EdgesOf,
           AndCount, NodeEdges, Hs;
      ghost var rest := stack[..|stack| - 1];
      ghost var stack' := if n.And? then rest + [n.right, n.left] else rest;
      TopIsLive(refs, handles + EdgesOf(id2aig), stack);
      TableEntry(id2aig, refs.Keys, n);
      DeleteCounts(id2aig, refs, handles, rest, stack', n);
      TableDelete(id2aig, refs.Keys, n);
      UniqueDelete(refs.Keys, sortAig, n);
      Fewer(refs.Keys, inputs.nodes, sortAig, n);
      if n.And? {
        DeleteEntry(n);
      } else {
        VarNotListed(refs.Keys, buckets, n);
      }
      id2aig, refs := id2aig[n.id := False], refs - {n};
      assert |refs.Keys| < |old(refs).Keys|;
    }

    /** Gives one reference back.  Nodes that lose their last reference are
        deleted, and with them the references to their children. */
    method Release(a: Aig)
      requires Valid() && Held(a)
      modifies this
      ensures Valid()
      ensures handles == old(handles) - H(a)
      ensures |id2aig| == old(|id2aig|)
    {
      hide TableOk, CountsOk, BucketsOk, Unique, AllReduced, InputsKnown, ChainsOk, HashIds, IsPow2, EdgesOf,
           AndCount, NodeEdges, Hs;
      if a.Ref? {
        var stack := [Ref(a.node, false)];
        StartRelease(handles, EdgesOf(id2aig), a.node);
        handles := handles - multiset{a.node};
        while stack != []
          invariant Releasing(stack) && handles == old(handles) - H(a)
          invariant |id2aig| == old(|id2aig|)
          decreases |refs|, |stack|
        {
          var n := stack[|stack| - 1].node;
          TopIsLive(refs, handles + EdgesOf(id2aig), stack);
          ghost var out, stack0 := handles + EdgesOf(id2aig) + Hs(stack), stack;
          stack := stack[..|stack| - 1];
          if refs[n] > 1 {
            CountsDec(refs, out, n);
            assert out - multiset{n} == handles + EdgesOf(id2aig) + Hs(stack);
            refs := refs[n := refs[n] - 1];
          } else {
            DeleteNode(n, stack0);
            if n.And? {
              stack := stack + [n.right, n.left];
            }
          }
        }
        NoPending(handles + EdgesOf(id2aig));
      }
    }

    // -------------------------------------------------------------------------
    // Derived constructors
    // -------------------------------------------------------------------------

    /** The complement, with a reference of its own. */
    method Negate(a: Aig) returns (res: Aig)
      requires Valid() && Held(a)
      modifies this
      ensures Valid()
      ensures handles == old(handles) + H(res)
      ensures res == Not(a)
    {
      hide Valid;
      HeldIsLive(a);
      var c := Copy(a);
      res := Not(c);
    }

    method Eq(left: Aig, right: Aig) returns (eq: Aig)
      requires Valid() && Held(left) && Held(right)
      modifies this
      ensures Valid()
      ensures handles == old(handles) + H(eq)
      ensures IsEquiv(eq, left, right)
      ensures ThreeAnds(old(refs.Keys), sortAig, left, Not(right), Not(left), right, eq)
    {
      hide Valid, IsConj, IsEquiv, H, AndLaws, Conjoins, With, ThreeAnds;
      HOfNot(left);
      HOfNot(right);
      ghost var live, i := refs.Keys, |id2aig|;
      var p := And(left, Not(right));
      HOfNot(p);
      var eqLeft := Not(p);
      ghost var j := |id2aig|;
      var q := And(Not(left), right);
      HOfNot(q);
      var eqRight := Not(q);
      ghost var k := |id2aig|;
      eq := And(eqLeft, eqRight);
      ThreeInRow(live, left, Not(right), Not(left), right, p, q, eq, i, j, k);
      Settle2(old(handles), H(p), H(q), H(eq));
      Release(eqLeft);
      Release(eqRight);
      EquivMeaning(eq, p, q, left, right);
    }

    lemma ThreeInRow(live: set<Node>, l1: Aig, r1: Aig, l2: Aig, r2: Aig, p: Aig, q: Aig, res: Aig,
                     i: nat, j: nat, k: nat)
      requires Conjoins(live, sortAig, l1, r1, i, p) && Conjoins(With(live, p), sortAig, l2, r2, j, q)
      requires Conjoins(With(With(live, p), q), sortAig, Not(p), Not(q), k, res)
      ensures ThreeAnds(live, sortAig, l1, r1, l2, r2, res)
    {
    }

    method Cond(c: Aig, t: Aig, e: Aig) returns (res: Aig)
      requires Valid() && Held(c) && Held(t) && Held(e)
      modifies this
      ensures Valid()
      ensures handles == old(handles) + H(res)
      ensures IsIte(res, c, t, e)
      ensures ThreeAnds(old(refs.Keys), sortAig, t, c, e, Not(c), Not(res))
    {
      hide Valid, IsConj, IsDisj, IsIte, H, AndLaws, Conjoins, With, ThreeAnds;
      HOfNot(c);
      ghost var live, i := refs.Keys, |id2aig|;
      var and1 := And(t, c);
      ghost var j := |id2aig|;
      var and2 := And(e, Not(c));
      ghost var k := |id2aig|;
      res := Or(and1, and2);
      ThreeInRow(live, t, c, e, Not(c), and1, and2, Not(res), i, j, k);
      Settle2(old(handles), H(and1), H(and2), H(res));
      Release(and1);
      Release(and2);
      IteMeaning(res, and1, and2, c, t, e);
    }
  }
}
