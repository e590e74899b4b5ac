/** The data invariants of the AIG store, as predicates over plain values:
    the id table, the reference counts and the unique table with its chains. */
module AigTable {
  import opened AigNodes

  // ---------------------------------------------------------------------------
  // Id table
  // ---------------------------------------------------------------------------

  /** `id2aig`: the constants first, then every live node at its own id; a
      deleted entry is the null pointer, which is the handle False. */
  ghost predicate TableOk(t: seq<Aig>, live: set<Node>) {
    && |t| >= 2 && t[0] == False && t[1] == True
    && (forall n :: n in live ==> 2 <= n.id < |t| && t[n.id] == Ref(n, false) && Wf(n))
    && (forall i :: 2 <= i < |t| && t[i] != False ==>
          t[i].Ref? && !t[i].inverted && t[i].node in live && t[i].node.id == i)
    && Closed(live)
  }

  // ---------------------------------------------------------------------------
  // Reference counts
  // ---------------------------------------------------------------------------

  /** The node a handle refers to, as a multiset (constants are not counted). */
  ghost function H(a: Aig): multiset<Node> {
    if a.Ref? then multiset{a.node} else multiset{}
  }

  lemma HOfNot(a: Aig)
    ensures H(Not(a)) == H(a)
  {
  }

  /** Taking back the two inner references leaves the outer ones. */
  lemma Settle2(s: multiset<Node>, p: multiset<Node>, q: multiset<Node>, r: multiset<Node>)
    ensures s + p + q + r - p - q == s + r
    ensures p <= s + p + q + r && q <= s + p + q + r - p
  {
  }

  /** The nodes a sequence of handles refers to. */
  ghost function Hs(v: seq<Aig>): multiset<Node> {
    if v == [] then multiset{} else Hs(v[..|v| - 1]) + H(v[|v| - 1])
  }

  lemma HOfConst()
    ensures H(False) == multiset{} && H(True) == multiset{}
  {
  }

  lemma HsNil()
    ensures Hs([]) == multiset{}
  {
  }

  /** The parent edges leaving one table entry. */
  ghost function NodeEdges(a: Aig): multiset<Node> {
    if IsAnd(a) then H(a.node.left) + H(a.node.right) else multiset{}
  }

  /** All parent edges of the table. */
  ghost function EdgesOf(t: seq<Aig>): multiset<Node> {
    if t == [] then multiset{} else EdgesOf(t[..|t| - 1]) + NodeEdges(t[|t| - 1])
  }

  /** The number of conjunctions in the table. */
  ghost function AndCount(t: seq<Aig>): nat {
    if t == [] then 0 else AndCount(t[..|t| - 1]) + if IsAnd(t[|t| - 1]) then 1 else 0
  }

  /** The counters are exactly the multiplicities of `out`. */
  ghost predicate CountsOk(refs: map<Node, nat>, out: multiset<Node>) {
    && (forall n :: n in refs <==> n in out)
    && (forall n :: n in refs ==> refs[n] == out[n])
  }

  /** Only conjunctions have outgoing edges. */
  lemma EdgesOfEntry(a: Aig)
    ensures NodeEdges(a) == if IsAnd(a) then H(a.node.left) + H(a.node.right) else multiset{}
  {
  }

  lemma {:induction false} ClearEdges(t: seq<Aig>, i: nat)
    requires i < |t|
    ensures EdgesOf(t) == EdgesOf(t[i := False]) + NodeEdges(t[i])
  {
    hide NodeEdges;
    EdgesOfEntry(False);
    var u, last := t[i := False], |t| - 1;
    var t', u' := t[..last], u[..last];
    if i == last {
      assert u' == t';
    } else {
      assert u' == t'[i := False];
      ClearEdges(t', i);
      MoveLast(EdgesOf(u'), NodeEdges(t[i]), NodeEdges(t[last]));
    }
  }

  lemma MoveLast(a: multiset<Node>, b: multiset<Node>, c: multiset<Node>)
    ensures a + b + c == a + c + b
  {
  }

  lemma {:induction false} ClearCount(t: seq<Aig>, i: nat)
    requires i < |t|
    ensures AndCount(t) == AndCount(t[i := False]) + if IsAnd(t[i]) then 1 else 0
  {
    var u, last := t[i := False], |t| - 1;
    if i == last {
      assert u[..last] == t[..last];
    } else {
      assert u[..last] == t[..last][i := False];
      ClearCount(t[..last], i);
    }
  }

  /** A node is counted as an edge only if some entry has it as a child. */
  lemma {:induction false} EdgeHasParent(t: seq<Aig>, c: Node) returns (i: nat)
    requires c in EdgesOf(t)
    ensures i < |t| && c in NodeEdges(t[i])
  {
    hide NodeEdges;
    i := |t| - 1;
    if c !in NodeEdges(t[i]) {
      i := EdgeHasParent(t[..i], c);
    }
  }

  /** Every child of an entry is counted as an edge. */
  lemma {:induction false} ChildIsEdge(t: seq<Aig>, i: nat, c: Node)
    requires i < |t| && c in NodeEdges(t[i])
    ensures c in EdgesOf(t)
  {
    hide NodeEdges;
    if i < |t| - 1 {
      ChildIsEdge(t[..|t| - 1], i, c);
    }
  }

  lemma AppendEntry(t: seq<Aig>, a: Aig)
    ensures EdgesOf(t + [a]) == EdgesOf(t) + NodeEdges(a)
    ensures AndCount(t + [a]) == AndCount(t) + if IsAnd(a) then 1 else 0
  {
    assert (t + [a])[..|t|] == t;
  }

  /** A node without incoming edges is no child of any live conjunction. */
  lemma NoEdgeNoParent(t: seq<Aig>, live: set<Node>, c: Node)
    requires TableOk(t, live) && c !in EdgesOf(t)
    ensures forall p :: p in live && p.And? ==> p.left.node != c && p.right.node != c
  {
    forall p | p in live && p.And?
      ensures p.left.node != c && p.right.node != c
    {
      if c in NodeEdges(t[p.id]) {
        ChildIsEdge(t, p.id, c);
      }
    }
  }

  // ---------------------------------------------------------------------------
  // Unique table
  // ---------------------------------------------------------------------------

  const U32: nat := 0x1_0000_0000

  predicate IsPow2(n: nat) {
    n == 1 || (n > 0 && n % 2 == 0 && IsPow2(n / 2))
  }

  /** Multiplicative hashing in 32-bit arithmetic.  `size` is a power of two,
      so masking with `size - 1` is the remainder. */
  function HashIds(id0: nat, id1: nat, size: nat): (h: nat)
    requires size > 0
    ensures h < size
  {
    ((547789289 * id0 + 786695309 * id1) % U32 * 2000000137) % U32 % size
  }

  function HashNode(n: Node, size: nat): (h: nat)
    requires size > 0
    ensures h < size
  {
    if n.And? then HashIds(Rank(n.left), Rank(n.right), size) else 0
  }

  /** `lst` is the chain that starts at id `head` and follows `next`; id 0 ends it. */
  ghost predicate ChainIs(head: nat, next: map<Node, nat>, lst: seq<Node>) {
    && head == FirstId(lst)
    && (forall i :: 0 <= i < |lst| ==> lst[i] in next && next[lst[i]] == FirstId(lst[i + 1..]))
  }

  ghost function FirstId(lst: seq<Node>): nat {
    if lst == [] then 0 else lst[0].id
  }

  ghost predicate Distinct(lst: seq<Node>) {
    forall i, j :: 0 <= i < j < |lst| ==> lst[i] != lst[j]
  }

  ghost function Elements(s: seq<Node>): set<Node> {
    set n | n in s
  }

  /** Every chain is well linked and lists no node twice. */
  ghost predicate ChainsOk(chains: seq<nat>, next: map<Node, nat>, buckets: seq<seq<Node>>) {
    && |chains| == |buckets| && |chains| > 0
    && (forall h :: 0 <= h < |chains| ==> ChainIs(chains[h], next, buckets[h]) && Distinct(buckets[h]))
  }

  /** The buckets hold exactly the live conjunctions, each where it hashes to. */
  ghost predicate BucketsOk(live: set<Node>, buckets: seq<seq<Node>>)
    requires |buckets| > 0
  {
    && (forall h, n {:trigger n in buckets[h]} :: 0 <= h < |buckets| && n in buckets[h] ==>
          n in live && n.And? && h == HashNode(n, |buckets|))
    && (forall n {:trigger HashNode(n, |buckets|)} :: n in live && n.And? ==>
          n in buckets[HashNode(n, |buckets|)])
  }

  /** No two live conjunctions have the same children; with sorting on, the
      children are in ascending order of id. */
  ghost predicate Unique(live: set<Node>, sorted: bool) {
    && (forall m, n {:trigger m.left, n.left} | m in live && n in live && m.And? && n.And? ::
          (m.left == n.left && m.right == n.right ==> m == n))
    && (sorted ==> forall n {:trigger n.left} :: n in live && n.And? ==> Rank(n.left) < Rank(n.right))
  }

  /** Every stored conjunction is irreducible; with sorting on, in the order in
      which its operands were given. */
  ghost predicate AllReduced(live: set<Node>, sorted: bool) {
    forall n {:trigger n.left} :: n in live && n.And? ==> Reduced(sorted, n.left, n.right)
  }

  predicate Reduced(sorted: bool, l: Aig, r: Aig) {
    Irreducible(l, r) || (sorted && Irreducible(r, l))
  }

  /** All live inputs are among those that were handed out. */
  ghost predicate InputsKnown(live: set<Node>, inputs: set<Node>) {
    forall n :: n in live && n.Var? ==> n in inputs
  }
}
