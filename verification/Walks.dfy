/** The encoder's traversal on plain values: marks, visit counters and the state
    of the depth-first search, and what one step does to them. */
module Walks {
  import opened AigNodes
  import opened AigTable
  import opened Cnf
  import opened Gates
  import opened Regions
  import opened EdgeBounds
  import Dfs

  // ---------------------------------------------------------------------------
  // Marks
  // ---------------------------------------------------------------------------

  /** A mark that was never set is 0. */
  function MarkOf(mark: map<Node, nat>, n: Node): nat {
    if n in mark then mark[n] else 0
  }

  ghost predicate AllZero(mark: map<Node, nat>) {
    forall n :: n in mark ==> mark[n] == 0
  }

  /** The marked nodes are conjunctions that had no id when the traversal started. */
  ghost predicate MarkedOk(marked: seq<Node>, mark: map<Node, nat>, before: map<Node, nat>) {
    && Distinct(marked)
    && (forall n :: MarkOf(mark, n) != 0 <==> n in marked)
    && (forall n :: n in marked ==> n.And? && n !in before)
  }

  lemma MarkedAnds(marked: seq<Node>, mark: map<Node, nat>, before: map<Node, nat>)
    requires MarkedOk(marked, mark, before)
    ensures MarkedOk(marked, mark, map[])
    ensures forall n :: n in marked ==> n.And? && n !in before
  {
  }

  lemma MarkedDistinct(marked: seq<Node>, mark: map<Node, nat>, before: map<Node, nat>)
    requires MarkedOk(marked, mark, before)
    ensures Distinct(marked)
  {
  }

  /** Mark 1 means open, mark 2 means finished by this traversal, and `todo`
      are the nodes that are not marked yet. */
  ghost predicate MarksOk(mark: map<Node, nat>, pos: map<Node, nat>, ids: map<Node, nat>, todo: set<Node>,
                          graph: set<Node>) {
    && (forall n :: MarkOf(mark, n) == 1 <==> n in pos)
    && (forall n :: MarkOf(mark, n) > 1 ==> MarkOf(mark, n) == 2 && n in ids)
    && (forall n :: n in graph && MarkOf(mark, n) == 0 ==> n in todo)
    && (forall n :: n in todo ==> MarkOf(mark, n) == 0)
  }

  lemma MarkOpen(mark: map<Node, nat>, pos: map<Node, nat>, ids: map<Node, nat>, todo: set<Node>, graph: set<Node>,
                 n: Node, p: nat, marked: seq<Node>, before: map<Node, nat>)
    requires MarksOk(mark, pos, ids, todo, graph) && MarkedOk(marked, mark, before)
    requires n in graph && MarkOf(mark, n) == 0 && n.And? && n !in before
    ensures n in todo && MarksOk(mark[n := 1], pos[n := p], ids, todo - {n}, graph)
    ensures MarkedOk(marked + [n], mark[n := 1], before)
  {
  }

  lemma MarkClose(mark: map<Node, nat>, pos: map<Node, nat>, ids: map<Node, nat>, todo: set<Node>, graph: set<Node>,
                  n: Node, id: nat, marked: seq<Node>, before: map<Node, nat>)
    requires MarksOk(mark, pos, ids, todo, graph) && MarkedOk(marked, mark, before) && n in pos
    ensures MarksOk(mark[n := 2], pos - {n}, ids[n := id], todo, graph)
    ensures MarkedOk(marked, mark[n := 2], before)
  {
    var mark', pos' := mark[n := 2], pos - {n};
    forall m
      ensures MarkOf(mark', m) == if m == n then 2 else MarkOf(mark, m)
      ensures MarkOf(mark', m) == 1 <==> m in pos'
    {
    }
    assert MarkOf(mark, n) == 1;
  }

  lemma MarkInput(mark: map<Node, nat>, pos: map<Node, nat>, ids: map<Node, nat>, todo: set<Node>, graph: set<Node>,
                  n: Node, id: nat)
    requires MarksOk(mark, pos, ids, todo, graph)
    ensures MarksOk(mark, pos, ids[n := id], todo, graph)
  {
  }

  lemma StartMarks(mark: map<Node, nat>, ids: map<Node, nat>, graph: set<Node>)
    requires AllZero(mark)
    ensures MarksOk(mark, map[], ids, graph, graph) && MarkedOk([], mark, ids)
  {
  }

  lemma MarkFacts(mark: map<Node, nat>, pos: map<Node, nat>, ids: map<Node, nat>, todo: set<Node>, graph: set<Node>,
                  n: Node)
    requires MarksOk(mark, pos, ids, todo, graph)
    ensures MarkOf(mark, n) <= 2 && (MarkOf(mark, n) == 2 ==> n in ids) && (MarkOf(mark, n) == 1 <==> n in pos)
  {
  }

  lemma VarNotOpen(mark: map<Node, nat>, pos: map<Node, nat>, ids: map<Node, nat>, todo: set<Node>,
                   graph: set<Node>, marked: seq<Node>, before: map<Node, nat>, n: Node)
    requires MarksOk(mark, pos, ids, todo, graph) && MarkedOk(marked, mark, before) && n.Var?
    ensures n !in pos
  {
  }

  lemma PopMarked(marked: seq<Node>, mark: map<Node, nat>)
    requires MarkedOk(marked, mark, map[]) && marked != []
    ensures var last := marked[|marked| - 1];
            && last in marked && last !in marked[..|marked| - 1] && last.And?
            && (forall n :: n in marked[..|marked| - 1] <==> n in marked && n != last)
            && MarkedOk(marked[..|marked| - 1], mark[last := 0], map[])
  {
    var last, rest := marked[|marked| - 1], marked[..|marked| - 1];
    Dfs.SplitTop(marked);
    assert last !in rest;
    assert forall n :: n in rest <==> n in marked && n != last;
    forall n
      ensures MarkOf(mark[last := 0], n) != 0 <==> n in rest
    {
      assert MarkOf(mark[last := 0], n) == if n == last then 0 else MarkOf(mark, n);
    }
  }

  /** Only finished marked nodes carry a count. */
  ghost predicate LocalOk(local: map<Node, nat>, marked: seq<Node>) {
    forall n :: MarkOf(local, n) != 0 ==> n in marked
  }

  lemma StartCounts(local: map<Node, nat>)
    requires AllZero(local)
    ensures LocalOk(local, [])
  {
  }

  lemma NoCounts(mark: map<Node, nat>, local: map<Node, nat>)
    requires MarkedOk([], mark, map[]) && LocalOk(local, [])
    ensures AllZero(mark) && AllZero(local)
  {
    forall n | n in mark
      ensures mark[n] == 0
    {
      assert MarkOf(mark, n) == 0;
    }
    forall n | n in local
      ensures local[n] == 0
    {
      assert MarkOf(local, n) == 0;
    }
  }

  lemma CountOpened(local: map<Node, nat>, marked: seq<Node>, n: Node)
    requires LocalOk(local, marked)
    ensures LocalOk(local[n := 1], marked + [n])
  {
  }

  lemma CountAgain(local: map<Node, nat>, marked: seq<Node>, mark: map<Node, nat>, before: map<Node, nat>, n: Node,
                   c: nat)
    requires LocalOk(local, marked) && MarkedOk(marked, mark, before) && MarkOf(mark, n) != 0
    ensures LocalOk(local[n := c], marked)
  {
  }

  lemma PopCount(marked: seq<Node>, local: map<Node, nat>)
    requires LocalOk(local, marked) && marked != []
    ensures LocalOk(local[marked[|marked| - 1] := 0], marked[..|marked| - 1])
  {
    var last, rest := marked[|marked| - 1], marked[..|marked| - 1];
    Dfs.SplitTop(marked);
    forall n | MarkOf(local[last := 0], n) != 0
      ensures n in rest
    {
      assert MarkOf(local, n) != 0;
    }
  }

  // ---------------------------------------------------------------------------
  // The state of a traversal
  // ---------------------------------------------------------------------------

  /** What a traversal starts from: reference counts, ids and the start node. */
  datatype Job = Job(refs: map<Node, nat>, ids: map<Node, nat>, start: Node)

  /** Where it is: stack, marks, visit counters, ids, marked nodes, the stack
      positions of open nodes, and the nodes that are not marked yet. */
  datatype Walk = Walk(stack: seq<Node>, mark: map<Node, nat>, local: map<Node, nat>, ids: map<Node, nat>,
                       marked: seq<Node>, pos: map<Node, nat>, todo: set<Node>)

  ghost function Top(w: Walk): Node
    requires w.stack != []
  {
    w.stack[|w.stack| - 1]
  }

  ghost function Rest(w: Walk): seq<Node>
    requires w.stack != []
  {
    w.stack[..|w.stack| - 1]
  }

  /** The depth-first search and its marks. */
  ghost predicate SearchOk(j: Job, w: Walk) {
    var kids := Graph(j.refs, j.start);
    && Dfs.DfsOk(w.stack, w.pos, w.ids.Keys, kids)
    && MarksOk(w.mark, w.pos, w.ids, w.todo, kids.Keys) && MarkedOk(w.marked, w.mark, j.ids)
    && LocalOk(w.local, w.marked)
    && (if w.stack == [] then j.start in w.ids else w.stack[0] == j.start)
  }

  /** The traversal stays in the region of the start and encodes whatever an
      encoded node mentions. */
  ghost predicate RegionOk(j: Job, w: Walk) {
    var region := Region(j.refs, j.ids, j.start);
    && (forall n :: n in w.stack ==> n in region)
    && (forall n :: n in w.marked ==> n in region)
    && (forall n :: n in j.ids ==> n in w.ids)
    && (forall n :: n in w.ids && n !in j.ids ==> n in region && (n.And? ==> n in w.marked))
    && (forall n, k :: n in w.ids && n !in j.ids && k in KidsOf(j.refs, n) ==> k in w.ids)
  }

  /** Visits so far and visits to come are the uses by the marked nodes, and one
      for the start; an open node is on the stack once more. */
  ghost predicate CountOk(j: Job, w: Walk) {
    forall n: Node :: n.And? && n !in j.ids ==> CountAt(j, w, n)
  }

  ghost predicate CountAt(j: Job, w: Walk, n: Node) {
    MarkOf(w.local, n) + multiset(w.stack)[n]
    == (if n == j.start then 1 else 0) + Pushed(j.refs, w.marked)[n] + if n in w.pos then 1 else 0
  }

  ghost predicate WalkOk(j: Job, w: Walk) {
    Encodable(j.refs, j.start) && SearchOk(j, w) && RegionOk(j, w) && CountOk(j, w)
  }

  // ---------------------------------------------------------------------------
  // Steps
  // ---------------------------------------------------------------------------

  lemma StackCounts(stack: seq<Node>)
    requires stack != []
    ensures multiset(stack) == multiset(stack[..|stack| - 1]) + multiset{stack[|stack| - 1]}
    ensures forall n :: n in stack[..|stack| - 1] ==> n in stack
  {
    assert stack == stack[..|stack| - 1] + [stack[|stack| - 1]];
  }

  lemma StartWalk(j: Job, mark: map<Node, nat>, local: map<Node, nat>)
    requires Encodable(j.refs, j.start) && AllZero(mark) && AllZero(local)
    ensures WalkOk(j, Walk([j.start], mark, local, j.ids, [], map[], Graph(j.refs, j.start).Keys))
  {
    hide Encodable, Below, Graph, KidsOf, MarksOk, MarkedOk, LocalOk, Dfs.DfsOk, Dfs.KidsOk;
    var w := Walk([j.start], mark, local, j.ids, [], map[], Graph(j.refs, j.start).Keys);
    WalkGraph(j);
    Dfs.Start([j.start], j.ids.Keys, Graph(j.refs, j.start));
    StartMarks(mark, j.ids, Graph(j.refs, j.start).Keys);
    StartCounts(local);
    RegionUnfold(j.refs, j.ids, j.start, j.start);
    forall n: Node | n.And? && n !in j.ids
      ensures CountAt(j, w, n)
    {
      ZeroCount(local, n);
    }
  }

  lemma ZeroCount(local: map<Node, nat>, n: Node)
    requires AllZero(local)
    ensures MarkOf(local, n) == 0
  {
  }

  lemma WalkGraph(j: Job)
    requires Encodable(j.refs, j.start)
    ensures var kids := Graph(j.refs, j.start);
            && j.start in kids && Dfs.KidsOk(kids)
            && forall n :: n in kids ==> n in j.refs && NodeOk(j.refs, n) && kids[n] == KidsOf(j.refs, n)
  {
    hide Graph, Closed, Wf, Below, NodeOk, KidsOf, Extractable, Dfs.KidsOk;
    GraphOk(j.refs, j.start);
    GraphEntries(j.refs, j.start);
  }

  /** Facts about the node on top. */
  lemma TopFacts(j: Job, w: Walk)
    requires WalkOk(j, w) && w.stack != []
    ensures var n := Top(w);
            && n in Graph(j.refs, j.start) && n in j.refs && NodeOk(j.refs, n)
            && n in Region(j.refs, j.ids, j.start)
            && Graph(j.refs, j.start)[n] == KidsOf(j.refs, n)
            && MarkOf(w.mark, n) <= 2 && (MarkOf(w.mark, n) == 2 ==> n in w.ids && n in w.marked)
            && (MarkOf(w.mark, n) == 1 <==> n in w.pos) && (n !in w.ids ==> n !in j.ids)
            && (n.Var? ==> n !in w.pos)
            && (n in w.ids && MarkOf(w.mark, n) != 2 ==> n !in w.pos && (n.And? ==> n in j.ids))
  {
    hide Encodable, Below, Graph, KidsOf, MarksOk, NodeOk, LocalOk, Dfs.DfsOk, Dfs.KidsOk, Region, CountOk;
    var n := Top(w);
    WalkGraph(j);
    Dfs.InGraph(w.stack, w.pos, w.ids.Keys, Graph(j.refs, j.start), |w.stack| - 1);
    MarkFacts(w.mark, w.pos, w.ids, w.todo, Graph(j.refs, j.start).Keys, n);
    if n.Var? {
      VarNotOpen(w.mark, w.pos, w.ids, w.todo, Graph(j.refs, j.start).Keys, w.marked, j.ids, n);
    }
    if n in w.ids {
      Dfs.DoneNotOpen(w.stack, w.pos, w.ids.Keys, Graph(j.refs, j.start), n);
    }
  }

  /** The node was marked as finished: one more visit.  There was still one to
      come, as the encoder asserts. */
  lemma SeenAgain(j: Job, w: Walk, t: seq<Aig>, handles: multiset<Node>)
    requires WalkOk(j, w) && w.stack != [] && MarkOf(w.mark, Top(w)) == 2 && Counters(t, j.refs, handles)
    ensures Top(w) in j.refs && MarkOf(w.local, Top(w)) < j.refs[Top(w)]
    ensures WalkOk(j, w.(stack := Rest(w), local := w.local[Top(w) := MarkOf(w.local, Top(w)) + 1]))
  {
    hide Encodable, Below, Graph, KidsOf, MarksOk, NodeOk, Dfs.DfsOk, Dfs.KidsOk, Region, Pushed, Counters, CountOk,
         RegionOk;
    var n := Top(w);
    var w' := w.(stack := Rest(w), local := w.local[n := MarkOf(w.local, n) + 1]);
    TopFacts(j, w);
    MarkedAnds(w.marked, w.mark, j.ids);
    SearchPop(j, w);
    CountAgain(w.local, w.marked, w.mark, j.ids, n, MarkOf(w.local, n) + 1);
    RegionPop(j, w, w');
    SeenCount(j, w, w');
    MarkedGated(j, w);
    CountOf(j, w, n);
    Dfs.DoneNotOpen(w.stack, w.pos, w.ids.Keys, Graph(j.refs, j.start), n);
    VisitsBound(t, j.refs, handles, j.ids, j.start, w.marked, n);
    StackCounts(w.stack);
  }

  lemma CountOf(j: Job, w: Walk, n: Node)
    requires CountOk(j, w) && n.And? && n !in j.ids
    ensures CountAt(j, w, n)
  {
  }

  lemma MarkedGated(j: Job, w: Walk)
    requires MarkedOk(w.marked, w.mark, j.ids) && RegionOk(j, w)
    ensures Distinct(w.marked) && forall n :: n in w.marked ==> n in Gated(j.refs, j.ids, j.start)
  {
    hide Region;
  }

  lemma SearchPop(j: Job, w: Walk)
    requires SearchOk(j, w) && w.stack != [] && Top(w) in w.ids
    ensures Dfs.DfsOk(Rest(w), w.pos, w.ids.Keys, Graph(j.refs, j.start))
    ensures if Rest(w) == [] then j.start in w.ids else Rest(w)[0] == j.start
  {
    hide Graph, MarksOk, MarkedOk, LocalOk, Dfs.DfsOk;
    Dfs.PopDone(w.stack, w.pos, w.ids.Keys, Graph(j.refs, j.start));
  }

  lemma RegionPop(j: Job, w: Walk, w': Walk)
    requires RegionOk(j, w) && w.stack != [] && w'.stack == Rest(w) && w'.ids == w.ids && w'.marked == w.marked
    ensures RegionOk(j, w')
  {
    hide Region, KidsOf;
    StackCounts(w.stack);
  }

  lemma SeenCount(j: Job, w: Walk, w': Walk)
    requires CountOk(j, w) && w.stack != [] && Top(w) in w.marked
    requires w' == w.(stack := Rest(w), local := w.local[Top(w) := MarkOf(w.local, Top(w)) + 1])
    ensures CountOk(j, w')
  {
    hide Pushed;
    StackCounts(w.stack);
    forall n: Node | n.And? && n !in j.ids
      ensures CountAt(j, w', n)
    {
      assert CountAt(j, w, n);
      assert MarkOf(w'.local, n) == MarkOf(w.local, n) + if n == Top(w) then 1 else 0;
    }
  }

  /** The node has an id from before, or is an encoded input: nothing to do. */
  lemma Skip(j: Job, w: Walk)
    requires WalkOk(j, w) && w.stack != [] && Top(w) in w.ids && MarkOf(w.mark, Top(w)) != 2
    ensures WalkOk(j, w.(stack := Rest(w)))
  {
    hide Encodable, Below, Graph, KidsOf, MarksOk, MarkedOk, LocalOk, NodeOk, Dfs.DfsOk, Dfs.KidsOk, Region, Pushed,
         RegionOk;
    var w' := w.(stack := Rest(w));
    TopFacts(j, w);
    SearchPop(j, w);
    RegionPop(j, w, w');
    StackCounts(w.stack);
    forall n: Node | n.And? && n !in j.ids
      ensures CountAt(j, w', n)
    {
      assert CountAt(j, w, n);
    }
  }

  /** An input gets an id at once. */
  lemma FinishInput(j: Job, w: Walk, id: nat)
    requires WalkOk(j, w) && w.stack != [] && Top(w) !in w.ids && Top(w).Var?
    ensures WalkOk(j, w.(stack := Rest(w), ids := w.ids[Top(w) := id]))
  {
    hide Encodable, Below, Graph, KidsOf, MarksOk, MarkedOk, LocalOk, NodeOk, Dfs.DfsOk, Dfs.KidsOk, Region, Pushed,
         RegionOk;
    var n, kids := Top(w), Graph(j.refs, j.start);
    var w' := w.(stack := Rest(w), ids := w.ids[n := id]);
    TopFacts(j, w);
    assert w.ids[n := id].Keys == w.ids.Keys + {n};
    Dfs.Pop(w.stack, w.pos, w.ids.Keys, kids, w'.ids.Keys);
    MarkInput(w.mark, w.pos, w.ids, w.todo, kids.Keys, n, id);
    RegionInput(j, w, w', n);
    StackCounts(w.stack);
    forall m: Node | m.And? && m !in j.ids
      ensures CountAt(j, w', m)
    {
      assert CountAt(j, w, m);
    }
  }

  lemma RegionInput(j: Job, w: Walk, w': Walk, n: Node)
    requires RegionOk(j, w) && w.stack != [] && n == Top(w) && n.Var? && n in Region(j.refs, j.ids, j.start)
    requires w'.stack == Rest(w) && w'.marked == w.marked && w'.ids.Keys == w.ids.Keys + {n}
    ensures RegionOk(j, w')
  {
    hide Region;
    StackCounts(w.stack);
  }

  /** The first visit of a conjunction. */
  lemma OpenNode(j: Job, w: Walk)
    requires WalkOk(j, w) && w.stack != [] && Top(w) !in w.ids && Top(w).And? && MarkOf(w.mark, Top(w)) == 0
    ensures var n := Top(w);
            && n in w.todo
            && WalkOk(j, Walk(w.stack + KidsOf(j.refs, n), w.mark[n := 1], w.local[n := 1], w.ids, w.marked + [n],
                              w.pos[n := |w.stack| - 1], w.todo - {n}))
  {
    hide Encodable, Below, Graph, KidsOf, MarksOk, MarkedOk, LocalOk, NodeOk, Dfs.DfsOk, Dfs.KidsOk, Region, Pushed,
         RegionOk, CountOk;
    var n, kids := Top(w), Graph(j.refs, j.start);
    var w' := Walk(w.stack + KidsOf(j.refs, n), w.mark[n := 1], w.local[n := 1], w.ids, w.marked + [n],
                   w.pos[n := |w.stack| - 1], w.todo - {n});
    TopFacts(j, w);
    WalkGraph(j);
    MarkOpen(w.mark, w.pos, w.ids, w.todo, kids.Keys, n, |w.stack| - 1, w.marked, j.ids);
    Dfs.Open(w.stack, w.pos, w.ids.Keys, kids);
    CountOpened(w.local, w.marked, n);
    RegionOpen(j, w, w', n);
    OpenCount(j, w, w');
  }

  lemma RegionOpen(j: Job, w: Walk, w': Walk, n: Node)
    requires Encodable(j.refs, j.start) && RegionOk(j, w) && w.stack != [] && n == Top(w) && n !in j.ids && n !in w.ids
    requires w'.stack == w.stack + KidsOf(j.refs, n) && w'.marked == w.marked + [n] && w'.ids == w.ids
    ensures RegionOk(j, w')
  {
    hide Region, KidsOf, Encodable, NodeOk, Below, Wf;
    RegionFacts(j.refs, j.ids, j.start, n);
    NodeRecognizable(j.refs, n);
    NodesOk(j.refs, n);
    forall k | k in KidsOf(j.refs, n)
      ensures k in Region(j.refs, j.ids, j.start)
    {
      RegionClosed(j.refs, j.ids, j.start, n, k);
    }
  }

  lemma OpenCount(j: Job, w: Walk, w': Walk)
    requires CountOk(j, w) && LocalOk(w.local, w.marked) && w.stack != [] && MarkOf(w.mark, Top(w)) == 0
    requires MarkedOk(w.marked, w.mark, j.ids) && Top(w) !in w.pos
    requires w'.stack == w.stack + KidsOf(j.refs, Top(w)) && w'.local == w.local[Top(w) := 1]
    requires w'.marked == w.marked + [Top(w)] && w'.pos == w.pos[Top(w) := |w.stack| - 1]
    ensures CountOk(j, w')
  {
    hide Pushed, KidsOf, Distinct;
    PushedSnoc(j.refs, w.marked, Top(w));
    forall n: Node | n.And? && n !in j.ids
      ensures CountAt(j, w', n)
    {
      assert CountAt(j, w, n);
      assert n == Top(w) ==> MarkOf(w.local, n) == 0;
      assert MarkOf(w'.local, n) == if n == Top(w) then 1 else MarkOf(w.local, n);
    }
  }

  /** The second visit: everything the node mentions has an id. */
  lemma CloseNode(j: Job, w: Walk, id: nat)
    requires WalkOk(j, w) && w.stack != [] && Top(w) !in w.ids && Top(w).And? && MarkOf(w.mark, Top(w)) != 0
    ensures var n := Top(w);
            && MarkOf(w.mark, n) == 1 && n in w.pos
            && (forall k :: k in KidsOf(j.refs, n) ==> k in w.ids)
            && WalkOk(j, w.(stack := Rest(w), mark := w.mark[n := 2], ids := w.ids[n := id], pos := w.pos - {n}))
  {
    hide Encodable, Below, Graph, KidsOf, MarksOk, MarkedOk, LocalOk, NodeOk, Dfs.DfsOk, Dfs.KidsOk, Region, Pushed,
         RegionOk, CountOk;
    var n, kids := Top(w), Graph(j.refs, j.start);
    var w' := w.(stack := Rest(w), mark := w.mark[n := 2], ids := w.ids[n := id], pos := w.pos - {n});
    TopFacts(j, w);
    Dfs.Close(w.stack, w.pos, w.ids.Keys, kids);
    assert w.ids[n := id].Keys == w.ids.Keys + {n};
    MarkClose(w.mark, w.pos, w.ids, w.todo, kids.Keys, n, id, w.marked, j.ids);
    RegionClose(j, w, w', n);
    CloseCount(j, w, w');
  }

  lemma RegionClose(j: Job, w: Walk, w': Walk, n: Node)
    requires RegionOk(j, w) && MarkedOk(w.marked, w.mark, j.ids)
    requires w.stack != [] && n == Top(w) && MarkOf(w.mark, n) == 1
    requires w'.stack == Rest(w) && w'.marked == w.marked && w'.ids.Keys == w.ids.Keys + {n}
    requires forall k :: k in KidsOf(j.refs, n) ==> k in w.ids
    ensures RegionOk(j, w')
  {
    hide Region, KidsOf, Distinct;
    StackCounts(w.stack);
  }

  lemma CloseCount(j: Job, w: Walk, w': Walk)
    requires CountOk(j, w) && w.stack != [] && Top(w) in w.pos && w'.stack == Rest(w) && w'.pos == w.pos - {Top(w)}
    requires w'.local == w.local && w'.marked == w.marked
    ensures CountOk(j, w')
  {
    hide Pushed;
    StackCounts(w.stack);
    forall n: Node | n.And? && n !in j.ids
      ensures CountAt(j, w', n)
    {
      assert CountAt(j, w, n);
    }
  }

  // ---------------------------------------------------------------------------
  // The end
  // ---------------------------------------------------------------------------

  /** What the call visited and counted, as functions of the state before it. */
  lemma EndWalk(j: Job, w: Walk)
    requires WalkOk(j, w) && w.stack == []
    ensures j.start in w.ids && MarkedOk(w.marked, w.mark, j.ids) && LocalOk(w.local, w.marked)
    ensures forall n :: n in w.marked <==> n in Gated(j.refs, j.ids, j.start)
    ensures forall n :: n in w.ids <==> n in j.ids || n in Region(j.refs, j.ids, j.start)
    ensures forall n :: n in w.marked ==> n in w.ids && MarkOf(w.local, n) == Visits(j.refs, j.ids, j.start, n)
  {
    hide Encodable, Below, Graph, KidsOf, MarksOk, LocalOk, NodeOk, Dfs.DfsOk, Dfs.KidsOk, Region, Pushed, Uses;
    Dfs.NoneOpen(w.stack, w.pos, w.ids.Keys, Graph(j.refs, j.start));
    RegionLeast(j.refs, j.ids, j.start, w.ids.Keys);
    MarkedGated(j, w);
    assert Elements(w.marked) == Gated(j.refs, j.ids, j.start);
    forall n | n in w.marked
      ensures MarkOf(w.local, n) == Visits(j.refs, j.ids, j.start, n)
    {
      assert CountAt(j, w, n);
      PushedIsUses(j.refs, w.marked, n);
    }
  }

  /** The counters never exceed the reference counts. */
  lemma VisitsWithin(j: Job, w: Walk, t: seq<Aig>, handles: multiset<Node>)
    requires WalkOk(j, w) && w.stack == [] && Counters(t, j.refs, handles)
    ensures forall n :: n in w.marked ==> n in j.refs && MarkOf(w.local, n) <= j.refs[n]
  {
    hide Encodable, Graph, Region, Gated, Uses, Counters, SearchOk, RegionOk, CountOk;
    EndWalk(j, w);
    SearchMarked(j, w);
    assert Elements(w.marked) == Gated(j.refs, j.ids, j.start);
    forall n | n in w.marked
      ensures n in j.refs && MarkOf(w.local, n) <= j.refs[n]
    {
      GatedFacts(j, n);
      VisitsBound(t, j.refs, handles, j.ids, j.start, w.marked, n);
      PushedIsUses(j.refs, w.marked, n);
    }
  }

  lemma SearchMarked(j: Job, w: Walk)
    requires SearchOk(j, w)
    ensures Distinct(w.marked)
  {
  }

  lemma GatedFacts(j: Job, n: Node)
    requires Encodable(j.refs, j.start) && n in Gated(j.refs, j.ids, j.start)
    ensures n in j.refs
  {
    hide Region, Encodable;
    RegionFacts(j.refs, j.ids, j.start, n);
  }

  // ---------------------------------------------------------------------------
  // Variables and clauses
  // ---------------------------------------------------------------------------

  /** The conjunctions that have gained an id so far. */
  ghost function NewGates(before: map<Node, nat>, ids: map<Node, nat>): set<Node> {
    set n | n in ids && n !in before && n.And?
  }

  /** So many variables and clauses were added for the ids that are new. */
  ghost predicate SizeOk(refs: map<Node, nat>, before: map<Node, nat>, ids: map<Node, nat>, vars: int, clauses: int) {
    && (forall n :: n in before ==> n in ids)
    && vars == |ids| - |before| && clauses == ClauseCount(refs, NewGates(before, ids))
  }

  lemma StartSize(refs: map<Node, nat>, before: map<Node, nat>)
    ensures SizeOk(refs, before, before, 0, 0)
  {
    assert NewGates(before, before) == {};
    assert Recognized(refs, {}) == {};
  }

  lemma InputSize(refs: map<Node, nat>, before: map<Node, nat>, ids: map<Node, nat>, vars: int, clauses: int,
                  n: Node, id: nat)
    requires SizeOk(refs, before, ids, vars, clauses) && n.Var? && n !in ids
    ensures SizeOk(refs, before, ids[n := id], vars + 1, clauses)
  {
    hide ClauseCount;
    assert NewGates(before, ids[n := id]) == NewGates(before, ids);
  }

  lemma GateSize(refs: map<Node, nat>, before: map<Node, nat>, ids: map<Node, nat>, vars: int, clauses: int,
                 n: Node, id: nat)
    requires SizeOk(refs, before, ids, vars, clauses) && n.And? && Recognizable(refs, n) && n !in ids
    ensures SizeOk(refs, before, ids[n := id], vars + 1, clauses + if IsPlain(refs, n) then 3 else 4)
  {
    hide IsPlain, Recognizable, ClauseCount, NewGates;
    OneGate(before, ids, n, id);
    CountOne(refs, NewGates(before, ids), n);
  }

  lemma OneGate(before: map<Node, nat>, ids: map<Node, nat>, n: Node, id: nat)
    requires n.And? && n !in ids && n !in before
    ensures n !in NewGates(before, ids) && NewGates(before, ids[n := id]) == NewGates(before, ids) + {n}
  {
  }

  lemma CountOne(refs: map<Node, nat>, gates: set<Node>, n: Node)
    requires n.And? && Recognizable(refs, n) && n !in gates
    ensures ClauseCount(refs, gates + {n}) == ClauseCount(refs, gates) + if IsPlain(refs, n) then 3 else 4
  {
    hide IsPlain, Recognizable;
    if IsPlain(refs, n) {
      assert Recognized(refs, gates + {n}) == Recognized(refs, gates);
    } else {
      assert Recognized(refs, gates + {n}) == Recognized(refs, gates) + {n};
    }
  }

  /** In the end, the new ids are those of the region. */
  lemma EndSize(j: Job, ids: map<Node, nat>, vars: int, clauses: int)
    requires SizeOk(j.refs, j.ids, ids, vars, clauses)
    requires forall n :: n in ids <==> n in j.ids || n in Region(j.refs, j.ids, j.start)
    ensures vars == |Fresh(j.refs, j.ids, j.start)|
    ensures clauses == ClauseCount(j.refs, Gated(j.refs, j.ids, j.start))
  {
    hide Region, ClauseCount;
    var fresh' := Fresh(j.refs, j.ids, j.start);
    assert ids.Keys == j.ids.Keys + fresh' && j.ids.Keys !! fresh';
    assert |ids| == |ids.Keys| && |j.ids| == |j.ids.Keys|;
    assert NewGates(j.ids, ids) == Gated(j.refs, j.ids, j.start);
  }
}
