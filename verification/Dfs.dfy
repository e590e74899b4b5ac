/** The two-visit depth-first traversal that the encoder and the local search
    share: a node is pushed again below its children, which makes it "open",
    and is finished when it is popped the second time. */
module Dfs {
  import opened AigNodes

  /** `kids` gives the successors of every node of a finite graph in which ids
      strictly decrease along edges. */
  ghost predicate KidsOk(kids: map<Node, seq<Node>>) {
    forall n, k :: n in kids && k in kids[n] ==> k in kids && k.id < n.id
  }

  /** Node `k` waits on the stack above position `p`. */
  ghost predicate Pending(stack: seq<Node>, p: nat, k: Node) {
    exists i :: p < i < |stack| && stack[i] == k
  }

  /** `pos` maps every open node to the stack position of its second visit. */
  ghost predicate PosOk(stack: seq<Node>, pos: map<Node, nat>, done: set<Node>, kids: map<Node, seq<Node>>) {
    && (forall i :: 0 <= i < |stack| ==> stack[i] in kids)
    && (forall n :: n in pos ==> n in kids && n !in done && pos[n] < |stack| && stack[pos[n]] == n)
  }

  /** Everything above an open node has a smaller id. */
  ghost predicate Descending(stack: seq<Node>, pos: map<Node, nat>) {
    forall n, i :: n in pos && pos[n] < i < |stack| ==> stack[i].id < n.id
  }

  /** Every successor of an open node is finished or waits above it. */
  ghost predicate Waiting(stack: seq<Node>, pos: map<Node, nat>, done: set<Node>, kids: map<Node, seq<Node>>) {
    forall n, k :: n in pos && n in kids && k in kids[n] ==> k in done || Pending(stack, pos[n], k)
  }

  ghost predicate DfsOk(stack: seq<Node>, pos: map<Node, nat>, done: set<Node>, kids: map<Node, seq<Node>>) {
    PosOk(stack, pos, done, kids) && Descending(stack, pos) && Waiting(stack, pos, done, kids)
  }

  lemma Start(stack: seq<Node>, done: set<Node>, kids: map<Node, seq<Node>>)
    requires forall n :: n in stack ==> n in kids
    ensures DfsOk(stack, map[], done, kids)
  {
  }

  lemma SplitTop(stack: seq<Node>)
    requires stack != []
    ensures forall n :: n in stack <==> n in stack[..|stack| - 1] || n == stack[|stack| - 1]
  {
    assert stack == stack[..|stack| - 1] + [stack[|stack| - 1]];
  }

  /** Every node of a list is finished or still on the stack. */
  ghost predicate Covered(list: seq<Node>, stack: seq<Node>, done: set<Node>) {
    forall n :: n in list ==> n in done || n in stack
  }

  lemma CoveredStart(list: seq<Node>, done: set<Node>)
    ensures Covered(list, list, done)
  {
  }

  lemma CoveredPop(list: seq<Node>, stack: seq<Node>, done: set<Node>, done': set<Node>)
    requires Covered(list, stack, done) && stack != [] && done <= done' && stack[|stack| - 1] in done'
    ensures Covered(list, stack[..|stack| - 1], done')
  {
    assert stack == stack[..|stack| - 1] + [stack[|stack| - 1]];
  }

  lemma CoveredPush(list: seq<Node>, stack: seq<Node>, done: set<Node>, more: seq<Node>)
    requires Covered(list, stack, done)
    ensures Covered(list, stack + more, done)
  {
  }

  lemma CoveredAll(list: seq<Node>, done: set<Node>)
    requires Covered(list, [], done)
    ensures forall n :: n in list ==> n in done
  {
  }

  lemma InGraph(stack: seq<Node>, pos: map<Node, nat>, done: set<Node>, kids: map<Node, seq<Node>>, i: nat)
    requires DfsOk(stack, pos, done, kids) && i < |stack|
    ensures stack[i] in kids
  {
  }

  lemma DoneNotOpen(stack: seq<Node>, pos: map<Node, nat>, done: set<Node>, kids: map<Node, seq<Node>>, n: Node)
    requires DfsOk(stack, pos, done, kids) && n in done
    ensures n !in pos
  {
  }

  lemma PendingPop(stack: seq<Node>, p: nat, k: Node)
    requires Pending(stack, p, k)
    ensures k == stack[|stack| - 1] || Pending(stack[..|stack| - 1], p, k)
  {
    var i :| p < i < |stack| && stack[i] == k;
    if i < |stack| - 1 {
      assert stack[..|stack| - 1][i] == k;
    }
  }

  /** Popping a node that is finished, or becomes finished at its first visit. */
  lemma Pop(stack: seq<Node>, pos: map<Node, nat>, done: set<Node>, kids: map<Node, seq<Node>>, done': set<Node>)
    requires DfsOk(stack, pos, done, kids) && stack != []
    requires stack[|stack| - 1] !in pos && done' == done + {stack[|stack| - 1]}
    ensures DfsOk(stack[..|stack| - 1], pos, done', kids)
  {
    var rest := stack[..|stack| - 1];
    forall n, k | n in pos && n in kids && k in kids[n]
      ensures k in done' || Pending(rest, pos[n], k)
    {
      if k !in done {
        PendingPop(stack, pos[n], k);
      }
    }
  }

  lemma PopDone(stack: seq<Node>, pos: map<Node, nat>, done: set<Node>, kids: map<Node, seq<Node>>)
    requires DfsOk(stack, pos, done, kids) && stack != [] && stack[|stack| - 1] in done
    ensures DfsOk(stack[..|stack| - 1], pos, done, kids)
  {
    var top := stack[|stack| - 1];
    assert done == done + {top};
    Pop(stack, pos, done, kids, done);
  }

  lemma PendingPush(stack: seq<Node>, p: nat, k: Node, more: seq<Node>)
    requires Pending(stack, p, k)
    ensures Pending(stack + more, p, k)
  {
    var i :| p < i < |stack| && stack[i] == k;
    assert (stack + more)[i] == k;
  }

  lemma PendingNew(stack: seq<Node>, more: seq<Node>, k: Node)
    requires stack != [] && k in more
    ensures Pending(stack + more, |stack| - 1, k)
  {
    var j :| 0 <= j < |more| && more[j] == k;
    assert (stack + more)[|stack| + j] == k;
  }

  lemma OpenWaiting(stack: seq<Node>, pos: map<Node, nat>, done: set<Node>, kids: map<Node, seq<Node>>, top: Node,
                    more: seq<Node>)
    requires Waiting(stack, pos, done, kids) && stack != [] && top in kids && top !in pos
    requires forall k :: k in kids[top] ==> k in more || k in done
    ensures Waiting(stack + more, pos[top := |stack| - 1], done, kids)
  {
    hide Pending;
    var pos' := pos[top := |stack| - 1];
    forall n, k | n in pos' && n in kids && k in kids[n]
      ensures k in done || Pending(stack + more, pos'[n], k)
    {
      if k !in done {
        if n == top {
          PendingNew(stack, more, k);
        } else {
          PendingPush(stack, pos[n], k, more);
        }
      }
    }
  }

  lemma OpenDescending(stack: seq<Node>, pos: map<Node, nat>, top: Node, more: seq<Node>)
    requires Descending(stack, pos) && stack != [] && top == stack[|stack| - 1]
    requires forall n :: n in pos ==> pos[n] < |stack| - 1
    requires forall k :: k in more ==> k.id < top.id
    ensures Descending(stack + more, pos[top := |stack| - 1])
  {
    var stack', pos' := stack + more, pos[top := |stack| - 1];
    forall n, i | n in pos' && pos'[n] < i < |stack'|
      ensures stack'[i].id < n.id
    {
      if i >= |stack| {
        assert stack'[i] in more;
        assert n != top ==> stack[|stack| - 1].id < n.id;
      }
    }
  }

  lemma OpenPos(stack: seq<Node>, pos: map<Node, nat>, done: set<Node>, kids: map<Node, seq<Node>>, top: Node,
                more: seq<Node>)
    requires KidsOk(kids) && PosOk(stack, pos, done, kids) && stack != [] && top == stack[|stack| - 1]
    requires top !in pos && top !in done && forall k :: k in more ==> k in kids && k.id < top.id
    ensures top in kids && PosOk(stack + more, pos[top := |stack| - 1], done, kids)
    ensures forall n :: n in pos ==> pos[n] < |stack| - 1
  {
    var stack' := stack + more;
    forall i | 0 <= i < |stack'|
      ensures stack'[i] in kids
    {
      assert i >= |stack| ==> stack'[i] in more;
    }
  }

  /** The first visit: the node stays on the stack, with its unfinished
      successors above it. */
  lemma OpenSome(stack: seq<Node>, pos: map<Node, nat>, done: set<Node>, kids: map<Node, seq<Node>>, more: seq<Node>)
    requires KidsOk(kids) && DfsOk(stack, pos, done, kids) && stack != []
    requires stack[|stack| - 1] !in pos && stack[|stack| - 1] !in done && stack[|stack| - 1] in kids
    requires forall k :: k in more ==> k in kids[stack[|stack| - 1]]
    requires forall k :: k in kids[stack[|stack| - 1]] ==> k in more || k in done
    ensures DfsOk(stack + more, pos[stack[|stack| - 1] := |stack| - 1], done, kids)
  {
    hide PosOk, Descending, Waiting;
    var top := stack[|stack| - 1];
    OpenPos(stack, pos, done, kids, top, more);
    OpenDescending(stack, pos, top, more);
    OpenWaiting(stack, pos, done, kids, top, more);
  }

  lemma Open(stack: seq<Node>, pos: map<Node, nat>, done: set<Node>, kids: map<Node, seq<Node>>)
    requires KidsOk(kids) && DfsOk(stack, pos, done, kids) && stack != []
    requires stack[|stack| - 1] !in pos && stack[|stack| - 1] !in done
    ensures var top := stack[|stack| - 1];
            top in kids && DfsOk(stack + kids[top], pos[top := |stack| - 1], done, kids)
  {
    hide DfsOk, KidsOk;
    InGraph(stack, pos, done, kids, |stack| - 1);
    OpenSome(stack, pos, done, kids, kids[stack[|stack| - 1]]);
  }

  /** No successor of the top of the stack is open, because open nodes have
      larger ids than everything above them. */
  lemma ChildNotOpen(stack: seq<Node>, pos: map<Node, nat>, done: set<Node>, kids: map<Node, seq<Node>>, k: Node)
    requires KidsOk(kids) && DfsOk(stack, pos, done, kids) && stack != []
    requires stack[|stack| - 1] !in pos && stack[|stack| - 1] in kids && k in kids[stack[|stack| - 1]]
    ensures k !in pos
  {
    assert forall n :: n in pos ==> pos[n] != |stack| - 1;
  }

  lemma ClosePos(stack: seq<Node>, pos: map<Node, nat>, done: set<Node>, kids: map<Node, seq<Node>>, top: Node)
    requires PosOk(stack, pos, done, kids) && Descending(stack, pos) && stack != [] && top == stack[|stack| - 1]
    requires top in pos && pos[top] == |stack| - 1
    ensures PosOk(stack[..|stack| - 1], pos - {top}, done + {top}, kids)
    ensures Descending(stack[..|stack| - 1], pos - {top})
  {
  }

  lemma CloseTop(stack: seq<Node>, pos: map<Node, nat>, done: set<Node>, kids: map<Node, seq<Node>>, top: Node)
    requires DfsOk(stack, pos, done, kids) && stack != [] && top == stack[|stack| - 1] && top in pos
    ensures top in kids && pos[top] == |stack| - 1 && forall k :: k in kids[top] ==> k in done
  {
  }

  /** An open node is popped only at its second visit, and then all its
      successors are finished. */
  lemma Close(stack: seq<Node>, pos: map<Node, nat>, done: set<Node>, kids: map<Node, seq<Node>>)
    requires DfsOk(stack, pos, done, kids) && stack != [] && stack[|stack| - 1] in pos
    ensures var top := stack[|stack| - 1];
            && top in kids && (forall k :: k in kids[top] ==> k in done)
            && DfsOk(stack[..|stack| - 1], pos - {top}, done + {top}, kids)
  {
    hide Pending, PosOk, Descending;
    var top := stack[|stack| - 1];
    var rest := stack[..|stack| - 1];
    CloseTop(stack, pos, done, kids, top);
    ClosePos(stack, pos, done, kids, top);
    forall n, k | n in pos && n != top && n in kids && k in kids[n]
      ensures k in done + {top} || Pending(rest, pos[n], k)
    {
      if k !in done {
        PendingPop(stack, pos[n], k);
      }
    }
  }

  /** When the stack is empty, no node is open. */
  lemma NoneOpen(stack: seq<Node>, pos: map<Node, nat>, done: set<Node>, kids: map<Node, seq<Node>>)
    requires DfsOk(stack, pos, done, kids) && stack == []
    ensures pos == map[]
  {
  }
}
