/** What a run of the local search may do: which input a move may flip, and when
    the search starts over. */
module PropRuns {
  import opened AigNodes
  import opened Bits
  import opened PropSpec
  import opened PropTables
  import opened PropCone

  /** The number of moves before the i-th restart. */
  function MaxSteps(i: nat): (n: nat)
    ensures n >= 100
  {
    100 * if i % 2 == 1 then 1 else Pow2(i / 2)
  }

  /** Every other interval has 100 moves, and those in between double. */
  lemma RestartIntervals(i: nat)
    ensures MaxSteps(0) == 100 && MaxSteps(2 * i + 1) == 100 && MaxSteps(2 * i + 2) == 2 * MaxSteps(2 * i)
  {
    assert (2 * i + 1) % 2 == 1 && (2 * i + 2) / 2 == i + 1 && 2 * i / 2 == i;
  }

  // ---------------------------------------------------------------------------
  // Moves
  // ---------------------------------------------------------------------------

  /** `x` is reached from `n` through children that have the same value as their
      parent: below a false conjunction through a false child. */
  ghost predicate Responsible(env: Env, n: Node, x: Node)
    decreases n, 1
  {
    || n == x
    || (n.And? && (PassesTo(env, n, n.left, x) || PassesTo(env, n, n.right, x)))
  }

  ghost predicate PassesTo(env: Env, n: Node, child: Aig, x: Node)
    requires n.And? && (child == n.left || child == n.right)
    decreases n, 0
  {
    child.Ref? && Eval(env, child) == EvalNode(env, n) && Responsible(env, child.node, x)
  }

  /** One input that is responsible for a false root is flipped. */
  ghost predicate Flips(roots: set<Aig>, env: Env, env': Env) {
    exists r, x :: FlipOf(roots, env, env', r, x)
  }

  ghost predicate FlipOf(roots: set<Aig>, env: Env, env': Env, r: Aig, x: Node) {
    && r in roots && r.Ref? && !Eval(env, r) && x.Var? && Responsible(env, r.node, x)
    && env' == SetInput(env, x.id, x.id !in env)
  }

  lemma {:induction false} ResponsibleBelow(env: Env, n: Node, x: Node)
    requires Responsible(env, n, x)
    ensures Below(x, n)
    decreases n
  {
    if n != x {
      var c := if PassesTo(env, n, n.left, x) then n.left else n.right;
      ResponsibleBelow(env, c.node, x);
    }
  }

  /** Going down one more step keeps what is reached within what was reached. */
  lemma ResponsibleStep(env: Env, n: Node, child: Aig)
    requires n.And? && (child == n.left || child == n.right) && child.Ref?
    requires Eval(env, child) == EvalNode(env, n)
    ensures forall x :: Responsible(env, child.node, x) ==> Responsible(env, n, x)
  {
    forall x | Responsible(env, child.node, x)
      ensures Responsible(env, n, x)
    {
      assert PassesTo(env, n, child, x);
    }
  }

  // ---------------------------------------------------------------------------
  // Runs
  // ---------------------------------------------------------------------------

  /** The true inputs, the restarts and moves so far, and the moves since the
      last restart. */
  datatype Point = Point(env: Env, restarts: nat, steps: nat, moves: nat)

  /** A move, or a restart with all inputs false after the full number of moves. */
  ghost predicate IsStep(roots: set<Aig>, useRestarts: bool, p: Point, q: Point) {
    if useRestarts && p.steps >= MaxSteps(p.restarts + 1) then q == Point(iset{}, p.restarts + 1, 0, p.moves)
    else q == Point(q.env, p.restarts, p.steps + 1, p.moves + 1) && Flips(roots, p.env, q.env)
  }

  ghost predicate StepAt(roots: set<Aig>, useRestarts: bool, run: seq<Point>, i: nat)
    requires i + 1 < |run|
  {
    !AllTrue(run[i].env, roots) && IsStep(roots, useRestarts, run[i], run[i + 1])
  }

  /** A search from all inputs false, where every point before the last one
      falsifies a root. */
  ghost predicate IsRun(roots: set<Aig>, useRestarts: bool, run: seq<Point>) {
    && |run| > 0 && run[0].env == iset{} && run[0].steps == 0
    && forall i :: 0 <= i < |run| - 1 ==> StepAt(roots, useRestarts, run, i)
  }

  ghost function Last(run: seq<Point>): Point
    requires |run| > 0
  {
    run[|run| - 1]
  }

  lemma RunExtends(roots: set<Aig>, useRestarts: bool, run: seq<Point>, q: Point)
    requires IsRun(roots, useRestarts, run) && !AllTrue(Last(run).env, roots)
    requires IsStep(roots, useRestarts, Last(run), q)
    ensures IsRun(roots, useRestarts, run + [q]) && Last(run + [q]) == q && (run + [q])[0] == run[0]
  {
    hide IsStep, AllTrue;
    var run' := run + [q];
    forall i | 0 <= i < |run'| - 1
      ensures StepAt(roots, useRestarts, run', i)
    {
      if i < |run| - 1 {
        assert StepAt(roots, useRestarts, run, i);
      }
    }
  }

  /** A search whose last point falsifies a root did not start with all roots true. */
  lemma StartFalse(roots: set<Aig>, useRestarts: bool, run: seq<Point>)
    requires IsRun(roots, useRestarts, run) && !AllTrue(Last(run).env, roots)
    ensures !AllTrue(iset{}, roots)
  {
    hide AllTrue, IsStep;
    if |run| > 1 {
      assert StepAt(roots, useRestarts, run, 0);
    }
  }

  /** A search that leads from one point to another. */
  ghost predicate Leads(roots: set<Aig>, useRestarts: bool, run: seq<Point>, p: Point, q: Point) {
    && IsRun(roots, useRestarts, run) && run[0] == p && Last(run) == q
    && p.restarts <= q.restarts && (useRestarts || p.restarts == q.restarts)
    && (|run| > 1 ==> !AllTrue(iset{}, roots))
  }

  lemma LeadsStart(roots: set<Aig>, useRestarts: bool, p: Point)
    requires p.env == iset{} && p.steps == 0
    ensures Leads(roots, useRestarts, [p], p, p)
  {
    hide AllTrue, IsStep;
  }

  lemma LeadsFurther(roots: set<Aig>, useRestarts: bool, run: seq<Point>, p: Point, q: Point, q': Point)
    requires Leads(roots, useRestarts, run, p, q) && !AllTrue(q.env, roots) && IsStep(roots, useRestarts, q, q')
    ensures Leads(roots, useRestarts, run + [q'], p, q')
  {
    hide AllTrue, IsRun, IsStep;
    RunExtends(roots, useRestarts, run, q');
    StepRestarts(roots, useRestarts, q, q');
    StartFalse(roots, useRestarts, run);
  }

  lemma StepRestarts(roots: set<Aig>, useRestarts: bool, p: Point, q: Point)
    requires IsStep(roots, useRestarts, p, q)
    ensures p.restarts <= q.restarts && (useRestarts || p.restarts == q.restarts)
  {
    hide MaxSteps, Flips;
  }

  /** One move further. */
  lemma LeadsMove(roots: set<Aig>, useRestarts: bool, run: seq<Point>, p: Point, q: Point, env': Env)
    requires Leads(roots, useRestarts, run, p, q) && !AllTrue(q.env, roots)
    requires (useRestarts ==> q.steps < MaxSteps(q.restarts + 1)) && Flips(roots, q.env, env')
    ensures var q' := Point(env', q.restarts, q.steps + 1, q.moves + 1); Leads(roots, useRestarts, run + [q'], p, q')
  {
    hide AllTrue, Flips, MaxSteps, Leads;
    LeadsFurther(roots, useRestarts, run, p, q, Point(env', q.restarts, q.steps + 1, q.moves + 1));
  }

  /** One restart further. */
  lemma LeadsRestart(roots: set<Aig>, useRestarts: bool, run: seq<Point>, p: Point, q: Point)
    requires Leads(roots, useRestarts, run, p, q) && !AllTrue(q.env, roots)
    requires useRestarts && q.steps >= MaxSteps(q.restarts + 1)
    ensures var q' := Point(iset{}, q.restarts + 1, 0, q.moves); Leads(roots, useRestarts, run + [q'], p, q')
  {
    hide AllTrue, Flips, MaxSteps, Leads;
    LeadsFurther(roots, useRestarts, run, p, q, Point(iset{}, q.restarts + 1, 0, q.moves));
  }

  /** A start that satisfies all roots is the whole search. */
  lemma LeadsNowhere(roots: set<Aig>, useRestarts: bool, run: seq<Point>, p: Point, q: Point)
    requires Leads(roots, useRestarts, run, p, q)
    ensures AllTrue(iset{}, roots) ==> p == q
    ensures |run| > 0 && run[0] == p && Last(run) == q
    ensures p.restarts <= q.restarts && (useRestarts || p.restarts == q.restarts)
  {
    hide AllTrue, IsStep;
  }

  /** Falsified roots in the model are roots that evaluate to false. */
  lemma FalsifiedRoot(unsatroots: set<Aig>, roots: set<Aig>, model: map<Node, int>, graph: set<Node>, r: Aig)
    requires ModelFull(model, graph) && UnsatOk(unsatroots, roots, model) && r in unsatroots
    ensures r in roots && r.Ref? && !Eval(EnvOf(model), r) && !AllTrue(EnvOf(model), roots)
  {
    hide EvalNode;
    ValueIsEval(model, EnvOf(model), r);
  }

  /** The value of the child that the walk chose, as an evaluation. */
  lemma ChildValue(model: map<Node, int>, env: Env, n: Node, child: Aig)
    requires Evaluates(model, env) && n in model && child.Ref? && child.node in model
    requires ValueIn(model, child) == model[n]
    ensures Eval(env, child) == EvalNode(env, n)
  {
    ValueIsEval(model, env, child);
  }

  lemma SelfResponsible(env: Env, n: Node)
    ensures Responsible(env, n, n)
  {
  }
}
