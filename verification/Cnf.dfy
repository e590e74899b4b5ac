/** Clause sets, and what it means for one to describe a set of AIG nodes. */
module Cnf {
  import opened AigNodes

  type Clause = seq<int>

  /** An assignment of the CNF variables: the variables that are true. */
  type Model = iset<int>

  ghost predicate LitTrue(alpha: Model, lit: int) {
    if lit > 0 then lit in alpha else -lit !in alpha
  }

  ghost predicate ClauseTrue(alpha: Model, c: Clause) {
    exists i :: 0 <= i < |c| && LitTrue(alpha, c[i])
  }

  ghost predicate Sat(alpha: Model, clauses: seq<Clause>) {
    forall i :: 0 <= i < |clauses| ==> ClauseTrue(alpha, clauses[i])
  }

  lemma SatConcat(alpha: Model, a: seq<Clause>, b: seq<Clause>)
    ensures Sat(alpha, a + b) <==> Sat(alpha, a) && Sat(alpha, b)
  {
    if Sat(alpha, a + b) {
      forall i | 0 <= i < |a| ensures ClauseTrue(alpha, a[i]) { assert a[i] == (a + b)[i]; }
      forall i | 0 <= i < |b| ensures ClauseTrue(alpha, b[i]) { assert b[i] == (a + b)[|a| + i]; }
    }
  }

  lemma Clause1(alpha: Model, a: int)
    ensures ClauseTrue(alpha, [a]) <==> LitTrue(alpha, a)
  {
    assert [a][0] == a;
  }

  lemma Clause2(alpha: Model, a: int, b: int)
    ensures ClauseTrue(alpha, [a, b]) <==> LitTrue(alpha, a) || LitTrue(alpha, b)
  {
    var c := [a, b];
    assert c[0] == a && c[1] == b;
  }

  lemma Clause3(alpha: Model, a: int, b: int, d: int)
    ensures ClauseTrue(alpha, [a, b, d]) <==> LitTrue(alpha, a) || LitTrue(alpha, b) || LitTrue(alpha, d)
  {
    var c := [a, b, d];
    assert c[0] == a && c[1] == b && c[2] == d;
  }

  lemma LitNeg(alpha: Model, a: int)
    requires a != 0
    ensures LitTrue(alpha, -a) == !LitTrue(alpha, a)
  {
  }

  // ---------------------------------------------------------------------------
  // Gates
  // ---------------------------------------------------------------------------

  /** How a node is encoded, with the handles its clauses mention. */
  datatype Shape = XorShape(a: Aig, b: Aig) | IteShape(els: Aig, thn: Aig, cond: Aig) | AndShape(l: Aig, r: Aig)

  function Leafs(s: Shape): seq<Aig> {
    match s
    case XorShape(a, b) => [a, b]
    case IteShape(e, t, c) => [e, t, c]
    case AndShape(l, r) => [l, r]
  }

  ghost predicate ShapeEval(env: Env, s: Shape) {
    match s
    case XorShape(a, b) => Eval(env, a) == Eval(env, b)
    case IteShape(e, t, c) => if Eval(env, c) then Eval(env, t) else Eval(env, e)
    case AndShape(l, r) => Eval(env, l) && Eval(env, r)
  }

  /** The clauses of a gate with output `x`, given the literals of its leafs. */
  function XorClauses(x: int, a: int, b: int): (cs: seq<Clause>)
    ensures |cs| == 4
  {
    [[-x, a, -b], [-x, -a, b], [x, -a, -b], [x, a, b]]
  }

  function IteClauses(x: int, a: int, b: int, c: int): (cs: seq<Clause>)
    ensures |cs| == 4
  {
    [[-x, -c, b], [-x, c, a], [x, -c, -b], [x, c, -a]]
  }

  function AndClauses(x: int, l: int, r: int): (cs: seq<Clause>)
    ensures |cs| == 3
  {
    [[-l, -r, x], [-x, l], [-x, r]]
  }

  lemma Sat3(alpha: Model, c0: Clause, c1: Clause, c2: Clause)
    ensures Sat(alpha, [c0, c1, c2]) <==> ClauseTrue(alpha, c0) && ClauseTrue(alpha, c1) && ClauseTrue(alpha, c2)
  {
    var cs := [c0, c1, c2];
    assert cs[0] == c0 && cs[1] == c1 && cs[2] == c2;
  }

  lemma Sat4(alpha: Model, c0: Clause, c1: Clause, c2: Clause, c3: Clause)
    ensures Sat(alpha, [c0, c1, c2, c3]) <==>
            ClauseTrue(alpha, c0) && ClauseTrue(alpha, c1) && ClauseTrue(alpha, c2) && ClauseTrue(alpha, c3)
  {
    var cs := [c0, c1, c2, c3];
    assert cs[0] == c0 && cs[1] == c1 && cs[2] == c2 && cs[3] == c3;
  }

  lemma XorGate(alpha: Model, x: int, a: int, b: int)
    requires x != 0 && a != 0 && b != 0
    ensures Sat(alpha, XorClauses(x, a, b)) <==>
            LitTrue(alpha, x) == (LitTrue(alpha, a) == LitTrue(alpha, b))
  {
    hide Sat, ClauseTrue, LitTrue;
    Sat4(alpha, [-x, a, -b], [-x, -a, b], [x, -a, -b], [x, a, b]);
    Clause3(alpha, -x, a, -b);
    Clause3(alpha, -x, -a, b);
    Clause3(alpha, x, -a, -b);
    Clause3(alpha, x, a, b);
    LitNeg(alpha, x);
    LitNeg(alpha, a);
    LitNeg(alpha, b);
  }

  lemma IteGate(alpha: Model, x: int, a: int, b: int, c: int)
    requires x != 0 && a != 0 && b != 0 && c != 0
    ensures Sat(alpha, IteClauses(x, a, b, c)) <==>
            LitTrue(alpha, x) == if LitTrue(alpha, c) then LitTrue(alpha, b) else LitTrue(alpha, a)
  {
    hide Sat, ClauseTrue, LitTrue;
    Sat4(alpha, [-x, -c, b], [-x, c, a], [x, -c, -b], [x, c, -a]);
    Clause3(alpha, -x, -c, b);
    Clause3(alpha, -x, c, a);
    Clause3(alpha, x, -c, -b);
    Clause3(alpha, x, c, -a);
    LitNeg(alpha, x);
    LitNeg(alpha, a);
    LitNeg(alpha, b);
    LitNeg(alpha, c);
  }

  lemma AndGate(alpha: Model, x: int, l: int, r: int)
    requires x != 0 && l != 0 && r != 0
    ensures Sat(alpha, AndClauses(x, l, r)) <==>
            LitTrue(alpha, x) == (LitTrue(alpha, l) && LitTrue(alpha, r))
  {
    hide Sat, ClauseTrue, LitTrue;
    Sat3(alpha, [-l, -r, x], [-x, l], [-x, r]);
    Clause3(alpha, -l, -r, x);
    Clause2(alpha, -x, l);
    Clause2(alpha, -x, r);
    LitNeg(alpha, x);
    LitNeg(alpha, l);
    LitNeg(alpha, r);
  }

  // ---------------------------------------------------------------------------
  // Variables and their nodes
  // ---------------------------------------------------------------------------

  /** `owner[v]` is the node CNF variable `v` was allocated for.  Variable 0 does
      not exist and variable 1 is the constant true. */
  ghost predicate OwnerOk(owner: seq<Aig>) {
    && |owner| >= 2 && owner[0] == False && owner[1] == True
    && forall v :: 2 <= v < |owner| ==> owner[v].Ref? && !owner[v].inverted
  }

  ghost predicate IsInput(owner: seq<Aig>, v: int) {
    2 <= v < |owner| && owner[v].Ref? && owner[v].node.Var?
  }

  /** The two assignments agree on the inputs that have a CNF variable. */
  ghost predicate InputsAgree(alpha: Model, env: Env, owner: seq<Aig>) {
    forall v :: IsInput(owner, v) ==> (v in alpha <==> owner[v].node.id in env)
  }

  /** Every allocated variable has the value of its node. */
  ghost predicate Matches(alpha: Model, env: Env, owner: seq<Aig>) {
    forall v :: 1 <= v < |owner| ==> (v in alpha <==> Eval(env, owner[v]))
  }

  ghost predicate RootsTrue(env: Env, roots: seq<Aig>) {
    forall i :: 0 <= i < |roots| ==> Eval(env, roots[i])
  }

  /** The clauses hold under an assignment exactly when it is the evaluation of
      the nodes and the roots are true. */
  ghost predicate CnfExact(owner: seq<Aig>, clauses: seq<Clause>, roots: seq<Aig>) {
    forall alpha, env :: ExactAt(alpha, env, owner, clauses, roots)
  }

  ghost predicate ExactAt(alpha: Model, env: Env, owner: seq<Aig>, clauses: seq<Clause>, roots: seq<Aig>) {
    InputsAgree(alpha, env, owner) ==>
      (Sat(alpha, clauses) <==> Matches(alpha, env, owner) && RootsTrue(env, roots))
  }

  /** No two variables belong to the same input. */
  ghost predicate InputsInjective(owner: seq<Aig>) {
    forall u, v :: IsInput(owner, u) && IsInput(owner, v) && owner[u] == owner[v] ==> u == v
  }

  /** The literal of a handle. */
  function LitOf(cnfId: map<Node, nat>, a: Aig): int {
    match a
    case True => 1
    case False => -1
    case Ref(n, inv) => var id: int := if n in cnfId then cnfId[n] else 0; if inv then -id else id
  }

  ghost predicate IdsOk(owner: seq<Aig>, cnfId: map<Node, nat>) {
    && (forall n :: n in cnfId ==> 2 <= cnfId[n] < |owner| && owner[cnfId[n]] == Ref(n, false))
    && (forall v :: IsInput(owner, v) ==> owner[v].node in cnfId && cnfId[owner[v].node] == v)
  }

  lemma IdsInjective(owner: seq<Aig>, cnfId: map<Node, nat>)
    requires IdsOk(owner, cnfId)
    ensures InputsInjective(owner)
  {
  }

  /** In a matching assignment the literal of a handle has the handle's value. */
  lemma LitMeaning(alpha: Model, env: Env, owner: seq<Aig>, cnfId: map<Node, nat>, a: Aig)
    requires OwnerOk(owner) && IdsOk(owner, cnfId) && Matches(alpha, env, owner)
    requires a.Ref? ==> a.node in cnfId
    ensures LitOf(cnfId, a) != 0 && LitTrue(alpha, LitOf(cnfId, a)) == Eval(env, a)
  {
    match a
    case True => assert Eval(env, owner[1]);
    case False => assert Eval(env, owner[1]);
    case Ref(n, inv) => assert (cnfId[n] in alpha) <==> Eval(env, owner[cnfId[n]]);
  }

  /** Allocating a variable for an input. */
  lemma AddInput(owner: seq<Aig>, cnfId: map<Node, nat>, clauses: seq<Clause>, roots: seq<Aig>, n: Node)
    requires OwnerOk(owner) && IdsOk(owner, cnfId) && CnfExact(owner, clauses, roots)
    requires n.Var? && n !in cnfId
    ensures var owner' := owner + [Ref(n, false)];
            OwnerOk(owner') && IdsOk(owner', cnfId[n := |owner|]) && CnfExact(owner', clauses, roots)
  {
    hide Sat, RootsTrue;
    var owner' := owner + [Ref(n, false)];
    forall alpha, env
      ensures ExactAt(alpha, env, owner', clauses, roots)
    {
      assert ExactAt(alpha, env, owner, clauses, roots);
      if InputsAgree(alpha, env, owner') {
        AgreePrefix(alpha, env, owner, Ref(n, false));
        assert IsInput(owner', |owner|);
        MatchesAppend(alpha, env, owner, Ref(n, false));
      }
    }
  }

  lemma AgreePrefix(alpha: Model, env: Env, owner: seq<Aig>, a: Aig)
    requires InputsAgree(alpha, env, owner + [a])
    ensures InputsAgree(alpha, env, owner)
  {
    forall v | IsInput(owner, v)
      ensures v in alpha <==> owner[v].node.id in env
    {
      assert IsInput(owner + [a], v);
    }
  }

  lemma MatchesAppend(alpha: Model, env: Env, owner: seq<Aig>, a: Aig)
    requires |owner| >= 1
    ensures Matches(alpha, env, owner + [a]) <==>
            Matches(alpha, env, owner) && (|owner| in alpha <==> Eval(env, a))
  {
    hide Eval;
    var owner' := owner + [a];
    if Matches(alpha, env, owner') {
      assert owner'[|owner|] == a;
      forall v | 1 <= v < |owner|
        ensures v in alpha <==> Eval(env, owner[v])
      {
        assert owner'[v] == owner[v];
      }
    }
  }

  /** The block of clauses makes variable `x` the value of the shape. */
  ghost predicate Defines(block: seq<Clause>, x: int, cnfId: map<Node, nat>, s: Shape) {
    match s
    case XorShape(a, b) => block == XorClauses(x, LitOf(cnfId, a), LitOf(cnfId, b))
    case IteShape(e, t, c) => block == IteClauses(x, LitOf(cnfId, e), LitOf(cnfId, t), LitOf(cnfId, c))
    case AndShape(l, r) => block == AndClauses(x, LitOf(cnfId, l), LitOf(cnfId, r))
  }

  ghost predicate LeafsEncoded(cnfId: map<Node, nat>, s: Shape) {
    forall a :: a in Leafs(s) && a.Ref? ==> a.node in cnfId
  }

  lemma GateMeaning(alpha: Model, env: Env, owner: seq<Aig>, cnfId: map<Node, nat>, block: seq<Clause>, x: int,
                    s: Shape)
    requires OwnerOk(owner) && IdsOk(owner, cnfId) && Matches(alpha, env, owner)
    requires x > 0 && Defines(block, x, cnfId, s) && LeafsEncoded(cnfId, s)
    ensures Sat(alpha, block) <==> (x in alpha <==> ShapeEval(env, s))
  {
    hide OwnerOk, IdsOk, Matches, Sat, Eval, XorClauses, IteClauses, AndClauses, LitOf;
    forall a | a in Leafs(s)
      ensures LitOf(cnfId, a) != 0 && LitTrue(alpha, LitOf(cnfId, a)) == Eval(env, a)
    {
      LitMeaning(alpha, env, owner, cnfId, a);
    }
    match s
    case XorShape(a, b) =>
      assert a in Leafs(s) && b in Leafs(s);
      XorGate(alpha, x, LitOf(cnfId, a), LitOf(cnfId, b));
    case IteShape(e, t, c) =>
      assert e in Leafs(s) && t in Leafs(s) && c in Leafs(s);
      IteGate(alpha, x, LitOf(cnfId, e), LitOf(cnfId, t), LitOf(cnfId, c));
    case AndShape(l, r) =>
      assert l in Leafs(s) && r in Leafs(s);
      AndGate(alpha, x, LitOf(cnfId, l), LitOf(cnfId, r));
  }

  /** Allocating a variable for a conjunction and emitting its clauses. */
  lemma AddGate(owner: seq<Aig>, cnfId: map<Node, nat>, clauses: seq<Clause>, roots: seq<Aig>, n: Node,
                block: seq<Clause>, s: Shape)
    requires OwnerOk(owner) && IdsOk(owner, cnfId) && CnfExact(owner, clauses, roots)
    requires n.And? && n !in cnfId && Defines(block, |owner|, cnfId, s) && LeafsEncoded(cnfId, s)
    requires forall env :: Eval(env, Ref(n, false)) == ShapeEval(env, s)
    ensures var owner' := owner + [Ref(n, false)];
            OwnerOk(owner') && IdsOk(owner', cnfId[n := |owner|]) && CnfExact(owner', clauses + block, roots)
  {
    hide Sat, RootsTrue, Defines, LeafsEncoded, Eval, ShapeEval, Matches;
    var owner' := owner + [Ref(n, false)];
    forall alpha, env
      ensures ExactAt(alpha, env, owner', clauses + block, roots)
    {
      assert ExactAt(alpha, env, owner, clauses, roots);
      if InputsAgree(alpha, env, owner') {
        AgreePrefix(alpha, env, owner, Ref(n, false));
        MatchesAppend(alpha, env, owner, Ref(n, false));
        SatConcat(alpha, clauses, block);
        assert Eval(env, Ref(n, false)) == ShapeEval(env, s);
        if Matches(alpha, env, owner) {
          GateMeaning(alpha, env, owner, cnfId, block, |owner|, s);
        }
      }
    }
  }

  /** Asserting a root by a unit clause, or by the empty clause if it is false. */
  lemma AddRoot(owner: seq<Aig>, cnfId: map<Node, nat>, clauses: seq<Clause>, roots: seq<Aig>, a: Aig,
                block: seq<Clause>)
    requires OwnerOk(owner) && IdsOk(owner, cnfId) && CnfExact(owner, clauses, roots)
    requires a.Ref? ==> a.node in cnfId
    requires block == if a == True then [] else if a == False then [[]] else [[LitOf(cnfId, a)]]
    ensures CnfExact(owner, clauses + block, roots + [a])
  {
    hide Matches, LitOf, Eval;
    forall alpha, env
      ensures ExactAt(alpha, env, owner, clauses + block, roots + [a])
    {
      assert ExactAt(alpha, env, owner, clauses, roots);
      SatConcat(alpha, clauses, block);
      RootsAppend(env, roots, a);
      if InputsAgree(alpha, env, owner) && Matches(alpha, env, owner) {
        RootBlock(alpha, env, owner, cnfId, a, block);
      }
    }
  }

  lemma RootBlock(alpha: Model, env: Env, owner: seq<Aig>, cnfId: map<Node, nat>, a: Aig, block: seq<Clause>)
    requires OwnerOk(owner) && IdsOk(owner, cnfId) && Matches(alpha, env, owner)
    requires a.Ref? ==> a.node in cnfId
    requires block == if a == True then [] else if a == False then [[]] else [[LitOf(cnfId, a)]]
    ensures Sat(alpha, block) <==> Eval(env, a)
  {
    hide OwnerOk, IdsOk, Matches, LitTrue;
    LitMeaning(alpha, env, owner, cnfId, a);
    if a.Ref? {
      Clause1(alpha, LitOf(cnfId, a));
      assert Sat(alpha, block) <==> ClauseTrue(alpha, block[0]);
    } else if a == False {
      assert !ClauseTrue(alpha, block[0]);
    }
  }

  lemma RootsAppend(env: Env, roots: seq<Aig>, a: Aig)
    ensures RootsTrue(env, roots + [a]) <==> RootsTrue(env, roots) && Eval(env, a)
  {
    hide Eval;
    var roots' := roots + [a];
    if RootsTrue(env, roots') {
      assert roots'[|roots|] == a;
      forall i | 0 <= i < |roots| ensures Eval(env, roots[i]) { assert roots'[i] == roots[i]; }
    }
  }

  // ---------------------------------------------------------------------------
  // What an exact clause set is good for
  // ---------------------------------------------------------------------------

  /** The input assignment that a CNF assignment stands for. */
  ghost function InputsOf(alpha: Model, owner: seq<Aig>): Env {
    iset v | IsInput(owner, v) && v in alpha :: owner[v].node.id
  }

  /** The evaluation of the nodes, as an assignment of the CNF variables. */
  ghost function ModelOf(env: Env, owner: seq<Aig>): Model {
    iset v | 1 <= v < |owner| && Eval(env, owner[v])
  }

  lemma InputsOfAgrees(alpha: Model, owner: seq<Aig>)
    requires OwnerOk(owner) && InputsInjective(owner)
    ensures InputsAgree(alpha, InputsOf(alpha, owner), owner)
  {
    var env := InputsOf(alpha, owner);
    forall v | IsInput(owner, v)
      ensures v in alpha <==> owner[v].node.id in env
    {
      if owner[v].node.id in env {
        var u :| IsInput(owner, u) && u in alpha && owner[u].node.id == owner[v].node.id;
        assert owner[u] == owner[v];
      }
    }
  }

  lemma ModelOfMatches(env: Env, owner: seq<Aig>)
    requires OwnerOk(owner)
    ensures Matches(ModelOf(env, owner), env, owner) && InputsAgree(ModelOf(env, owner), env, owner)
  {
    var alpha := ModelOf(env, owner);
    forall v | IsInput(owner, v)
      ensures v in alpha <==> owner[v].node.id in env
    {
      assert Eval(env, owner[v]) == (owner[v].node.id in env);
    }
  }

  /** The assignments agree on the CNF variables of the inputs. */
  ghost predicate SameInputs(alpha: Model, beta: Model, owner: seq<Aig>) {
    forall v :: IsInput(owner, v) ==> (v in alpha <==> v in beta)
  }

  /** Every assignment of the input variables extends to a satisfying one, which
      is unique on the allocated variables: it is the evaluation of the nodes. */
  lemma UniqueExtension(owner: seq<Aig>, clauses: seq<Clause>, inputs: Model)
    requires OwnerOk(owner) && InputsInjective(owner) && CnfExact(owner, clauses, [])
    ensures var env := InputsOf(inputs, owner);
            var alpha := ModelOf(env, owner);
            && SameInputs(alpha, inputs, owner)
            && Sat(alpha, clauses)
            && forall beta :: Sat(beta, clauses) && SameInputs(beta, inputs, owner) ==> Matches(beta, env, owner)
  {
    hide Eval, Sat;
    var env := InputsOf(inputs, owner);
    var alpha := ModelOf(env, owner);
    InputsOfAgrees(inputs, owner);
    ModelOfMatches(env, owner);
    assert ExactAt(alpha, env, owner, clauses, []);
    forall beta | Sat(beta, clauses) && SameInputs(beta, inputs, owner)
      ensures Matches(beta, env, owner)
    {
      assert ExactAt(beta, env, owner, clauses, []);
      assert InputsAgree(beta, env, owner);
    }
  }

  /** The clauses are satisfiable exactly when some input assignment makes all
      roots true, and a satisfying assignment contains such a witness. */
  lemma SatIffRoots(owner: seq<Aig>, clauses: seq<Clause>, roots: seq<Aig>)
    requires OwnerOk(owner) && InputsInjective(owner) && CnfExact(owner, clauses, roots)
    ensures (exists alpha :: Sat(alpha, clauses)) <==> (exists env :: RootsTrue(env, roots))
    ensures forall alpha :: Sat(alpha, clauses) ==> RootsTrue(InputsOf(alpha, owner), roots)
  {
    hide Eval, RootsTrue, Sat, Matches;
    forall alpha | Sat(alpha, clauses)
      ensures RootsTrue(InputsOf(alpha, owner), roots)
    {
      InputsOfAgrees(alpha, owner);
      assert ExactAt(alpha, InputsOf(alpha, owner), owner, clauses, roots);
    }
    if env :| RootsTrue(env, roots) {
      ModelOfMatches(env, owner);
      assert ExactAt(ModelOf(env, owner), env, owner, clauses, roots);
    }
  }
}
