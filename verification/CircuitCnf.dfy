/** From circuits to clauses: in every satisfying assignment, the literals of a
    circuit's outputs spell the value of the operation on its inputs' literals. */
module CircuitCnf {
  import opened AigNodes
  import opened AigManager
  import opened AigTable
  import opened BitBlast
  import opened Bits
  import opened Cnf
  import opened Gates
  import opened Guarantee
  import opened Tseitin
  import V = Vectors
  import Agreement

  ghost predicate Encoded(ids: map<Node, nat>, v: seq<Aig>) {
    forall i :: 0 <= i < |v| && v[i].Ref? ==> v[i].node in ids
  }

  /** Encodes every component of a vector. */
  method VecToSat(e: Encoder, m: AigMgr, v: seq<Aig>)
    requires e.Valid() && m.Valid()
    requires forall i :: 0 <= i < |v| ==> m.Live(v[i])
    requires forall i :: 0 <= i < |v| && v[i].Ref? ==> Extractable(m.refs, v[i].node)
    modifies e
    ensures e.Valid() && e.roots == old(e.roots) && Encoded(e.cnfId, v)
    ensures forall n :: n in old(e.cnfId) ==> n in e.cnfId && e.cnfId[n] == old(e.cnfId)[n]
  {
    hide AigMgr.Valid, Extractable, Encoder.Valid, Below;
    var i := 0;
    while i < |v|
      invariant 0 <= i <= |v| && e.Valid() && e.roots == old(e.roots) && Encoded(e.cnfId, v[..i])
      invariant forall n :: n in old(e.cnfId) ==> n in e.cnfId && e.cnfId[n] == old(e.cnfId)[n]
    {
      ghost var before := e.cnfId;
      e.ToSatTseitin(m, v[i]);
      EncodedMore(before, e.cnfId, v, i);
      i := i + 1;
    }
    assert v[..i] == v;
  }

  lemma EncodedMore(before: map<Node, nat>, ids: map<Node, nat>, v: seq<Aig>, i: nat)
    requires i < |v| && Encoded(before, v[..i]) && (v[i].Ref? ==> v[i].node in ids)
    requires forall n :: n in before ==> n in ids
    ensures Encoded(ids, v[..i + 1])
  {
    PrefixSnoc(v, i);
  }

  /** The truth values of the literals of a vector. */
  ghost function LitBits(alpha: Model, ids: map<Node, nat>, v: seq<Aig>): seq<bool> {
    seq(|v|, i requires 0 <= i < |v| => LitTrue(alpha, LitOf(ids, v[i])))
  }

  lemma LitBitsEval(e: Encoder, alpha: Model, v: seq<Aig>)
    requires e.Exact() && Sat(alpha, e.clauses) && Encoded(e.cnfId, v)
    ensures LitBits(alpha, e.cnfId, v) == V.EvalVec(InputsOf(alpha, e.owner), v)
  {
    hide Encoder.Exact, Sat, Eval, LitTrue;
    var env := InputsOf(alpha, e.owner);
    forall i | 0 <= i < |v|
      ensures LitBits(alpha, e.cnfId, v)[i] == V.EvalVec(env, v)[i]
    {
      e.LiteralIsValue(alpha, v[i]);
    }
  }

  /** For every operator, every width and every satisfying assignment. */
  lemma OperatorInCnf(e: Encoder, alpha: Model, op: Agreement.Operator, a: seq<Aig>, b: seq<Aig>, c: seq<Aig>)
    requires e.Exact() && Sat(alpha, e.clauses)
    requires Encoded(e.cnfId, a) && Encoded(e.cnfId, b) && Encoded(e.cnfId, c)
    requires forall env :: V.Value(env, c) == Agreement.Meaning(op, |a|, V.Value(env, a), V.Value(env, b))
    ensures Num(LitBits(alpha, e.cnfId, c))
            == Agreement.Meaning(op, |a|, Num(LitBits(alpha, e.cnfId, a)), Num(LitBits(alpha, e.cnfId, b)))
  {
    hide Encoder.Exact, Sat, Agreement.Meaning, Num;
    LitBitsEval(e, alpha, a);
    LitBitsEval(e, alpha, b);
    LitBitsEval(e, alpha, c);
    var env := InputsOf(alpha, e.owner);
    assert V.Value(env, c) == Agreement.Meaning(op, |a|, V.Value(env, a), V.Value(env, b));
  }

  // ---------------------------------------------------------------------------
  // From fresh inputs to clauses
  // ---------------------------------------------------------------------------

  /** Some satisfying assignment gives the literals of `a` and `b` these bits. */
  ghost predicate Realizable(clauses: seq<Clause>, ids: map<Node, nat>, a: seq<Aig>, xs: seq<bool>,
                             b: seq<Aig>, ys: seq<bool>)
  {
    exists alpha :: Sat(alpha, clauses) && LitBits(alpha, ids, a) == xs && LitBits(alpha, ids, b) == ys
  }

  /** Without roots, evaluating all nodes satisfies the clauses. */
  lemma EvaluationSatisfies(e: Encoder, env: Env, v: seq<Aig>)
    requires e.Exact() && e.roots == [] && Encoded(e.cnfId, v)
    ensures Sat(ModelOf(env, e.owner), e.clauses)
    ensures LitBits(ModelOf(env, e.owner), e.cnfId, v) == V.EvalVec(env, v)
  {
    hide Eval, Sat, LitTrue;
    var alpha := ModelOf(env, e.owner);
    ModelOfMatches(env, e.owner);
    assert ExactAt(alpha, env, e.owner, e.clauses, []);
    forall i | 0 <= i < |v|
      ensures LitTrue(alpha, LitOf(e.cnfId, v[i])) == Eval(env, v[i])
    {
      LitMeaning(alpha, env, e.owner, e.cnfId, v[i]);
    }
  }

  /** The inputs that are true when `a` reads `xs` and `b` reads `ys`. */
  ghost function EnvOf(a: seq<Aig>, xs: seq<bool>, b: seq<Aig>, ys: seq<bool>): Env {
    iset k | (exists i :: 0 <= i < |a| && i < |xs| && xs[i] && a[i] == Ref(Var(k), false))
          || (exists i :: 0 <= i < |b| && i < |ys| && ys[i] && b[i] == Ref(Var(k), false))
  }

  /** Vectors of different inputs. */
  ghost predicate FreshInputs(a: seq<Aig>, b: seq<Aig>) {
    && (forall i :: 0 <= i < |a| ==> a[i].Ref? && !a[i].inverted && a[i].node.Var?)
    && (forall i :: 0 <= i < |b| ==> b[i].Ref? && !b[i].inverted && b[i].node.Var?)
    && (forall i, j :: 0 <= i < j < |a| ==> a[i] != a[j])
    && (forall i, j :: 0 <= i < j < |b| ==> b[i] != b[j])
    && (forall i, j :: 0 <= i < |a| && 0 <= j < |b| ==> a[i] != b[j])
  }

  lemma InputsRead(a: seq<Aig>, xs: seq<bool>, b: seq<Aig>, ys: seq<bool>)
    requires FreshInputs(a, b) && |xs| == |a| && |ys| == |b|
    ensures V.EvalVec(EnvOf(a, xs, b, ys), a) == xs && V.EvalVec(EnvOf(a, xs, b, ys), b) == ys
  {
    var env := EnvOf(a, xs, b, ys);
    forall i | 0 <= i < |a|
      ensures Eval(env, a[i]) == xs[i]
    {
      assert a[i] == Ref(Var(a[i].node.id), false);
    }
    forall i | 0 <= i < |b|
      ensures Eval(env, b[i]) == ys[i]
    {
      assert b[i] == Ref(Var(b[i].node.id), false);
    }
  }

  lemma AllRealizable(e: Encoder, a: seq<Aig>, xs: seq<bool>, b: seq<Aig>, ys: seq<bool>)
    requires e.Exact() && e.roots == [] && Encoded(e.cnfId, a) && Encoded(e.cnfId, b)
    requires FreshInputs(a, b) && |xs| == |a| && |ys| == |b|
    ensures Realizable(e.clauses, e.cnfId, a, xs, b, ys)
  {
    hide Encoder.Exact, Sat, LitTrue, EnvOf, FreshInputs, Encoded;
    var env := EnvOf(a, xs, b, ys);
    InputsRead(a, xs, b, ys);
    EvaluationSatisfies(e, env, a);
    EvaluationSatisfies(e, env, b);
    assert Sat(ModelOf(env, e.owner), e.clauses);
  }

  /** A store whose inputs are the components of two vectors that are held. */
  lemma AllInputsHeld(m: AigMgr, a: seq<Aig>, b: seq<Aig>)
    requires m.Valid() && m.inputs.nodes == NodesOf(a) + NodesOf(b) && HeldVec(m, a) && HeldVec(m, b)
    ensures forall n :: n in m.refs && n.Var? ==> n in m.handles
  {
    hide Hs;
    forall n | n in m.refs && n.Var?
      ensures n in m.handles
    {
      if n in NodesOf(a) {
        HeldNode(a, n);
      } else {
        HeldNode(b, n);
      }
    }
  }

  lemma HeldNode(v: seq<Aig>, n: Node)
    requires n in NodesOf(v)
    ensures n in Hs(v)
  {
    var i :| 0 <= i < |v| && v[i].Ref? && v[i].node == n;
    V.HsIndex(v, i);
    assert n in H(v[i]);
  }

  lemma ValidIsExact(e: Encoder)
    requires e.Valid()
    ensures e.Exact()
  {
  }

  lemma InputVectors(a: seq<Aig>, b: seq<Aig>, w: nat)
    requires |a| == |b| == w
    requires forall i :: 0 <= i < w ==> a[i] == Ref(Var(2 + w - 1 - i), false)
    requires forall i :: 0 <= i < w ==> b[i] == Ref(Var(2 + w + w - 1 - i), false)
    ensures FreshInputs(a, b)
  {
  }

  lemma ThreeHeld(p: multiset<Node>, q: multiset<Node>, r: multiset<Node>)
    ensures p <= multiset{} + p + q + r && q <= multiset{} + p + q + r && r <= multiset{} + p + q + r
    ensures multiset{} + p + q + multiset{} == multiset{} + p + q
  {
  }

  lemma NodesOfNone(p: set<Node>, q: set<Node>)
    ensures {} + p + q == p + q
  {
  }

  /** A vector that is held can be encoded while all inputs are. */
  lemma VecReady(m: AigMgr, v: seq<Aig>)
    requires m.Valid() && HeldVec(m, v) && forall n :: n in m.refs && n.Var? ==> n in m.handles
    ensures forall i :: 0 <= i < |v| ==> m.Live(v[i])
    ensures forall i :: 0 <= i < |v| && v[i].Ref? ==> Extractable(m.refs, v[i].node)
  {
    hide AigMgr.Valid, Extractable, H, Hs;
    forall i | 0 <= i < |v|
      ensures m.Live(v[i])
      ensures v[i].Ref? ==> Extractable(m.refs, v[i].node)
    {
      HeldAt(m.handles, v, i, m.handles);
      m.HeldIsLive(v[i]);
      if v[i].Ref? {
        HeldInputs(m, v[i].node);
      }
    }
  }

  lemma EncodedKept(before: map<Node, nat>, ids: map<Node, nat>, v: seq<Aig>)
    requires Encoded(before, v) && forall n :: n in before ==> n in ids
    ensures Encoded(ids, v)
  {
  }

  /** The circuit of an operator over fresh inputs. */
  method BuildOperator(op: Agreement.Operator, width: nat, sortAig: bool)
      returns (m: AigMgr, a: seq<Aig>, b: seq<Aig>, c: seq<Aig>)
    requires width > 0
    ensures fresh(m) && m.Valid() && |a| == |b| == |c| == width && FreshInputs(a, b)
    ensures HeldVec(m, a) && HeldVec(m, b) && HeldVec(m, c)
    ensures forall n :: n in m.refs && n.Var? ==> n in m.handles
    ensures forall env :: V.Value(env, c) == Agreement.Meaning(op, width, V.Value(env, a), V.Value(env, b))
  {
    hide AigMgr.Valid, H, Hs, NodesOf, V.Value, Agreement.Meaning, FreshInputs;
    m := new AigMgr(sortAig, true);
    a := VarVec(m, width);
    b := VarVec(m, width);
    InputVectors(a, b, width);
    ThreeHeld(Hs(a), Hs(b), multiset{});
    c := Agreement.Circuit(m, op, a, b);
    ThreeHeld(Hs(a), Hs(b), Hs(c));
    NodesOfNone(NodesOf(a), NodesOf(b));
    AllInputsHeld(m, a, b);
  }

  /** Builds the circuit of an operator over fresh inputs and encodes it: every
      choice of input bits is realized, and in every satisfying assignment the
      output literals spell the operator's value. */
  method OperatorToSat(op: Agreement.Operator, width: nat, sortAig: bool, haveRestore: bool)
      returns (m: AigMgr, e: Encoder, a: seq<Aig>, b: seq<Aig>, c: seq<Aig>)
    requires width > 0
    ensures m.Valid() && e.Valid() && e.roots == [] && |a| == |b| == |c| == width
    ensures Encoded(e.cnfId, a) && Encoded(e.cnfId, b) && Encoded(e.cnfId, c)
    ensures forall xs, ys | |xs| == |ys| == width :: Realizable(e.clauses, e.cnfId, a, xs, b, ys)
    ensures forall alpha | Sat(alpha, e.clauses) ::
              Num(LitBits(alpha, e.cnfId, c))
              == Agreement.Meaning(op, width, Num(LitBits(alpha, e.cnfId, a)), Num(LitBits(alpha, e.cnfId, b)))
  {
    hide AigMgr.Valid, Encoder.Valid, Extractable, HeldVec, Encoded, Sat, Num, LitBits, V.Value, Agreement.Meaning,
         Realizable, FreshInputs;
    m, a, b, c := BuildOperator(op, width, sortAig);
    e := new Encoder(haveRestore);
    VecReady(m, a);
    VecReady(m, b);
    VecReady(m, c);
    VecToSat(e, m, a);
    ghost var ids := e.cnfId;
    VecToSat(e, m, b);
    EncodedKept(ids, e.cnfId, a);
    ids := e.cnfId;
    VecToSat(e, m, c);
    EncodedKept(ids, e.cnfId, a);
    EncodedKept(ids, e.cnfId, b);
    ValidIsExact(e);
    forall xs, ys | |xs| == |ys| == width
      ensures Realizable(e.clauses, e.cnfId, a, xs, b, ys)
    {
      AllRealizable(e, a, xs, b, ys);
    }
    forall alpha | Sat(alpha, e.clauses)
      ensures Num(LitBits(alpha, e.cnfId, c))
              == Agreement.Meaning(op, width, Num(LitBits(alpha, e.cnfId, a)), Num(LitBits(alpha, e.cnfId, b)))
    {
      OperatorInCnf(e, alpha, op, a, b, c);
    }
  }
}
