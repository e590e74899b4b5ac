# Boolector's bit-blasting back end and AIG local search, verified

This project models two parts of Boolector and proves them against mathematical meanings.

**The bit-blasting back end.** `AigNodes`, `AigTable` and `AigManager` model the reference-counted,
hash-consed store of And-Inverter Graphs (AIGs) in `src/btoraig.c`, and `AigLaws` says what its rewriting rules
amount to: when none applies, what the bounded search finds, and which results they give. `Vectors`, `BitBlast`,
`Shifter`, `Multiplier` and `Divider` model the circuits that `src/btoraigvec.c` builds over that store.
`Cnf`, `Gates`, `Dfs`, `Regions`, `EdgeBounds`, `Walks` and `Tseitin` model the Tseitin encoder: the clauses of a
gate, the recognizers, the search order, which nodes a call visits and how often, why that is at most their
reference counts, and the encoder itself. `Guarantee` says when every node below an encoded one has an id, and
`GateRuns` builds and encodes an equivalence and a conditional. `Limbs`, `BitVectors`, `BvOps`, `BvShift`,
`BvArith`, `BvSigned`, `BvInverse` and `BvDecimal` model `src/btorbv.c` on 32-bit limbs. `Agreement` shows that
circuits and limb evaluator give the same bits, both being integer arithmetic modulo `2^w`, and
`CircuitCnf` carries the meaning of a circuit through to every satisfying assignment of the emitted clauses.

**The AIG propagation search.** `PropSpec`, `PropTables`, `PropCone`, `PropRuns` and `AigProp` model
`src/aigprop.c`: the model, the falsified roots and the scores that are updated incrementally over the fan-out
cone of one input per move, the inputs that a move may flip, and the search loop with restarts.

`Bits` holds powers of two, bit sequences and the value of each bit-vector operation; `Congruence` holds
congruences and greatest common divisors.

## How the state is modelled

- A node is a value: its id and, for a conjunction, its two child handles. Ids only grow, and children are
  never constant and always older than their parent (`AigNodes.Wf`), which is the order every evaluation and
  every traversal descends. The fields that change (`refs`, `next`, `cnf_id`, `mark`, `local`) are maps in
  the object that owns them. A handle is false, true, or a node with an inversion tag.
- `AigManager.AigMgr` is a class. Its ghost field `handles` counts the references given out and not yet
  returned. `Valid` says that every counter is the number of such references plus the parent edges of
  the live nodes, that the unique table lists exactly the live conjunctions, each in the chain it hashes to,
  that no two of them have the same children, and that the rewriting rules apply to none of them. The ghost
  object `inputs` lists the inputs handed out. Every operation states what it does to `handles`, so
  the circuits account for each reference they take.
- Vectors are sequences with the most significant bit first, as in the source, and so are limbs.
- The meaning of a handle is its evaluation under the set of inputs that are true. Contracts of circuits
  hold for every input assignment and every width.
- `Tseitin.Encoder` keeps, beside the clauses, the node each CNF variable was allocated for, also after its
  id is forgotten. Its invariant says that an assignment satisfies the clauses exactly when it is the
  evaluation of those nodes and the asserted roots are true. Which ids a call adds is a function of the
  reference counts and ids before it (`Regions.Gains`): those of the nodes it reaches along the edges of the
  recognized gates through nodes without ids, except conjunctions whose references it all came along.
- `AigProp.AigProp` keys its tables by nodes and handles in place of their ids, which are unique
  (`AigManager.AigMgr.SameId`). Scores are reals. Random choices and the choice of a falsified root are
  arbitrary, so everything proved holds for all of them.
- Only the active compile-time switches are modelled: XOR and ITE extraction on nodes that are not shared,
  no n-ary conjunctions, no top-level elimination. `BTOR_OPT_SORT_AIG` and `BTOR_OPT_SORT_AIGVEC` are
  Boolean constants of the manager.
- The recognizers of XOR and ITE read the children of an inverted, unshared child without testing that it
  is a conjunction; `Gates.Extractable` states that they are, as a precondition of the encoder. It holds
  while every live input is held (`Guarantee.HeldInputs`), because a held input with a parent is shared.

## Findings

- The resolution rule for two negated conjunctions has a commuted form (`src/btoraig.c:547-562`) whose second condition
  (lines 555-559) repeats one of the first form (lines 539-543). So a child that is shared on the right of the left operand
  and on the left of the right one is not found: `AigLaws.ResolutionFound` states that the rule finds every pattern
  but this one, and every pattern when children are sorted by id. `AigLaws.ResolutionMissed` gives two conjunctions
  over two inputs that are not simplified to an input, although they are with the operands exchanged. The result is
  right in every case. No other rule misses anything: `AigLaws.NoRuleIffUnrelated` states in terms of the operands
  when none applies.
- The cone update reads the score of a constant right child without complementing it when it computes the score
  of a negated conjunction (`src/aigprop.c:664-666`), unlike the computation from scratch (`src/aigprop.c:244-246`).
  `PropSpec.ConeNegScore` states exactly when the result is right: the right child is not constant, or the
  left child is false. `PropSpec.ConeNegScoreWrong` gives an input on which it is wrong. The manager never builds
  such a conjunction, so the incremental scores are exact on every reachable state.
- The last random branch of the path walk (`src/aigprop.c:861-865`) is never taken; `AigProp.AigProp.SelectMove`
  asserts this where the branch begins.
- The guard against rounding in the score of a conjunction never fires over the reals
  (`PropSpec.AndScoreIsAverage`).
- The header says that every AIG reachable from an encoded one keeps a CNF id (`src/btoraig.h:211-213`). The code
  gives none to the inner nodes of recognized gates and forgets ids that were only needed locally; the model follows
  the code. `GateRuns.InnerNodeWithoutId` and `GateRuns.ConditionalInCnf` encode an equivalence and a conditional of
  inputs with a new encoder, and their inner nodes end without an id. `Guarantee.PromiseKept` states when a call keeps the promise: exactly when each conjunction
  below the start without an id is not recognized as a gate, or has inner nodes with ids already, and is the
  start, or has more references than the call comes along, or ids are never released.
  An owner of a reference never loses an id to a call (`Tseitin.HandlesKept`).

## Model

| member | source | states |
|---|---|---|
| AigNodes.TwoLevelSound | src/btoraig.c:443-672 | every two-level rule (contradiction, subsumption, resolution, idempotency, substitution) keeps the value of the conjunction under every input assignment |
| AigNodes.TwoLevelDecreases | src/btoraig.c:443-672 | each retry of the rewriting loop lowers the sum of the operands' node ids, and rewriting stops only with two different nodes that are not constant |
| AigNodes.TwoLevelWithin | src/btoraig.c:443-672 | rewriting only ever names the operands or their children, so it never uses a deleted node |
| AigNodes.FindContradictionSound | src/btoraig.c:373-400 | a contradiction found by the bounded search means the operands are never true together |
| AigNodes.ContradictionSound | src/btoraig.c:674-678 | searching below both operands with one shared budget may answer false |
| AigNodes.XorPairMeaning | src/btoraig.c:680-708 | the implicit XOR pattern is the exclusive or of the left operand's children |
| AigLaws.NoRuleIffUnrelated | src/btoraig.c:443-672 | no rule applies exactly when the operands are different nodes, neither is a child of the other, two conjunctions share no child unless both are inverted, and two inverted ones do not form the resolution pattern as the rule looks for it |
| AigLaws.ResolutionFound | src/btoraig.c:530-561 | the rule finds exactly the resolution patterns whose shared child is not on the right in the first and on the left in the second conjunction, and all patterns when children are sorted |
| AigLaws.ResolutionMissed | src/btoraig.c:530-561 | two conjunctions of inputs that resolve to an input, although no rule applies; with the operands exchanged the rule applies |
| AigLaws.ContradictoryIff | src/btoraig.c:373-400 | the bounded search answers true exactly when one of the first eight positive conjunctions, in search order below the left and then the right operand, has the complement of an operand as a child |
| AigLaws.SearchFinds | src/btoraig.c:373-400 | one search visits as many conjunctions as the rest of the budget allows and finds a clash exactly when one of them clashes |
| AigLaws.RulesObeyLaws | src/btoraig.c:443-561 | constants, repeated operands, a conjunction with its own child or a child's complement, conjunctions with complementary children and resolution give the result named |
| AigLaws.DropChild | src/btoraig.c:603-630 | a negated conjunction with one of its children goes on with the complement of the other child |
| AigLaws.DropShared | src/btoraig.c:577-672 | of two conjunctions that share one child, the shared child is dropped from the second, or from the negated one |
| AigManager.ResultObeysLaws | src/btoraig.c:426-740 | the handle that the AND constructor returns obeys these laws on every store |
| AigManager.SameResult | src/btoraig.c:577-672 | rewriting the operands does not change which handle is returned |
| AigManager.XorNormalized | src/btoraig.c:680-708 | if the complement of the exclusive or that the operands stand for was built from its halves, it is returned inverted |
| AigManager.AigMgr.constructor | src/btoraig.c:782-800 | the id table holds the two constants, there is one chain, and there are no nodes and no references |
| AigManager.AigMgr.FindAnd | src/btoraig.c:201-250 | the chain walk finds the conjunction with these children, or proves that none exists and returns the slot at the end of its chain |
| AigManager.AigMgr.UniqueNodes | src/btoraig.c:712-739 | no two live conjunctions have the same operands in the same order |
| AigManager.AigMgr.SameId | src/btoraig.c:64-77 | live nodes with the same id are the same node |
| AigManager.AigMgr.LiveReduced | src/btoraig.c:426-740 | on every reachable store the children of a live conjunction are different nodes, neither is a child of the other, they share no child unless both are inverted, they do not resolve, and none of the first eight positive conjunctions below them clashes with them |
| AigManager.AigMgr.Enlarge | src/btoraig.c:252-284 | doubling the table moves every node to its new chain and keeps the store valid, so all lookups are preserved |
| AigManager.AigMgr.NewVar | src/btoraig.c:350-362 | a new input gets the next id and one reference, and is the only new input |
| AigManager.AigMgr.Copy | src/btoraig.c:286-293 | takes one more reference |
| AigManager.AigMgr.Insert | src/btoraig.c:712-739 | enters a new irreducible conjunction with the next id and counts both parent edges |
| AigManager.AigMgr.FindXor | src/btoraig.c:680-708 | finds the existing complement of the exclusive or, if there is one, and otherwise proves that there is none |
| AigManager.AigMgr.Rewrite | src/btoraig.c:441-672 | the rewriting loop ends in the normal form of the operands, which stands for the same conjunction and is unrelated |
| AigManager.AigMgr.FindOrInsert | src/btoraig.c:712-739 | returns the one live conjunction of the operands, entering it only if it does not exist, and doubles the table exactly when it enters one into a full table below the limit |
| AigManager.AigMgr.AndExact | src/btoraig.c:426-740 | the AND constructor returns a handle that is the conjunction under every assignment, says which handle it is, obeys the laws of the rules, adds at most that node, and hands out exactly one reference |
| AigManager.AigMgr.And | src/btoraig.c:426-740 | conjunction under every assignment, the handle the rules determine, one new reference, store valid |
| AigManager.AigMgr.Or | src/btoraig.c:742-748 | disjunction, as the complement of a conjunction, one new reference |
| AigManager.AigMgr.Eq | src/btoraig.c:750-764 | equivalence, built by three conjunctions; all intermediate references are returned |
| AigManager.AigMgr.Cond | src/btoraig.c:766-780 | if-then-else, built by three conjunctions; all intermediate references are returned |
| AigManager.AigMgr.Negate | src/btoraig.c:364-371 | the complement, with a reference of its own |
| AigManager.AigMgr.LiveParent | src/btoraig.c:183-192 | a live node that no handle refers to has a live parent |
| AigManager.AigMgr.DeleteEntry | src/btoraig.c:158-181 | unlinks exactly one node from its chain |
| AigManager.AigMgr.DeleteNode | src/btoraig.c:114-181 | removing a node whose last reference is given back passes the references to its children on to the work stack |
| AigManager.AigMgr.Release | src/btoraig.c:295-348 | returns one reference and keeps the store valid for the remaining ones |
| AigManager.AigMgr.LiveIffReachable | src/btoraig.c:295-348 | a node is live exactly when it is reachable from an outstanding handle, so a release deletes exactly the nodes that no handle reaches any more |
| BitBlast.VarVec | src/btoraigvec.c:69-82 | a vector of fresh inputs with consecutive ids, the least significant one first, and no other new inputs |
| BitBlast.CopyVec | src/btoraigvec.c:803-817 | the same handles, with one more reference each |
| BitBlast.ReleaseVec | src/btoraigvec.c:868-883 | returns one reference per component |
| BitBlast.NotVec | src/btoraigvec.c:96-109 | the complement of every component |
| BitBlast.AndVec | src/btoraigvec.c:133-148 | the conjunction of every pair of components |
| BitBlast.HalfAdder | src/btoraigvec.c:221-234 | sum and carry of two bits |
| BitBlast.FullAdder | src/btoraigvec.c:236-248 | sum and carry of three bits, with exact reference accounting |
| BitBlast.Add | src/btoraigvec.c:265-296 | the ripple adder is addition modulo `2^w` for every width, also when the operands are exchanged for a canonical order |
| BitBlast.Ult | src/btoraigvec.c:150-191 | the comparator output is true exactly when the first value is less |
| BitBlast.Eq | src/btoraigvec.c:193-219 | the output is true exactly when the values are equal |
| BitBlast.Slice | src/btoraigvec.c:111-131 | the bits from `upper` down to `lower`, with a reference each |
| BitBlast.Concat | src/btoraigvec.c:754-776 | the bits of both operands, high part first |
| BitBlast.CondVec | src/btoraigvec.c:778-801 | bitwise choice by one condition |
| Shifter.SllNBits | src/btoraigvec.c:298-329 | one left stage moves by `n` places or not at all |
| Shifter.SrlNBits | src/btoraigvec.c:487-518 | one right stage moves by `n` places or not at all |
| Shifter.LogShift | src/btoraigvec.c:451-474 | the logarithmic shifter on a width that is a power of two shifts by the whole amount |
| Shifter.NonZero | src/btoraigvec.c:400-413 | the comparison with zero is true exactly when some bit is set |
| Shifter.WideShift | src/btoraigvec.c:371-447 | the translation for widths above 1, with every intermediate vector released |
| Shifter.TranslateCorrect | src/btoraigvec.c:331-449 | zero extension to a power of two, the shifter on the low amount bits and the test of the high amount bits together shift by the full amount at the original width |
| Shifter.TranslateShift | src/btoraigvec.c:331-449 | for every width, the result is `a * 2^s mod 2^w` or `a / 2^s`, which is 0 for amounts beyond the width |
| Multiplier.AddRow | src/btoraigvec.c:554-596 | after a row, the accumulator is the product with one more bit of the multiplier modulo `2^w` |
| Multiplier.AddCell | src/btoraigvec.c:582-591 | one gated full-adder cell, with exact reference accounting |
| Multiplier.GateVec | src/btoraigvec.c:574-577 | the first row is the multiplicand gated by one bit |
| Multiplier.Mul | src/btoraigvec.c:554-596 | the array multiplier is multiplication modulo `2^w` for every width |
| Divider.RowCorrect | src/btoraigvec.c:604-723 | one row of cells subtracts the divisor if it fits: the partial remainder stays below the divisor and one quotient bit is added |
| Divider.CarryGate | src/btoraigvec.c:604-616 | the carry cell is the majority of its three inputs |
| Divider.SumGate | src/btoraigvec.c:618-641 | the sum cell adds the gated difference of divisor and carry to the remainder bit |
| Divider.DivideRow | src/btoraigvec.c:686-699 | building one row keeps the division invariant |
| Divider.Iterate | src/btoraigvec.c:686-699 | one pass of the outer loop keeps the invariant and accounts for both matrices |
| Divider.FinishRows | src/btoraigvec.c:701-716 | reads the remainder off the last row and releases both matrices |
| Divider.RowsDone | src/btoraigvec.c:604-723 | after all rows the collected bits are quotient and remainder, or all ones and the dividend for a zero divisor |
| Divider.UdivUrem | src/btoraigvec.c:644-723 | the array divider computes quotient and remainder for every width and all inputs, and returns every row's references |
| Divider.Udiv | src/btoraigvec.c:725-738 | the quotient alone |
| Divider.Urem | src/btoraigvec.c:740-752 | the remainder alone |
| Cnf.XorGate | src/btoraig.c:1213-1239 | the four clauses define the output as the equivalence of the two literals |
| Cnf.IteGate | src/btoraig.c:1241-1268 | the four clauses define the output as a choice between two literals |
| Cnf.AndGate | src/btoraig.c:1270-1296 | the clauses define the output as the conjunction of the literals |
| Cnf.AddGate | src/btoraig.c:1205-1297 | a fresh variable with its gate's clauses keeps the clause set exact |
| Cnf.AddRoot | src/btoraig.c:1448-1457 | a unit clause, or the empty clause for false, adds exactly the constraint that the root is true |
| Cnf.UniqueExtension | src/btoraig.c:1110-1320 | every assignment of the input variables extends to exactly one satisfying assignment, the evaluation of the nodes |
| Cnf.SatIffRoots | src/btoraig.c:1448-1457 | the clauses are satisfiable exactly when some inputs make all roots true, and each satisfying assignment contains such inputs |
| Dfs.Close | src/btoraig.c:1131-1206 | a node is popped as open only at its second visit, and then all its successors are finished |
| Dfs.ChildNotOpen | src/aigprop.c:371-395 | a child skipped because it was seen before is finished, since open nodes have larger ids |
| Gates.ShapeMeaning | src/btoraig.c:915-1034 | the recognized XOR, ITE or AND shape has the meaning of the node, in all cases of the recognizers |
| Gates.ShapeIff | src/btoraig.c:915-1034 | a node is recognized exactly when both children are inverted and not shared and have complementary children, as an equivalence exactly when the left ones and the right ones are complementary, and the operands of each shape are those of the inner nodes |
| Gates.LeafsBelow | src/btoraig.c:915-1034 | the leafs of a shape are older nodes below the node and never constant |
| Gates.NoCrossedXor | src/btoraig.c:951-952 | with sorted operands, the second pair of an exclusive or is never the first one crossed |
| Regions.RegionLeast | src/btoraig.c:1135-1206 | the region of a start is the least set that contains it and follows the gate edges of nodes without ids |
| EdgeBounds.OnlyParent | src/btoraig.c:915-1034 | a node with one reference has a single parent, and only a single edge from it |
| EdgeBounds.InnerNotReached | src/btoraig.c:1135-1206 | a call never comes to the inner nodes of a gate it emits clauses for |
| EdgeBounds.VisitsBound | src/btoraig.c:1315 | the gate edges from the emitted gates to a node, and one more for the start, are at most its reference count, and fewer for a node that somebody holds |
| Walks.SeenAgain | src/btoraig.c:1141-1147 | coming to a finished conjunction once more keeps the count of visits exact, and before it the counter is below the reference count |
| Walks.OpenNode | src/btoraig.c:1162-1204 | the first visit of a conjunction keeps the search, the region and the count of visits exact |
| Walks.CloseNode | src/btoraig.c:1205-1300 | at the second visit of a conjunction everything its gate mentions has an id |
| Walks.EndWalk | src/btoraig.c:1135-1300 | when the stack is empty, exactly the region has gained ids and each counter is the number of gate edges to its node, and one more for the start |
| Walks.EndSize | src/btoraig.c:1135-1300 | a traversal adds one variable for each node of the region without an id, three clauses for each plain conjunction and four for each recognized gate |
| Tseitin.Encoder.constructor | src/btorsat.c:348-370 | variable 1 is the constant true |
| Tseitin.Encoder.EncodeInput | src/btoraig.c:1036-1047 | an input gets a fresh variable and the clause set stays exact |
| Tseitin.Encoder.EncodeGate | src/btoraig.c:1205-1297 | a conjunction gets a fresh variable and its gate's three or four clauses, and the clause set stays exact |
| Tseitin.Encoder.Traverse | src/btoraig.c:1135-1300 | exactly the region of the start gains ids, the conjunctions that clauses were emitted for are marked, the local counter of each is its number of visits, at most its reference count, and the numbers of new variables and clauses are those of the region |
| Tseitin.Encoder.Forget | src/btoraig.c:1302-1319 | resets all marks and counters and forgets exactly the ids of marked conjunctions, other than the start, whose counted visits reach their references; no counter exceeds the reference count |
| Tseitin.AfterForget | src/btoraig.c:1302-1319 | after traversal and forgetting, a node has an id exactly when it had one or gains one |
| Tseitin.HandlesKept | src/btoraig.c:1302-1319 | a node that somebody holds has a reference the call does not come along, so it keeps its id |
| Tseitin.Encoder.ToSatTseitin | src/btoraig.c:1110-1320 | a node has an id afterwards exactly when it had one, or is in the region of the start and is the start, an input or used elsewhere, or ids are never released; how many variables and clauses are added; held nodes of the region keep their ids, existing ids and clauses are kept, new ids are fresh, and the clause set stays exact |
| Tseitin.Encoder.AddToplevel | src/btoraig.c:1448-1457 | asserts one more root, keeps the clause set exact for all roots so far, and says which nodes have ids afterwards and how many variables and clauses were added |
| Tseitin.Encoder.ExtendsUniquely | src/btoraig.c:1110-1320 | after any sequence of encoder calls, every assignment of the input variables extends to exactly one satisfying assignment of the allocated variables |
| Tseitin.Encoder.LiteralIsValue | src/btoraig.c:1110-1320 | in every satisfying assignment, the literal of each handle that has one is the handle's evaluation |
| Tseitin.Encoder.SatisfiableIffRoots | src/btoraig.c:1448-1457 | after any list of asserted roots, the clauses are satisfiable exactly when some inputs make every root true |
| Guarantee.BelowInRegion | src/btoraig.c:1135-1206 | where no gate skips an inner node without an id, the region contains every node below the start without an id |
| Guarantee.PromiseKept | src/btoraig.h:211-213 | exactly when a call keeps the documented promise that, with a node, every node below it has an id |
| Guarantee.EncodeAll | src/btoraig.h:211-213 | the same for a call of the encoder on any store and any encoder that kept the promise so far |
| GateRuns.InnerNodeWithoutId | src/btoraig.h:211-213 | an equivalence of two inputs, built by its constructor and encoded by a new encoder: four clauses, three variables, and its live inner nodes have no id |
| GateRuns.ConditionalInCnf | src/btoraig.c:964-1034 | a conditional of three inputs, built by its constructor and encoded by a new encoder: four clauses, four variables, and its live inner nodes have no id |
| GateRuns.EncodeHalves | src/btoraig.c:1110-1320 | the same for any conjunction of complements of two conjunctions of inputs with a complementary child |
| GateRuns.HalvesBuilt | src/btoraig.c:750-780 | what three calls of the AND constructor build over inputs |
| GateRuns.HalvesRefs | src/btoraig.c:295-348 | after the intermediate references are returned, the store has just the nodes below the result, and the inner nodes are not shared |
| Guarantee.HeldInputs | src/btoraig.c:915-1034 | while every live input is held, the recognizers inspect the children of conjunctions only |
| CircuitCnf.VecToSat | src/btoraigvec.c:855-866 | every component of a vector gets a literal |
| CircuitCnf.OperatorInCnf | src/btoraigvec.c:855-866 | in every satisfying assignment the output literals of a circuit spell the operation on its input literals |
| CircuitCnf.OperatorToSat | src/btoraigvec.c:855-866 | building an operator over fresh inputs and encoding it: every choice of input bits extends to a satisfying assignment, and in each satisfying assignment the output literals spell the operator's value |
| BitVectors.SpareIffFits | src/btorbv.c:31-40 | the spare bits of the first limb are zero exactly when the value is below `2^w` |
| BitVectors.ClearSpare | src/btorbv.c:61-67 | masking the spare bits reduces the value modulo `2^w` |
| BitVectors.FromUint64 | src/btorbv.c:250-274 | a machine word cut to the width |
| BitVectors.ToUint64 | src/btorbv.c:815-834 | the value of a vector of at most 64 bits |
| BitVectors.GetBitIs | src/btorbv.c:857-873 | the bit read from the limbs is the bit of the value |
| BitVectors.SetBit | src/btorbv.c:875-908 | overwrites one bit of the value and no other |
| BitVectors.New | src/btorbv.c:98-126 | the zero vector of a width |
| BvOps.Compare | src/btorbv.c:512-531 | compares the values; different widths give -1 |
| BvOps.IsZero | src/btorbv.c:944-957 | true exactly for the value 0 |
| BvOps.IsTrue | src/btorbv.c:926-933 | true exactly for one bit that is set |
| BvOps.Eq | src/btorbv.c:1799-1830 | one bit, set exactly when the values are equal |
| BvOps.Ult | src/btorbv.c:1865-1896 | one bit, set exactly when the first value is less |
| BvOps.Not | src/btorbv.c:1407-1427 | the value is subtracted from `2^w - 1` |
| BvOps.And | src/btorbv.c:1611-1635 | bitwise conjunction of the values, across limbs |
| BvOps.Ite | src/btorbv.c:2686-2717 | masks select one of two vectors |
| BvOps.Add | src/btorbv.c:1542-1584 | addition modulo `2^w`, on machine words and on limbs with a carry |
| BvOps.Neg | src/btorbv.c:1384-1405 | additive inverse modulo `2^w` |
| BvOps.Sub | src/btorbv.c:1586-1609 | adding the inverse |
| BvOps.SubUndoesAdd | src/btorbv.c:1586-1609 | subtracting and adding back gives the first operand modulo `2^w` |
| BvShift.Concat | src/btorbv.c:2542-2594 | `a * 2^(width b) + b` for all widths, with the spare bits zero |
| BvShift.Slice | src/btorbv.c:2596-2621 | `(x / 2^lower) mod 2^(upper - lower + 1)` |
| BvShift.Uext | src/btorbv.c:2661-2684 | zero extension keeps the value |
| BvShift.Sext | src/btorbv.c:2623-2659 | sign extension keeps the signed value |
| BvShift.SllUint64 | src/btorbv.c:2113-2148 | `a * 2^s mod 2^w` on limbs for every shift by a machine word |
| BvShift.SrlUint64 | src/btorbv.c:2223-2250 | `a / 2^s` on limbs for every shift by a machine word |
| BvShift.GetLimb | src/btorbv.c:1183-1219 | the first limb that is not zero, of the vector or of its masked complement |
| BvShift.ClzLimb | src/btorbv.c:1222-1244 | the number of leading zeros of a limb |
| BvShift.GetNumLeading | src/btorbv.c:1247-1289 | exactly the number of leading zeros, or of leading ones, at every width |
| BvShift.ShiftIsUint64 | src/btorbv.c:2150-2177 | answers whether the amount is below `2^64`, at every width, and returns it |
| BvShift.Sll | src/btorbv.c:2179-2194 | `a * 2^b mod 2^w` for amounts of any size |
| BvShift.Srl | src/btorbv.c:2252-2267 | `a / 2^b` for amounts of any size |
| BvShift.Sra | src/btorbv.c:2196-2221 | the signed value divided by `2^b` and rounded down, modulo `2^w` |
| BvArith.Mul | src/btorbv.c:2269-2314 | multiplication modulo `2^w`, on machine words and by shifted additions |
| BvArith.LongStep | src/btorbv.c:2361-2386 | one pass of long division: the left shift of the remainder drops no bit, and remainder and quotient are those of the longer prefix of the dividend |
| BvArith.UdivUrem | src/btorbv.c:2316-2400 | quotient and remainder at every width; all ones and the dividend for a zero divisor |
| BvArith.Udiv | src/btorbv.c:2402-2423 | the quotient alone |
| BvArith.Urem | src/btorbv.c:2425-2446 | the remainder alone |
| BvArith.IsUmulo | src/btorbv.c:2752-2792 | true exactly when the full product does not fit the width |
| BvSigned.Sdiv | src/btorbv.c:2448-2493 | the sign cases of signed division, in terms of absolute values |
| BvSigned.Srem | src/btorbv.c:2495-2540 | the sign cases of the signed remainder |
| BvSigned.SignedRecompose | src/btorbv.c:2448-2540 | `sdiv * b + srem` is congruent to `a` modulo `2^w` for all operands, also for a zero divisor |
| BvSigned.SignedMeaning | src/btorbv.c:2448-2540 | the quotient rounds towards zero and the remainder takes the sign of the dividend; dividing by zero gives 1 for a negative dividend and -1 for any other, and leaves the dividend |
| BvSigned.DivideByZero | src/btorbv.c:2464-2492 | the quotient by zero is 1 for a negative dividend and -1 for any other, and the remainder is the dividend |
| BvInverse.BezoutStep | src/btorbv.c:2986-3003 | a pass of the Euclidean loop keeps `a` and `b` coprime and congruent to multiples of the input, although coefficients are computed with one bit more |
| BvInverse.ModInverse | src/btorbv.c:2877-3020 | for every odd vector of every width the product with the result is 1 modulo `2^w` |
| BvDecimal.GetFirstOneBitIdx | src/btorbv.c:706-722 | the position of the highest bit that is set |
| BvDecimal.Digit | src/btorbv.c:785-793 | the character of a remainder below ten, read from its bits |
| BvDecimal.ToDecChar | src/btorbv.c:744-811 | a decimal numeral without leading zeros that stands for the value, at every width |
| BvDecimal.NumeralUnique | src/btorbv.c:744-811 | a number has only one such numeral |
| Agreement.SameBitsIffValue | src/btorbv.c:31-40 | circuit and vector have the same bits exactly when they have the same width and value |
| Agreement.Circuit | src/btoraigvec.c:133-752 | the circuits for and, add, mul, udiv, urem, sll and srl have the value of the operator under every assignment |
| Agreement.Evaluate | src/btorbv.c:1542-2446 | the limb evaluator's and, add, mul, udiv, urem, sll and srl have the value of the operator |
| Agreement.OperatorAgrees | src/btoraigvec.c:133-752 | circuits and vectors with the operator's value have the same bits, for all inputs |
| Agreement.Binary | src/btoraigvec.c:133-752 | bit-blasting and evaluating and, add, mul, udiv, urem, sll or srl on the same bits gives the same bits, and these are the operator's value |
| Agreement.Negation | src/btoraigvec.c:96-109 | the same for bitwise negation, which subtracts from `2^w - 1` |
| Agreement.Comparison | src/btoraigvec.c:179-219 | the same for equality and unsigned comparison of the values |
| Agreement.Extraction | src/btoraigvec.c:111-131 | the same for slices, with their quotient and remainder by powers of two |
| Agreement.Concatenation | src/btoraigvec.c:754-776 | the same for concatenation, with the high part scaled |
| Agreement.Conditional | src/btoraigvec.c:778-801 | the same for the conditional, with the value chosen by the condition |
| AigProp.AigProp.ComputeParents | src/aigprop.c:940-996 | every node reachable from the roots gets exactly its parents |
| AigProp.AigProp.CollectRoots | src/aigprop.c:946-952 | the nodes of all roots that are not constant |
| AigProp.AigProp.RecursivelyComputeAssignment | src/aigprop.c:342-410 | extends the model to everything below a handle by evaluation, new inputs being false |
| AigProp.AigProp.GenerateModel | src/aigprop.c:431-445 | the model is the evaluation of all reachable nodes; after a reset all inputs are false |
| AigProp.AigProp.ComputeScoreAig | src/aigprop.c:117-270 | everything below the handle is scored in both polarities with the score from scratch |
| AigProp.AigProp.StoreScores | src/aigprop.c:170-258 | both polarities of a node are scored from its value or its children's scores |
| AigProp.AigProp.ComputeScores | src/aigprop.c:272-338 | every reachable node is scored in both polarities with the score from scratch |
| PropSpec.ScoreIsTruth | src/aigprop.c:71-78 | scores lie between 0 and 1, a score is 1 exactly for the true handles, and a false input scores 0 |
| PropSpec.AndScoreIsAverage | src/aigprop.c:224-234 | the score of a conjunction is the average of its children's scores, also with the rounding guard |
| PropSpec.NegScoreIsMax | src/aigprop.c:236-249 | the score of a negated conjunction is the larger of the scores of the negated children |
| PropSpec.ConeNegScore | src/aigprop.c:661-669 | exactly when the cone update's score of a negated conjunction is the one from scratch |
| PropSpec.ConeNegScoreWrong | src/aigprop.c:661-669 | a conjunction with the constant true on the right for which it is not |
| PropSpec.Unaffected | src/aigprop.c:548-569 | outside the fan-out cone of an input neither values nor scores depend on it |
| AigProp.AigProp.UpdateUnsatroots | src/aigprop.c:448-489 | the falsified roots stay exact when one node's value flips |
| AigProp.AigProp.Assign | src/aigprop.c:573-585 | a new value of a node is stored with the falsified roots kept exact |
| AigProp.AigProp.CollectCone | src/aigprop.c:548-569 | the conjunctions found through the parents are closed under parents, each listed once |
| PropCone.StepModel | src/aigprop.c:598-624 | recomputing the cone in the order of ids reads only children whose value is already new |
| PropCone.StepScore | src/aigprop.c:629-670 | the same for the scores, in both polarities |
| PropCone.SortById | src/aigprop.c:593-596 | the cone in ascending order of ids, with the same elements |
| PropCone.AllRecomputed | src/aigprop.c:491-708 | after the last node, model and scores are those from scratch under the new input |
| AigProp.AigProp.UpdateCone | src/aigprop.c:491-708 | model, falsified roots and scores are again exact, for the inputs with exactly this one changed |
| AigProp.AigProp.SelectRoot | src/aigprop.c:712-787 | the chosen root is false and scores below 1 |
| AigProp.AigProp.SelectMove | src/aigprop.c:789-878 | for every random choice the walk ends at an input that is reached through children with the same value as their parent, and the value to assign is the opposite of its current one |
| AigProp.AigProp.Move | src/aigprop.c:880-911 | a move flips exactly one input that is responsible for a falsified root, and keeps every table exact |
| PropRuns.ResponsibleBelow | src/aigprop.c:789-878 | an input that is responsible for a node's value is below the node |
| PropRuns.RestartIntervals | src/aigprop.c:43-45 | every other interval between restarts has 100 moves, and those in between double |
| PropRuns.LeadsFurther | src/aigprop.c:1000-1041 | a search grows by one move below a false root, or by one restart with all inputs false after the full number of moves |
| AigProp.AigProp.MoveOn | src/aigprop.c:1025-1032 | moves until no root is false, a restart is due or the fuel is used up, and extends the search by exactly these moves |
| AigProp.AigProp.CollectUnsatroots | src/aigprop.c:1003-1018 | finds a root that is false or occurs with its negation, if there is one, and otherwise the exact set of falsified roots |
| AigProp.AigProp.Sat | src/aigprop.c:916-1066 | for all random choices and across restarts, the search is returned: it starts with all inputs false, flips an input responsible for a false root in each move, restarts with all inputs false after exactly the number of moves, and ends at the first point that satisfies all roots, which is answered satisfiable; unsatisfiable is answered exactly when a root is false or occurs with its negation, without any move; otherwise exactly the fuel was used and a root is still false |

## Left out

- `simp_aig_by_sat` and the SAT solver itself: the manager is modelled before the solver is initialised, and emitting a clause appends it to a sequence.
- The aborts on overflow of ids and reference counts: ids and counts are unbounded.
- Update in place of node structures and heap-allocated vectors: nodes and vectors are values, and the changing node fields are maps, so aliasing between vectors is not modelled.
- Deleting a node also releases its CNF id in the source (`src/btoraig.c:121`). The encoder here keeps the entry, which no later call can look up, because ids of nodes are never reused.
- Statistics, timing, logging, memory accounting, cloning, `BTOR_USE_GMP` and the debug-only checks.
- AigProp.AigProp.Sat: the unbounded search loop gives up after `fuel` moves; the tables are not cleared at the end; the doubling of restart intervals is not cut off at the width of an int.
- AigProp.AigProp.SelectRoot: the bandit formula and the random number generator are replaced by an arbitrary choice.
- AigProp.AigProp.ComputeScoreAig: the value it returns is not modelled, as its only caller ignores it.
- AigProp.AigProp.UpdateCone: the score table always exists, as it does whenever the search calls it.
- BvShift.Sll: the width is below `2^32`, as the source's type says; the same for the other shifts by vectors.
- The remaining operations of `src/btorbv.c` (reductions, signed comparisons, or, xor and their negations, increments, parsing, hashing, random vectors): they would only add easy members.
- The aigvec operations that compose the ones modelled here, and constants.
