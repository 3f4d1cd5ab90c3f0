/**
  The SAT path: the solver is an oracle that returns a model, a list of
  non-zero literals; the model is turned back into an assignment of 1 (trap),
  -1 (gem) or 0 (not mentioned) per cell. The literal read last for a cell
  decides its value.
 */
module SatModel {
  import opened Clues
  import opened Encoding

  /** A solver model never contains the literal 0. */
  predicate NoZero(model: seq<int>) {
    forall l :: l in model ==> l != 0
  }

  /** No variable occurs with both signs. */
  predicate Consistent(model: seq<int>) {
    forall l :: l in model ==> -l !in model
  }

  /** Every clause of cnf contains a literal of the model. */
  predicate ModelSatisfies(model: seq<int>, cnf: seq<seq<int>>) {
    forall c :: c in cnf ==> exists l :: l in c && l in model
  }

  /** The value the conversion loop leaves in cell v - 1 after reading model:
      the sign of the last literal on variable v, or 0 when there is none. */
  function LastSign(model: seq<int>, v: int): (s: int)
    ensures s == 0 || s == 1 || s == -1
    ensures s == 1 ==> v in model
    ensures s == -1 ==> -v in model
  {
    if model == [] then 0
    else
      var l := model[|model| - 1];
      if Abs(l) == v then (if l > 0 then 1 else -1) else LastSign(model[..|model| - 1], v)
  }

  /** The assignment the conversion builds for n cells. */
  function Converted(model: seq<int>, n: nat): seq<int> {
    seq(n, k requires 0 <= k < n => LastSign(model, k + 1))
  }

  /** Later literals overwrite earlier ones: when model[k] is the last literal
      on variable v, cell v - 1 ends with its sign. */
  lemma {:induction false} LastSignIsLast(model: seq<int>, v: int, k: nat)
    requires k < |model| && Abs(model[k]) == v
    requires forall k' :: k < k' < |model| ==> Abs(model[k']) != v
    ensures LastSign(model, v) == (if model[k] > 0 then 1 else -1)
  {
    if k < |model| - 1 {
      var init := model[..|model| - 1];
      assert init[k] == model[k];
      forall k' | k < k' < |init| ensures Abs(init[k']) != v {
        assert init[k'] == model[k'];
      }
      LastSignIsLast(init, v, k);
    }
  }

  /** In a consistent model the conversion reads off each variable's sign, and
      leaves 0 exactly for the variables the model does not mention. */
  lemma {:induction false} LastSignConsistent(model: seq<int>, v: int)
    requires NoZero(model) && Consistent(model) && v >= 1
    ensures LastSign(model, v) == (if v in model then 1 else if -v in model then -1 else 0)
  {
    if model != [] {
      var init := model[..|model| - 1];
      var l := model[|model| - 1];
      assert model == init + [l];
      assert NoZero(init) && Consistent(init) by {
        forall x | x in init ensures x in model { }
      }
      LastSignConsistent(init, v);
    }
  }

  /** The model a complete assignment induces: v when cell v - 1 is a trap,
      -v otherwise. */
  function ModelOf(a: seq<int>): seq<int> {
    seq(|a|, k requires 0 <= k < |a| => if a[k] > 0 then k + 1 else -(k + 1))
  }

  /** Every literal of the induced model is non-zero, names a cell, and
      occurs with one sign only. */
  lemma ModelOfWellFormed(a: seq<int>)
    ensures NoZero(ModelOf(a)) && Consistent(ModelOf(a))
    ensures forall l :: l in ModelOf(a) ==> 1 <= Abs(l) <= |a|
  {
    var m := ModelOf(a);
    forall l | l in m ensures -l !in m {
      var k :| 0 <= k < |m| && m[k] == l;
    }
  }

  /** A literal on a cell of a is in the induced model exactly when it holds
      under a. */
  lemma ModelOfMember(a: seq<int>, l: int)
    requires 1 <= Abs(l) <= |a|
    ensures l in ModelOf(a) <==> LitTrue(a, l)
  {
    var m := ModelOf(a);
    var k := Abs(l) - 1;
    if l in m {
      var k' :| 0 <= k' < |m| && m[k'] == l;
      assert Abs(m[k']) == k' + 1;
    }
    if LitTrue(a, l) {
      assert m[k] == l;
    }
  }

  /** Converting the model of a complete assignment gives the assignment back. */
  lemma ConvertModelOf(a: seq<int>)
    requires Complete(a)
    ensures Converted(ModelOf(a), |a|) == a
  {
    ModelOfWellFormed(a);
    forall k | 0 <= k < |a| ensures Converted(ModelOf(a), |a|)[k] == a[k] {
      LastSignConsistent(ModelOf(a), k + 1);
      ModelOfMember(a, k + 1);
      ModelOfMember(a, -(k + 1));
    }
  }

  /** A literal of a consistent model holds in the converted assignment. */
  lemma ModelLiteralHolds(model: seq<int>, n: nat, l: int)
    requires NoZero(model) && Consistent(model)
    requires l in model && 1 <= Abs(l) <= n
    ensures LitTrue(Converted(model, n), l)
  {
    LastSignConsistent(model, Abs(l));
  }

  /** A consistent model that satisfies cnf, whose literals name cells 1 .. n,
      converts to an assignment satisfying cnf. */
  lemma ConvertedSatisfies(model: seq<int>, n: nat, cnf: seq<seq<int>>)
    requires NoZero(model) && Consistent(model)
    requires ModelSatisfies(model, cnf) && LiteralsInRange(cnf, n)
    ensures CnfSat(Converted(model, n), cnf)
  {
    forall c | c in cnf ensures ClauseSat(Converted(model, n), c) {
      var l :| l in c && l in model;
      ModelLiteralHolds(model, n, l);
    }
  }

  /** SAT answers are right with the corrected encoder: a consistent model of
      its formula converts to a valid assignment. */
  lemma SatModelSound(p: Puzzle, model: seq<int>)
    requires NoZero(model) && Consistent(model)
    requires ModelSatisfies(model, GenerateCnfChecked(p))
    ensures Satisfies(p, Converted(model, p.Size()))
  {
    GenerateCnfLiterals(p);
    ConvertedSatisfies(model, p.Size(), GenerateCnfChecked(p));
    GenerateCnfCheckedExact(p, Converted(model, p.Size()));
  }

  /** With the as-written encoder the same holds when no clue is over-full. */
  lemma SatModelSoundFitting(p: Puzzle, model: seq<int>)
    requires CluesFit(p)
    requires NoZero(model) && Consistent(model)
    requires ModelSatisfies(model, GenerateCnf(p))
    ensures Satisfies(p, Converted(model, p.Size()))
  {
    GenerateCnfLiterals(p);
    ConvertedSatisfies(model, p.Size(), GenerateCnf(p));
    GenerateCnfExact(p, Converted(model, p.Size()));
  }

  /** UNSAT answers are right: every valid complete assignment yields a
      consistent model of the as-written formula (and of the corrected one). */
  lemma ValidAssignmentHasModel(p: Puzzle, a: seq<int>)
    requires |a| == p.Size() && Complete(a) && Satisfies(p, a)
    ensures NoZero(ModelOf(a)) && Consistent(ModelOf(a))
    ensures ModelSatisfies(ModelOf(a), GenerateCnf(p))
    ensures ModelSatisfies(ModelOf(a), GenerateCnfChecked(p))
  {
    ModelOfWellFormed(a);
    GenerateCnfLiterals(p);
    assert CnfSat(a, GenerateCnf(p)) by { GenerateCnfSound(p, a); }
    assert CnfSat(a, GenerateCnfChecked(p)) by { GenerateCnfCheckedExact(p, a); }
    forall c | c in GenerateCnf(p) ensures exists l :: l in c && l in ModelOf(a) {
      ClauseInModel(a, c);
    }
    forall c | c in GenerateCnfChecked(p) ensures exists l :: l in c && l in ModelOf(a) {
      ClauseInModel(a, c);
    }
  }

  /** An UNSAT verdict is right: when no clash-free model satisfies the
      as-written formula, no complete assignment is valid. */
  lemma UnsatMeansNoSolution(p: Puzzle)
    requires forall m :: NoZero(m) && Consistent(m) ==> !ModelSatisfies(m, GenerateCnf(p))
    ensures forall a :: |a| == p.Size() && Complete(a) ==> !Satisfies(p, a)
  {
    forall a | |a| == p.Size() && Complete(a) ensures !Satisfies(p, a) {
      if Satisfies(p, a) {
        ValidAssignmentHasModel(p, a);
      }
    }
  }

  /** The SAT path as written accepts an over-full clue: on the 1 x 2 board
      whose cell (0, 0) says 2, the clash-free model [-1, -2] satisfies the
      (empty) formula and converts to the all-gem board, which is not valid. */
  lemma OverfullSatAnswer()
    ensures NoZero([-1, -2]) && Consistent([-1, -2])
    ensures ModelSatisfies([-1, -2], GenerateCnf(Puzzle(1, 2, [Clue(0, 0, 2)])))
    ensures Converted([-1, -2], 2) == [-1, -1]
    ensures !Satisfies(Puzzle(1, 2, [Clue(0, 0, 2)]), Converted([-1, -2], 2))
  {
    OverfullClueAccepted();
    assert LastSign([-1, -2], 1) == -1 by { assert [-1, -2][..1] == [-1]; }
    assert Converted([-1, -2], 2) == [-1, -1];
  }

  /** A clause on the cells of a that holds under a shares a literal with the
      induced model. */
  lemma ClauseInModel(a: seq<int>, c: seq<int>)
    requires ClauseSat(a, c)
    ensures exists l :: l in c && l in ModelOf(a)
  {
    var l :| l in c && LitTrue(a, l);
    ModelOfMember(a, l);
  }
}
