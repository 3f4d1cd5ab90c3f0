/**
  The solver object: it keeps the board size, the numbered cells and the two
  numbering tables, and offers the three ways of solving the puzzle. Solving
  methods leave the object unchanged; they return an assignment (1 trap,
  -1 gem, one entry per cell in row-major order) or None.
 */
module Hunter {
  import opened Wrappers
  import opened Grid
  import opened Clues
  import opened Encoding
  import opened Search
  import opened SatModel

  class GemHunter {
    const rows: nat
    const cols: nat
    const numberedCells: seq<Clue>
    var varMapping: map<Pos, int>
    var reverseMapping: map<int, Pos>

    /** The puzzle this solver was built for. */
    function Game(): Puzzle {
      Puzzle(rows, cols, numberedCells)
    }

    /** Both numbering tables are complete. */
    ghost predicate Valid()
      reads this
    {
      varMapping == VarMapping(rows, cols) && reverseMapping == ReverseMapping(rows, cols)
    }

    constructor (rows: nat, cols: nat, numberedCells: seq<Clue>)
      ensures this.rows == rows && this.cols == cols && this.numberedCells == numberedCells
      ensures Valid()
    {
      this.rows := rows;
      this.cols := cols;
      this.numberedCells := numberedCells;
      varMapping := map[];
      reverseMapping := map[];
      new;
      CreateVariableMapping();
      assert map[] + VarMapping(rows, cols) == VarMapping(rows, cols);
      assert map[] + ReverseMapping(rows, cols) == ReverseMapping(rows, cols);
    }

    /** Numbers the cells row by row from 1 and records both directions of the
        numbering in the tables. */
    method CreateVariableMapping()
      modifies this
      ensures varMapping == old(varMapping) + VarMapping(rows, cols)
      ensures reverseMapping == old(reverseMapping) + ReverseMapping(rows, cols)
    {
      var varId := 1;
      assert IdsUpTo(cols, 0) == map[] && CellsUpTo(cols, 0) == map[];
      for i := 0 to rows
        invariant varId == i * cols + 1
        invariant varMapping == old(varMapping) + IdsUpTo(cols, varId - 1)
        invariant reverseMapping == old(reverseMapping) + CellsUpTo(cols, varId - 1)
      {
        for j := 0 to cols
          invariant varId == i * cols + j + 1
          invariant varMapping == old(varMapping) + IdsUpTo(cols, varId - 1)
          invariant reverseMapping == old(reverseMapping) + CellsUpTo(cols, varId - 1)
        {
          NumberCell(old(varMapping), old(reverseMapping), rows, cols, (i, j), varId);
          varMapping := varMapping[(i, j) := varId];
          reverseMapping := reverseMapping[varId := (i, j)];
          assert varMapping == old(varMapping) + IdsUpTo(cols, varId);
          assert reverseMapping == old(reverseMapping) + CellsUpTo(cols, varId);
          varId := varId + 1;
        }
        NextRow(i, cols);
      }
      NumberingEnds(rows, cols);
    }

    /** Tries the candidates 0, 1, .. 2^n - 1 in turn, decoding each into an
        assignment, and returns the first valid one. */
    method SolveBruteForce() returns (r: Option<seq<int>>)
      requires Valid()
      ensures r.Some? ==> |r.value| == Game().Size() && Complete(r.value) && Satisfies(Game(), r.value)
      ensures r.Some? ==> forall i :: 0 <= i < Encode(r.value) ==> !Satisfies(Game(), Decode(i, Game().Size()))
      ensures r.None? <==> forall a :: |a| == Game().Size() && Complete(a) ==> !Satisfies(Game(), a)
    {
      var p := Game();
      var nVars := rows * cols;
      var limit := Pow2(nVars);
      var i := 0;
      while i < limit
        invariant 0 <= i <= limit
        invariant forall i' :: 0 <= i' < i ==> !Satisfies(p, Decode(i', nVars))
      {
        var assignment := [];
        var temp := i;
        for k := 0 to nVars
          invariant temp == Shift(i, k)
          invariant assignment == Decode(i, nVars)[..k]
        {
          DecodeBit(i, nVars, k);
          ShiftStep(i, k);
          assert Decode(i, nVars)[..k + 1] == Decode(i, nVars)[..k] + [Decode(i, nVars)[k]];
          assignment := assignment + [if temp % 2 == 1 then 1 else -1];
          temp := temp / 2;
        }
        assert assignment == Decode(i, nVars);
        if IsValidAssignment(p, assignment) {
          EncodeDecode(i, nVars);
          return Some(assignment);
        }
        i := i + 1;
      }
      forall a | |a| == nVars && Complete(a) ensures !Satisfies(p, a) {
        EveryAssignmentDecoded(a);
      }
      return None;
    }

    /** The recursive search: cells before pos are fixed; tries a trap, then a
        gem at pos, and clears the cell again when neither leads to a valid
        board. */
    method Backtrack(assignment: array<int>, pos: nat) returns (found: bool)
      requires assignment.Length == Game().Size() && pos <= assignment.Length
      modifies assignment
      decreases assignment.Length - pos
      ensures assignment[..pos] == old(assignment[..pos])
      ensures found ==> FirstCompletion(Game(), old(assignment[..pos])) == Some(assignment[..])
      ensures !found ==> FirstCompletion(Game(), old(assignment[..pos])).None?
      ensures !found ==> forall k :: pos <= k < assignment.Length ==> assignment[k] == 0
    {
      var p := Game();
      if pos == assignment.Length {
        assert assignment[..] == assignment[..pos];
        found := IsValidAssignment(p, assignment[..]);
        return;
      }
      var prefix := assignment[..pos];
      assignment[pos] := 1;
      assert assignment[..pos + 1] == prefix + [1];
      found := Backtrack(assignment, pos + 1);
      if found {
        assert assignment[..pos] == assignment[..pos + 1][..pos];
        return;
      }
      assignment[pos] := -1;
      assert assignment[..pos + 1] == prefix + [-1];
      found := Backtrack(assignment, pos + 1);
      if found {
        assert assignment[..pos] == assignment[..pos + 1][..pos];
        return;
      }
      assignment[pos] := 0;
      assert assignment[..pos] == assignment[..pos + 1][..pos];
    }

    /** Depth-first search from an all-unknown board. */
    method SolveBacktracking() returns (r: Option<seq<int>>)
      requires Valid()
      ensures r == FirstCompletion(Game(), [])
      ensures r.Some? ==> |r.value| == Game().Size() && Complete(r.value) && Satisfies(Game(), r.value)
      ensures r.None? <==> forall a :: |a| == Game().Size() && Complete(a) ==> !Satisfies(Game(), a)
    {
      var assignment := new int[rows * cols](_ => 0);
      assert assignment[..0] == [];
      var found := Backtrack(assignment, 0);
      if found {
        r := Some(assignment[..]);
      } else {
        r := None;
      }
      SearchFromEmpty(Game());
    }

    /** Turns the solver's verdict on `generate_cnf` into an assignment: None
        (unsatisfiable) stays None; for a model every cell starts at 0 and each
        literal on a cell of the board writes its sign there, later literals
        overwriting earlier ones. The solver's guarantees are the premises: a
        model is clash-free and satisfies the formula, and None means that no
        clash-free model does. */
    method SolveWithSat(verdict: Option<seq<int>>) returns (r: Option<seq<int>>)
      requires Valid()
      requires verdict.Some? ==>
        NoZero(verdict.value) && Consistent(verdict.value) && ModelSatisfies(verdict.value, GenerateCnf(Game()))
      requires verdict.None? ==>
        forall m :: NoZero(m) && Consistent(m) ==> !ModelSatisfies(m, GenerateCnf(Game()))
      ensures verdict.None? ==> r.None?
      ensures verdict.Some? ==> r == Some(Converted(verdict.value, Game().Size()))
      ensures r.None? ==> forall a :: |a| == Game().Size() && Complete(a) ==> !Satisfies(Game(), a)
      ensures r.Some? && CluesFit(Game()) ==> Satisfies(Game(), r.value)
    {
      if verdict.None? {
        UnsatMeansNoSolution(Game());
      } else {
        if CluesFit(Game()) {
          SatModelSoundFitting(Game(), verdict.value);
        }
      }
      if verdict.None? {
        return None;
      }
      var model := verdict.value;
      var nVars := rows * cols;
      var assignment := new int[nVars](_ => 0);
      for idx := 0 to |model|
        invariant forall v :: 1 <= v <= nVars ==> assignment[v - 1] == LastSign(model[..idx], v)
      {
        var lit := model[idx];
        assert model[..idx + 1][..idx] == model[..idx];
        assert lit in model;
        if Abs(lit) <= nVars {
          assignment[Abs(lit) - 1] := if lit > 0 then 1 else -1;
        }
      }
      assert model[..|model|] == model;
      forall k | 0 <= k < nVars ensures assignment[k] == Converted(model, nVars)[k] {
        assert assignment[(k + 1) - 1] == LastSign(model, k + 1);
      }
      assert assignment[..] == Converted(model, nVars);
      r := Some(assignment[..]);
    }
  }

  /** Adding one entry to a merged table adds it to the right-hand part. */
  lemma UnionUpdate<K, V>(m: map<K, V>, n: map<K, V>, k: K, v: V)
    ensures (m + n)[k := v] == m + n[k := v]
  {
  }

  /** One step of the numbering loop: cell p receives the next id, and both
      tables grow by that one pair. */
  lemma NumberCell(fwd: map<Pos, int>, rev: map<int, Pos>, rows: nat, cols: nat, p: Pos, v: int)
    requires InBounds(rows, cols, p) && v == VarId(cols, p)
    ensures (fwd + IdsUpTo(cols, v - 1))[p := v] == fwd + IdsUpTo(cols, v)
    ensures (rev + CellsUpTo(cols, v - 1))[v := p] == rev + CellsUpTo(cols, v)
  {
    NumberingStep(rows, cols, p);
    UnionUpdate(fwd, IdsUpTo(cols, v - 1), p, v);
    UnionUpdate(rev, CellsUpTo(cols, v - 1), v, p);
  }

  /** The id after the last cell of row i is the id before row i + 1. */
  lemma NextRow(i: int, cols: nat)
    ensures i * cols + cols == (i + 1) * cols
  {
  }

  /** The search from the empty board completes to some valid assignment
      exactly when one exists. */
  lemma SearchFromEmpty(p: Puzzle)
    ensures FirstCompletion(p, []).Some? ==>
      var a := FirstCompletion(p, []).value; |a| == p.Size() && Complete(a) && Satisfies(p, a)
    ensures FirstCompletion(p, []).None? <==>
      forall a :: |a| == p.Size() && Complete(a) ==> !Satisfies(p, a)
  {
    FirstCompletionSound(p, []);
    FirstCompletionComplete(p, []);
    forall a | |a| == p.Size() && Complete(a) ensures Extends(p, [], a) {
      assert a[0..] == a;
    }
    forall w | Extends(p, [], w) ensures Complete(w) {
      assert w[0..] == w;
    }
    if FirstCompletion(p, []).Some? {
      var a := FirstCompletion(p, []).value;
      assert a[0..] == a;
    }
  }

  /** Backtracking and brute force agree on whether the puzzle has a solution:
      the search fails exactly when every candidate below 2^n is rejected. */
  lemma SearchesAgree(p: Puzzle)
    ensures FirstCompletion(p, []).None? <==>
      forall i :: 0 <= i < Pow2(p.Size()) ==> !Satisfies(p, Decode(i, p.Size()))
  {
    var n := p.Size();
    SearchFromEmpty(p);
    if FirstCompletion(p, []).None? {
      forall i | 0 <= i < Pow2(n) ensures !Satisfies(p, Decode(i, n)) {
        var a := Decode(i, n);
        assert |a| == n && Complete(a);
      }
    } else {
      var a := FirstCompletion(p, []).value;
      EveryAssignmentDecoded(a);
      assert Satisfies(p, Decode(Encode(a), n));
    }
  }
}
