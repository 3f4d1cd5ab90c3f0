/**
  Numbered cells and the validity oracle: an assignment gives every cell of the
  board a value (1 trap, -1 gem, 0 unassigned) at index VarId - 1, and it is
  valid when every numbered cell has exactly its number of neighbours with a
  positive value. Numbered cells are ordinary cells here: they carry a value of
  their own and count towards the clues around them.
 */
module Clues {
  import opened Grid

  /** A numbered cell (row, col, number). */
  datatype Clue = Clue(row: int, col: int, num: nat)

  /** The fixed data of one game: board size and numbered cells. */
  datatype Puzzle = Puzzle(rows: nat, cols: nat, clues: seq<Clue>) {
    /** The number of CNF variables, one per cell. */
    function Size(): nat { rows * cols }
  }

  /** The variables of a clue's neighbours, in neighbour-scan order. */
  function NeighborVars(p: Puzzle, c: Clue): seq<int> {
    var ns := Neighbors(p.rows, p.cols, c.row, c.col);
    seq(|ns|, k requires 0 <= k < |ns| => VarId(p.cols, ns[k]))
  }

  /** `self.var_mapping[n]` for each neighbour n: the lookup in the complete
      forward table always succeeds and gives the neighbour's variable. */
  lemma NeighborVarsFromTable(p: Puzzle, c: Clue)
    ensures forall k :: 0 <= k < |NeighborVars(p, c)| ==>
      Neighbors(p.rows, p.cols, c.row, c.col)[k] in VarMapping(p.rows, p.cols) &&
      NeighborVars(p, c)[k] == VarMapping(p.rows, p.cols)[Neighbors(p.rows, p.cols, c.row, c.col)[k]]
  {
    var ns := Neighbors(p.rows, p.cols, c.row, c.col);
    NeighborsFacts(p.rows, p.cols, c.row, c.col);
    forall k | 0 <= k < |ns| ensures ns[k] in Cells(p.rows, p.cols) {
      assert ns[k] in ns;
    }
  }

  /** Every neighbour variable is one of the board's ids 1 .. rows * cols. */
  lemma NeighborVarsRange(p: Puzzle, c: Clue)
    ensures forall v :: v in NeighborVars(p, c) ==> 1 <= v <= p.Size()
  {
    var ns := Neighbors(p.rows, p.cols, c.row, c.col);
    var vs := NeighborVars(p, c);
    NeighborsFacts(p.rows, p.cols, c.row, c.col);
    forall v | v in vs ensures 1 <= v <= p.Size() {
      var k :| 0 <= k < |vs| && vs[k] == v;
      assert ns[k] in ns;
      VarIdRange(p.rows, p.cols, ns[k]);
    }
  }

  /** Variable v is set to a trap (a positive value) by assignment a. */
  predicate IsTrap(a: seq<int>, v: int) {
    1 <= v <= |a| && a[v - 1] > 0
  }

  /** How many entries of vs name a trap under a. */
  function TrapsAmong(a: seq<int>, vs: seq<int>): (n: nat)
    ensures n <= |vs|
  {
    if vs == [] then 0 else (if IsTrap(a, vs[0]) then 1 else 0) + TrapsAmong(a, vs[1..])
  }

  /** The `trap_count` of a clue: its neighbours whose value is positive. */
  function TrapCount(p: Puzzle, a: seq<int>, c: Clue): nat {
    TrapsAmong(a, NeighborVars(p, c))
  }

  /** Numbered cell c sees exactly its number of traps. */
  predicate ClueHolds(p: Puzzle, a: seq<int>, c: Clue) {
    TrapCount(p, a, c) == c.num
  }

  /** Every numbered cell sees exactly its number of traps. */
  predicate Satisfies(p: Puzzle, a: seq<int>) {
    forall k :: 0 <= k < |p.clues| ==> ClueHolds(p, a, p.clues[k])
  }

  /** A complete assignment: every cell is a trap (1) or a gem (-1). */
  predicate Complete(a: seq<int>) {
    forall k :: 0 <= k < |a| ==> a[k] == 1 || a[k] == -1
  }

  /** The clue loop of `_is_valid_assignment` from clue `from` on: it stops with
      false at the first clue whose count differs from its number. */
  function ValidFrom(p: Puzzle, a: seq<int>, from: nat): (valid: bool)
    requires from <= |p.clues|
    decreases |p.clues| - from
    ensures valid <==> forall k :: from <= k < |p.clues| ==> ClueHolds(p, a, p.clues[k])
  {
    if from == |p.clues| then true
    else if !ClueHolds(p, a, p.clues[from]) then false
    else ValidFrom(p, a, from + 1)
  }

  /** `_is_valid_assignment`: true exactly when every clue holds. */
  function IsValidAssignment(p: Puzzle, a: seq<int>): (valid: bool)
    requires |a| == p.Size()
    ensures valid <==> Satisfies(p, a)
  {
    ValidFrom(p, a, 0)
  }
}
