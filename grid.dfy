/**
  Grid geometry of the Gem Hunter board: cell positions, the row-major CNF
  variable numbering of every cell, and the 8-connected neighbourhood.
 */
module Grid {

  /** A cell position (row, column). Clue positions are not checked against
      the board, so positions range over all integers. */
  type Pos = (int, int)

  function Max(a: int, b: int): int { if a < b then b else a }

  function Min(a: int, b: int): int { if a < b then a else b }

  /** The number of integers in the half-open range [lo, hi). */
  function Span(lo: int, hi: int): nat { if lo < hi then hi - lo else 0 }

  predicate InBounds(rows: nat, cols: nat, p: Pos) {
    0 <= p.0 < rows && 0 <= p.1 < cols
  }

  /** Every cell of a rows x cols board. */
  function Cells(rows: nat, cols: nat): set<Pos> {
    set i, j | 0 <= i < rows && 0 <= j < cols :: (i, j)
  }

  // ---------------------------------------------------------------------------
  // Variable numbering
  // ---------------------------------------------------------------------------

  /** The CNF variable of a cell: cells are numbered from 1 in row-major order. */
  function VarId(cols: nat, p: Pos): int {
    p.0 * cols + p.1 + 1
  }

  /** The cell carrying variable v (the inverse numbering). */
  function CellOf(cols: nat, v: int): Pos
    requires cols > 0
  {
    ((v - 1) / cols, (v - 1) % cols)
  }

  /** The finished forward table: every cell mapped to its variable id. */
  function VarMapping(rows: nat, cols: nat): map<Pos, int> {
    map p | p in Cells(rows, cols) :: VarId(cols, p)
  }

  /** The finished reverse table: every variable id mapped to its cell. */
  function ReverseMapping(rows: nat, cols: nat): map<int, Pos> {
    map v | 1 <= v <= rows * cols :: CellOf(cols, v)
  }

  lemma MulMono(a: int, b: int, c: nat)
    requires a <= b
    ensures a * c <= b * c
  {
  }

  /** Two cells of a board with the same variable id are the same cell. */
  lemma {:induction false} VarIdInjective(cols: nat, p: Pos, q: Pos)
    requires 0 <= p.1 < cols && 0 <= q.1 < cols
    requires VarId(cols, p) == VarId(cols, q)
    ensures p == q
  {
    if p.0 < q.0 {
      MulMono(p.0 + 1, q.0, cols);
      assert false;
    } else if q.0 < p.0 {
      MulMono(q.0 + 1, p.0, cols);
      assert false;
    }
  }

  /** Every cell's id lies in 1 .. rows * cols. */
  lemma {:induction false} VarIdRange(rows: nat, cols: nat, p: Pos)
    requires InBounds(rows, cols, p)
    ensures 1 <= VarId(cols, p) <= rows * cols
  {
    MulMono(p.0, rows - 1, cols);
  }

  /** The reverse numbering undoes the forward one. */
  lemma {:induction false} CellOfVarId(rows: nat, cols: nat, p: Pos)
    requires InBounds(rows, cols, p)
    ensures CellOf(cols, VarId(cols, p)) == p
  {
    var q := CellOf(cols, VarId(cols, p));
    assert VarId(cols, q) == VarId(cols, p);
    VarIdInjective(cols, p, q);
  }

  /** The forward numbering undoes the reverse one, and lands on the board. */
  lemma {:induction false} VarIdCellOf(rows: nat, cols: nat, v: int)
    requires 1 <= v <= rows * cols
    ensures cols > 0
    ensures InBounds(rows, cols, CellOf(cols, v))
    ensures VarId(cols, CellOf(cols, v)) == v
  {
    var q := (v - 1) / cols;
    if q >= rows {
      MulMono(rows, q, cols);
      assert false;
    }
  }

  /** The two tables built by the variable-mapping loop are inverse bijections
      between the cells of the board and the ids 1 .. rows * cols. */
  lemma {:induction false} MappingsInverse(rows: nat, cols: nat)
    ensures VarMapping(rows, cols).Keys == Cells(rows, cols)
    ensures forall v :: v in ReverseMapping(rows, cols) <==> 1 <= v <= rows * cols
    ensures forall v :: v in VarMapping(rows, cols).Values <==> 1 <= v <= rows * cols
    ensures forall p :: p in VarMapping(rows, cols) ==>
      VarMapping(rows, cols)[p] in ReverseMapping(rows, cols) &&
      ReverseMapping(rows, cols)[VarMapping(rows, cols)[p]] == p
    ensures forall v :: v in ReverseMapping(rows, cols) ==>
      ReverseMapping(rows, cols)[v] in VarMapping(rows, cols) &&
      VarMapping(rows, cols)[ReverseMapping(rows, cols)[v]] == v
  {
    var fwd, rev := VarMapping(rows, cols), ReverseMapping(rows, cols);
    forall p | p in fwd
      ensures fwd[p] in rev && rev[fwd[p]] == p
    {
      VarIdRange(rows, cols, p);
      CellOfVarId(rows, cols, p);
    }
    forall v | v in rev
      ensures rev[v] in fwd && fwd[rev[v]] == v
    {
      VarIdCellOf(rows, cols, v);
    }
    forall v | 1 <= v <= rows * cols
      ensures v in fwd.Values
    {
      VarIdCellOf(rows, cols, v);
      assert fwd[CellOf(cols, v)] == v;
    }
    forall v | v in fwd.Values
      ensures 1 <= v <= rows * cols
    {
      var p :| p in fwd && fwd[p] == v;
      VarIdRange(rows, cols, p);
    }
  }

  /** The forward table once the numbering loop has handed out the ids 1 .. n. */
  function IdsUpTo(cols: nat, n: int): map<Pos, int>
    decreases n
  {
    if n <= 0 || cols == 0 then map[] else IdsUpTo(cols, n - 1)[CellOf(cols, n) := n]
  }

  /** The reverse table once the numbering loop has handed out the ids 1 .. n. */
  function CellsUpTo(cols: nat, n: int): map<int, Pos>
    decreases n
  {
    if n <= 0 || cols == 0 then map[] else CellsUpTo(cols, n - 1)[n := CellOf(cols, n)]
  }

  /** The partial tables hold exactly the cells numbered so far. */
  lemma {:induction false} PartialTables(rows: nat, cols: nat, n: nat)
    requires n <= rows * cols
    ensures IdsUpTo(cols, n) == map p | p in Cells(rows, cols) && VarId(cols, p) <= n :: VarId(cols, p)
    ensures CellsUpTo(cols, n) == map v | 1 <= v <= n :: CellOf(cols, v)
  {
    if n > 0 {
      PartialTables(rows, cols, n - 1);
      VarIdCellOf(rows, cols, n);
      var fwd := map p | p in Cells(rows, cols) && VarId(cols, p) <= n :: VarId(cols, p);
      var step := IdsUpTo(cols, n - 1)[CellOf(cols, n) := n];
      forall q | q in fwd ensures q in step && step[q] == fwd[q] {
        if VarId(cols, q) == n { VarIdInjective(cols, q, CellOf(cols, n)); }
      }
      assert fwd.Keys == step.Keys;
    }
  }

  /** Numbering cell p, in row-major order, adds exactly the pair for p to
      each partial table. */
  lemma NumberingStep(rows: nat, cols: nat, p: Pos)
    requires InBounds(rows, cols, p)
    ensures IdsUpTo(cols, VarId(cols, p)) == IdsUpTo(cols, VarId(cols, p) - 1)[p := VarId(cols, p)]
    ensures CellsUpTo(cols, VarId(cols, p)) == CellsUpTo(cols, VarId(cols, p) - 1)[VarId(cols, p) := p]
  {
    VarIdRange(rows, cols, p);
    CellOfVarId(rows, cols, p);
  }

  /** Before the loop both tables are empty; after the last cell they are the
      complete tables. */
  lemma NumberingEnds(rows: nat, cols: nat)
    ensures IdsUpTo(cols, 0) == map[] && CellsUpTo(cols, 0) == map[]
    ensures IdsUpTo(cols, rows * cols) == VarMapping(rows, cols)
    ensures CellsUpTo(cols, rows * cols) == ReverseMapping(rows, cols)
  {
    PartialTables(rows, cols, rows * cols);
    forall p | p in Cells(rows, cols) ensures VarId(cols, p) <= rows * cols {
      VarIdRange(rows, cols, p);
    }
    assert IdsUpTo(cols, rows * cols).Keys == VarMapping(rows, cols).Keys;
  }

  // ---------------------------------------------------------------------------
  // Neighbourhood
  // ---------------------------------------------------------------------------

  /** q is one of the (at most eight) in-bounds cells touching (row, col). */
  predicate IsNeighbor(rows: nat, cols: nat, row: int, col: int, q: Pos) {
    InBounds(rows, cols, q) && -1 <= q.0 - row <= 1 && -1 <= q.1 - col <= 1 && q != (row, col)
  }

  /** Row-major order of cells. */
  predicate Before(p: Pos, q: Pos) {
    p.0 < q.0 || (p.0 == q.0 && p.1 < q.1)
  }

  /** The inner loop of the neighbour scan: columns j .. jEnd - 1 of row i,
      skipping the centre cell. */
  function ColumnScan(row: int, col: int, i: int, j: int, jEnd: int): seq<Pos>
    decreases jEnd - j
  {
    if j >= jEnd then []
    else (if (i, j) != (row, col) then [(i, j)] else []) + ColumnScan(row, col, i, j + 1, jEnd)
  }

  /** The outer loop of the neighbour scan: rows i .. iEnd - 1, each scanned over
      columns jLo .. jHi - 1. */
  function RowScan(row: int, col: int, i: int, iEnd: int, jLo: int, jHi: int): seq<Pos>
    decreases iEnd - i
  {
    if i >= iEnd then []
    else ColumnScan(row, col, i, jLo, jHi) + RowScan(row, col, i + 1, iEnd, jLo, jHi)
  }

  /** Cells in strictly increasing row-major order (hence without repeats). */
  predicate RowMajor(r: seq<Pos>) {
    forall a, b :: 0 <= a < b < |r| ==> Before(r[a], r[b])
  }

  /** The inner scan lists exactly the cells of its row segment other than the
      centre. */
  lemma {:induction false} ColumnScanMembers(row: int, col: int, i: int, j: int, jEnd: int)
    decreases jEnd - j
    ensures forall q :: q in ColumnScan(row, col, i, j, jEnd) <==> q.0 == i && j <= q.1 < jEnd && q != (row, col)
  {
    if j < jEnd {
      ColumnScanMembers(row, col, i, j + 1, jEnd);
    }
  }

  lemma {:induction false} ColumnScanLength(row: int, col: int, i: int, j: int, jEnd: int)
    decreases jEnd - j
    ensures |ColumnScan(row, col, i, j, jEnd)| + (if i == row && j <= col < jEnd then 1 else 0) == Span(j, jEnd)
  {
    if j < jEnd {
      ColumnScanLength(row, col, i, j + 1, jEnd);
    }
  }

  /** The inner scan goes from left to right. */
  lemma {:induction false} ColumnScanSorted(row: int, col: int, i: int, j: int, jEnd: int)
    decreases jEnd - j
    ensures RowMajor(ColumnScan(row, col, i, j, jEnd))
  {
    if j < jEnd {
      var rest := ColumnScan(row, col, i, j + 1, jEnd);
      ColumnScanSorted(row, col, i, j + 1, jEnd);
      ColumnScanMembers(row, col, i, j + 1, jEnd);
      var head: seq<Pos> := if (i, j) != (row, col) then [(i, j)] else [];
      var r := head + rest;
      assert r == ColumnScan(row, col, i, j, jEnd);
      forall a, b | 0 <= a < b < |r| ensures Before(r[a], r[b]) {
        if a < |head| {
          assert r[b] == rest[b - |head|] && rest[b - |head|] in rest;
        } else {
          assert r[a] == rest[a - |head|] && r[b] == rest[b - |head|];
        }
      }
    }
  }

  /** The outer scan lists exactly the cells of its window other than the
      centre. */
  lemma {:induction false} RowScanMembers(row: int, col: int, i: int, iEnd: int, jLo: int, jHi: int)
    decreases iEnd - i
    ensures forall q :: q in RowScan(row, col, i, iEnd, jLo, jHi) <==>
      i <= q.0 < iEnd && jLo <= q.1 < jHi && q != (row, col)
  {
    if i < iEnd {
      ColumnScanMembers(row, col, i, jLo, jHi);
      RowScanMembers(row, col, i + 1, iEnd, jLo, jHi);
    }
  }

  lemma {:induction false} RowScanLength(row: int, col: int, i: int, iEnd: int, jLo: int, jHi: int)
    decreases iEnd - i
    ensures |RowScan(row, col, i, iEnd, jLo, jHi)| + (if i <= row < iEnd && jLo <= col < jHi then 1 else 0)
      == Rect(Span(i, iEnd), Span(jLo, jHi))
  {
    if i < iEnd {
      ColumnScanLength(row, col, i, jLo, jHi);
      RowScanLength(row, col, i + 1, iEnd, jLo, jHi);
    }
  }

  /** The outer scan goes in row-major order. */
  lemma {:induction false} RowScanSorted(row: int, col: int, i: int, iEnd: int, jLo: int, jHi: int)
    decreases iEnd - i
    ensures RowMajor(RowScan(row, col, i, iEnd, jLo, jHi))
  {
    if i < iEnd {
      var line := ColumnScan(row, col, i, jLo, jHi);
      var rest := RowScan(row, col, i + 1, iEnd, jLo, jHi);
      ColumnScanMembers(row, col, i, jLo, jHi);
      ColumnScanSorted(row, col, i, jLo, jHi);
      RowScanMembers(row, col, i + 1, iEnd, jLo, jHi);
      RowScanSorted(row, col, i + 1, iEnd, jLo, jHi);
      RowsOrdered(line, rest, i);
    }
  }

  /** A scanned row followed by the scan of later rows stays in row-major order. */
  lemma RowsOrdered(line: seq<Pos>, rest: seq<Pos>, i: int)
    requires forall q :: q in line ==> q.0 == i
    requires RowMajor(line) && RowMajor(rest)
    requires forall q :: q in rest ==> i < q.0
    ensures RowMajor(line + rest)
  {
    var s := line + rest;
    forall a, b | 0 <= a < b < |s| ensures Before(s[a], s[b]) {
      if b < |line| {
        assert s[a] == line[a] && s[b] == line[b];
      } else if a < |line| {
        assert line[a] in line && rest[b - |line|] in rest;
      } else {
        assert s[a] == rest[a - |line|] && s[b] == rest[b - |line|];
      }
    }
  }

  /** `get_neighbors`: the cells around (row, col), scanned row by row over the
      clipped ranges max(0, row-1) .. min(rows, row+2) and likewise for columns. */
  function Neighbors(rows: nat, cols: nat, row: int, col: int): seq<Pos> {
    RowScan(row, col, Max(0, row - 1), Min(rows, row + 2), Max(0, col - 1), Min(cols, col + 2))
  }

  /** The neighbours are exactly the in-bounds cells touching (row, col), at most
      eight of them, in row-major order and so without repeats. */
  lemma NeighborsFacts(rows: nat, cols: nat, row: int, col: int)
    ensures forall q :: q in Neighbors(rows, cols, row, col) <==> IsNeighbor(rows, cols, row, col, q)
    ensures |Neighbors(rows, cols, row, col)| <= 8
    ensures RowMajor(Neighbors(rows, cols, row, col))
    ensures forall a, b :: 0 <= a < b < |Neighbors(rows, cols, row, col)| ==>
      Neighbors(rows, cols, row, col)[a] != Neighbors(rows, cols, row, col)[b]
  {
    var iLo, iHi := Max(0, row - 1), Min(rows, row + 2);
    var jLo, jHi := Max(0, col - 1), Min(cols, col + 2);
    RowScanMembers(row, col, iLo, iHi, jLo, jHi);
    RowScanLength(row, col, iLo, iHi, jLo, jHi);
    RowScanSorted(row, col, iLo, iHi, jLo, jHi);
    SpanProductBound(Span(iLo, iHi), Span(jLo, jHi), iLo <= row < iHi && jLo <= col < jHi);
  }

  /** The number of cells in an h x w rectangle. */
  function Rect(h: nat, w: nat): nat {
    if h == 0 then 0 else w + Rect(h - 1, w)
  }

  /** At most nine cells lie in a 3 x 3 window, and at most six when the centre
      falls outside one of the two clipped ranges. */
  lemma SpanProductBound(h: nat, w: nat, centred: bool)
    requires h <= 3 && w <= 3
    requires !centred ==> h <= 2 || w <= 2
    ensures Rect(h, w) - (if centred then 1 else 0) <= 8
  {
    assert Rect(0, w) == 0;
    assert Rect(1, w) == w;
    assert Rect(2, w) == 2 * w;
  }

  /** Adjacency is symmetric between board cells. */
  lemma NeighborsSymmetric(rows: nat, cols: nat, p: Pos, q: Pos)
    requires InBounds(rows, cols, p) && InBounds(rows, cols, q)
    ensures q in Neighbors(rows, cols, p.0, p.1) <==> p in Neighbors(rows, cols, q.0, q.1)
  {
    NeighborsFacts(rows, cols, p.0, p.1);
    NeighborsFacts(rows, cols, q.0, q.1);
  }
}
