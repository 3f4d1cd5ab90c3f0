# GemHunter in Dafny

GemHunter is a Minesweeper-style puzzle solver. A `rows x cols` board holds
numbered cells `(row, col, num)`. A solution marks every cell as a trap (`1`) or
a gem (`-1`) so that each numbered cell has exactly `num` traps among its
(at most eight) in-bounds neighbours. The `GemHunter` class in `gem_hunter.py`
does the following:

- It numbers the cells row by row with CNF variables `1 .. rows*cols`.
- It encodes every clue as an "exactly num" constraint in the naive
  combinations style.
- It solves the puzzle in three ways:
  - with an external SAT solver, whose model it converts back to an
    assignment;
  - by brute force over all `2^(rows*cols)` candidates;
  - by depth-first backtracking on a shared assignment array.

This project models that class and proves what its parts compute:

- `Grid`: positions, the variable numbering and the neighbourhood.
- `Clues`: numbered cells, the trap count and the validity check.
- `Encoding`: `itertools.combinations`, the clause encoder and its meaning.
- `Search`: brute-force candidate decoding and the depth-first search tree,
  as specifications.
- `SatModel`: the conversion of a solver model into an assignment.
- `Hunter`: the class `GemHunter`, whose fields are the board, the numbered
  cells and the two numbering tables. Its methods are:
  - the numbering loop;
  - the brute-force loop;
  - the recursive backtracking over an `array<int>`;
  - the model-conversion loop over an `array<int>`.

  Each method is proved against the specification functions of the other
  modules.

As the code stands, the model follows it in these respects:

- Every cell, numbered or not, is a CNF variable.
- A numbered cell may itself be a trap, and it counts for its neighbours'
  clues.
- Backtracking fixes cells without looking at the clues and checks validity
  only once the whole board is assigned.
- A clue whose number exceeds its neighbour count emits no clause at all (see
  "## Findings").

## Model

| member | source | states |
|---|---|---|
| Grid.MappingsInverse | gem_hunter.py:30-37 | the forward table's keys are the board's cells, both tables use exactly the ids 1 .. rows*cols, and each table undoes the other |
| Grid.VarIdInjective | gem_hunter.py:30-37 | two cells with column in range and the same id are the same cell |
| Grid.VarIdRange | gem_hunter.py:30-37 | every on-board cell's id lies in 1 .. rows*cols |
| Grid.CellOfVarId | gem_hunter.py:30-37 | the reverse numbering maps a cell's id back to the cell |
| Grid.VarIdCellOf | gem_hunter.py:30-37 | every id in 1 .. rows*cols belongs to an on-board cell whose id it is |
| Grid.PartialTables | gem_hunter.py:32-37 | after ids 1 .. n have been handed out, the tables hold exactly the cells numbered so far |
| Grid.NumberingStep | gem_hunter.py:35-37 | numbering cell p adds exactly the pair (p, id) to each table |
| Grid.NumberingEnds | gem_hunter.py:26-37 | the tables start empty and end as the complete numbering |
| Grid.ColumnScanMembers | gem_hunter.py:43-45 | the inner scan yields exactly the in-range columns of the row, minus the centre |
| Grid.ColumnScanLength | gem_hunter.py:43-45 | the inner scan yields one cell per column in range, one fewer when the centre is among them |
| Grid.ColumnScanSorted | gem_hunter.py:43-45 | the inner scan yields cells in increasing column order |
| Grid.RowScanMembers | gem_hunter.py:42-45 | the two scans yield exactly the cells of the window, minus the centre |
| Grid.RowScanLength | gem_hunter.py:42-45 | the two scans yield one cell per window position, one fewer when the centre is inside the window |
| Grid.RowsOrdered | gem_hunter.py:42-45 | a row scanned before later rows keeps the whole scan in row-major order |
| Grid.RowScanSorted | gem_hunter.py:42-45 | the two scans yield cells in row-major order |
| Grid.NeighborsFacts | gem_hunter.py:39-46 | `get_neighbors` returns exactly the in-bounds cells at Chebyshev distance 1: at most 8 of them, in row-major order, without duplicates |
| Grid.NeighborsSymmetric | gem_hunter.py:39-46 | for two on-board cells, a is a neighbour of b iff b is a neighbour of a |
| Clues.NeighborVarsRange | gem_hunter.py:54-55 | every neighbour variable lies in 1 .. rows*cols |
| Clues.NeighborVarsFromTable | gem_hunter.py:54-55 | `self.var_mapping[n]` succeeds for every neighbour n of the complete table and gives that neighbour's variable |
| Clues.TrapsAmong | gem_hunter.py:114 | the trap count never exceeds the number of neighbours |
| Clues.ValidFrom | gem_hunter.py:112-117 | the early-exit loop over the clues from index `from` is true iff every one of them sees exactly its number of traps |
| Clues.IsValidAssignment | gem_hunter.py:110-117 | `_is_valid_assignment` is true iff every numbered cell has exactly `num` trap neighbours |
| Encoding.CombinationsShape | gem_hunter.py:60-65 | every k-combination has k entries, all drawn from the input |
| Encoding.Matching | gem_hunter.py:114 | a count of matching entries never exceeds the length |
| Encoding.MatchingCounts | gem_hunter.py:114 | the traps among vs are the trap count, and the rest are non-traps |
| Encoding.PrependMember | gem_hunter.py:60-65 | prepending keeps membership |
| Encoding.PrependMemberInv | gem_hunter.py:60-65 | every prepended combination comes from one of the inputs |
| Encoding.AllHoldCons | gem_hunter.py:60-66 | a clause's variables all hold iff the first does and the rest do |
| Encoding.AllHoldCount | gem_hunter.py:60-66 | a combination of m cells that all match shows that at least m cells match |
| Encoding.CombinationsSkip | gem_hunter.py:60-65 | combinations of the tail are combinations of the whole |
| Encoding.CombinationsTake | gem_hunter.py:60-65 | the first element plus a smaller combination of the tail is a combination |
| Encoding.AllHoldWitness | gem_hunter.py:60-66 | when at least m cells match, some m-combination consists of matching cells only |
| Encoding.AtMostMeaning | gem_hunter.py:60-61 | the negated m-subsets all hold iff fewer than m variables are traps |
| Encoding.AtLeastMeaning | gem_hunter.py:65-66 | the positive m-subsets all hold iff fewer than m variables are gems |
| Encoding.CnfSatConcat | gem_hunter.py:53-66 | a concatenation of clause lists holds iff both parts hold |
| Encoding.NegatedClauseSat | gem_hunter.py:61 | a negated clause holds iff some variable in it is not a trap |
| Encoding.PositiveClauseSat | gem_hunter.py:66 | a positive clause holds iff some variable in it is a trap |
| Encoding.AtMostClausesMeaning | gem_hunter.py:59-61 | the guarded first family holds iff at most `num` neighbours are traps |
| Encoding.AtLeastClausesMeaning | gem_hunter.py:64-66 | the guarded second family holds iff at least `num` neighbours are traps, whenever num <= the neighbour count |
| Encoding.ClueClausesMeaning | gem_hunter.py:53-66 | both directions of what one clue's clauses demand; for num > neighbour count, no clause at all |
| Encoding.ClueClausesExact | gem_hunter.py:53-66 | for 0 <= num <= the neighbour count, the clauses hold iff exactly `num` neighbours are traps |
| Encoding.CombinationsOfOne | gem_hunter.py:60-65 | `combinations(vs, 1)` is one singleton per variable |
| Encoding.ClueClausesAllTraps | gem_hunter.py:59-66 | for num = the neighbour count, the clauses are exactly the positive unit clauses |
| Encoding.ClueClausesNoTraps | gem_hunter.py:59-66 | for num = 0, the clauses are exactly the negative unit clauses |
| Encoding.NeighborVarsInRange | gem_hunter.py:54-55 | neighbour variables index into any assignment of the board's size |
| Encoding.ClueStep | gem_hunter.py:53-66 | one clue's clauses hold iff the clue is accepted: at most `num` traps, and at least `num` when it has that many neighbours |
| Encoding.FlattenSat | gem_hunter.py:50-68 | the appended formula holds iff every block holds |
| Encoding.GenerateCnfMeaning | gem_hunter.py:48-68 | `generate_cnf` holds iff every clue is accepted |
| Encoding.GenerateCnfSound | gem_hunter.py:48-68 | every valid assignment satisfies the formula |
| Encoding.GenerateCnfExact | gem_hunter.py:48-68 | when no clue is over-full, the formula holds iff the assignment is valid |
| Encoding.OverfullClueAccepted | gem_hunter.py:59-66 | the 1x2 board with clue (0,0,2) gets an empty formula, which the invalid all-gem board satisfies |
| Encoding.CheckedClueStep | gem_hunter.py:53-66 | with the empty clause for an over-full clue, one clue's clauses hold iff the clue holds |
| Encoding.GenerateCnfCheckedExact | gem_hunter.py:48-68 | the corrected formula holds iff the assignment is valid, for every puzzle |
| Encoding.CheckedAgrees | gem_hunter.py:48-68 | with no over-full clue, the corrected formula equals the original |
| Encoding.LiteralsInRangeConcat | gem_hunter.py:53-66 | literal bounds survive concatenation |
| Encoding.AtMostLiterals | gem_hunter.py:59-61 | every literal of the first family names a board variable |
| Encoding.AtLeastLiterals | gem_hunter.py:64-66 | every literal of the second family names a board variable |
| Encoding.ClueClausesLiterals | gem_hunter.py:53-66 | every literal of a clue's clauses names a board variable |
| Encoding.FlattenLiterals | gem_hunter.py:50-68 | literal bounds hold for the appended formula when they hold per block |
| Encoding.GenerateCnfLiterals | gem_hunter.py:48-68 | every literal of either formula names a variable in 1 .. rows*cols |
| Search.Decode | gem_hunter.py:97-101 | a decoded candidate has one ±1 entry per cell |
| Search.ShiftStep | gem_hunter.py:101 | one more `temp //= 2` is one more shift |
| Search.DecodeBit | gem_hunter.py:99-101 | entry j is 1 iff bit j of the candidate is set, and -1 otherwise |
| Search.DecodeSuffix | gem_hunter.py:98-101 | after k halvings, the rest of the decoding is the decoding of `temp` |
| Search.EncodeBound | gem_hunter.py:96 | every assignment's candidate number is below 2^n |
| Search.DecodeEncode | gem_hunter.py:96-101 | decoding a complete assignment's number gives the assignment back |
| Search.EncodeDecode | gem_hunter.py:96-101 | every candidate below 2^n is the number of its own decoding |
| Search.EveryAssignmentDecoded | gem_hunter.py:96-108 | counting up to 2^n meets every complete assignment |
| Search.ExtendsStep | gem_hunter.py:130-136 | a completion of a longer prefix completes the shorter one |
| Search.ExtendsSplit | gem_hunter.py:130-136 | a completion takes one of the two branches at the next cell |
| Search.FirstCompletionSound | gem_hunter.py:125-141 | what the search finds is a complete, valid extension of the fixed cells |
| Search.FirstCompletionComplete | gem_hunter.py:125-141 | the search fails iff no extension of the fixed cells is valid |
| Search.FirstCompletionFirst | gem_hunter.py:129-137 | no valid extension comes before the found one in trap-first order |
| SatModel.LastSign | gem_hunter.py:83-86 | a cell's value is 0, 1 or -1; 1 only if its positive literal is in the model, and -1 only if its negative literal is |
| SatModel.LastSignIsLast | gem_hunter.py:84-86 | the last literal on a variable decides its cell: later literals overwrite earlier ones |
| SatModel.LastSignConsistent | gem_hunter.py:83-86 | for a model without clashes, a cell is 1 or -1 as its literal's sign says, and 0 when the model does not mention it |
| SatModel.ModelOfWellFormed | gem_hunter.py:84-86 | the induced model has no 0, no clash, and only board variables |
| SatModel.ModelOfMember | gem_hunter.py:84-86 | a board literal is in the induced model iff it holds under the assignment |
| SatModel.ConvertModelOf | gem_hunter.py:83-86 | converting the model of a complete assignment gives the assignment back |
| SatModel.ModelLiteralHolds | gem_hunter.py:84-86 | a literal of a clash-free model holds in the converted assignment |
| SatModel.ConvertedSatisfies | gem_hunter.py:80-86 | a clash-free model of a formula converts to an assignment that satisfies it |
| SatModel.SatModelSound | gem_hunter.py:72-87 | with the corrected formula, a clash-free model always converts to a valid assignment |
| SatModel.SatModelSoundFitting | gem_hunter.py:72-87 | with the original formula, the same holds when no clue is over-full |
| SatModel.ValidAssignmentHasModel | gem_hunter.py:72-88 | every valid assignment yields a clash-free model of both formulas, so an UNSAT verdict means that no valid assignment exists |
| SatModel.UnsatMeansNoSolution | gem_hunter.py:72-88 | when no clash-free model satisfies the formula, no complete assignment is valid |
| SatModel.OverfullSatAnswer | gem_hunter.py:59-66 | on the 1x2 board with clue (0,0,2), the clash-free model [-1,-2] satisfies the formula and converts to the all-gem board, which is not valid |
| SatModel.ClauseInModel | gem_hunter.py:84-86 | a clause that holds under the assignment shares a literal with its induced model |
| Hunter.GemHunter.constructor | gem_hunter.py:9-28 | keeps the size and the numbered cells and leaves both tables complete |
| Hunter.GemHunter.CreateVariableMapping | gem_hunter.py:30-37 | the loop adds the complete numbering to both tables |
| Hunter.GemHunter.SolveBruteForce | gem_hunter.py:90-108 | with complete tables, returns a complete valid assignment, and no candidate before it is valid; returns None iff no complete assignment is valid |
| Hunter.GemHunter.Backtrack | gem_hunter.py:125-141 | keeps the fixed cells. On success the array is the search's result. On failure the search has none, and the cells from `pos` on are reset to 0 |
| Hunter.GemHunter.SolveBacktracking | gem_hunter.py:119-148 | with complete tables, returns the depth-first search's result, which is complete and valid; returns None iff no complete assignment is valid |
| Hunter.GemHunter.SolveWithSat | gem_hunter.py:70-88 | with complete tables and a verdict carrying the solver's guarantees about `generate_cnf`: UNSAT gives None, and then no complete assignment is valid; a model gives its rows*cols-entry conversion, which is valid whenever no clue is over-full |
| Hunter.NumberCell | gem_hunter.py:35-37 | one loop iteration grows both tables by the pair for the current cell |
| Hunter.SearchFromEmpty | gem_hunter.py:143-148 | the search from the empty board finds a valid assignment iff one exists |
| Hunter.SearchesAgree | gem_hunter.py:96-108 | backtracking fails iff brute force rejects all 2^n candidates |

## Left out

- The numpy `grid` array (gem_hunter.py:18, 22-23) is written but never read
  by a solver, so it is not modelled. Consequently:
  - An out-of-range numbered cell does not raise the error that writing into
    the grid would. Numbered-cell coordinates are unconstrained integers.
  - A negative coordinate is not wrapped the way numpy wraps it.
- Timing with `time.time()` is not modelled; the solvers return only the
  assignment or None.
- The pysat `Glucose3` solver and `CNF` container are foreign code. The CNF is
  a sequence of integer clauses. `SolveWithSat` receives the solver's verdict
  as a parameter: None for UNSAT, or the model.
  - The verdict carries the solver's guarantees, stated as the premises of
    `SolveWithSat`: a model contains no literal 0 and no clash and satisfies
    the formula of `generate_cnf`; None means that no such model exists.
- Hunter.GemHunter.SolveWithSat: requires a model without literal 0 and
  without clashes, as pysat returns it. Python would write to index -1 for a
  literal 0.
- Hunter.GemHunter.SolveBruteForce, SolveBacktracking and SolveWithSat: require
  complete numbering tables (`Valid`), as every constructed object has them;
  the clue check reads neighbour variables through `Clues.NeighborVars`, which
  `Clues.NeighborVarsFromTable` proves equal to the table lookups.
- `display_solution` (gem_hunter.py:150-169) is console output only.
- example.py and main.py are drivers with console output. main.py calls a
  `from_file` method that is not part of this model.
- Clue numbers are natural numbers. A negative number makes
  `combinations` emit an empty clause or raise, and that is not modelled.
- Running time is not modelled: the `2 ** n_vars` loop and the recursion depth
  do not matter to any proof. Both searches are proved sound and complete only.
- Python lists and dicts are modelled as sequences, arrays and maps, without
  aliasing beyond the one array that backtracking shares.

## Findings

| source | as written | input that shows it | evidently intended | confidence | as-written member | corrected member |
|---|---|---|---|---|---|---|
| gem_hunter.py:59-66 | when `num` exceeds the neighbour count both guards fail and the clue emits no clause, so the SAT path can report a board on which that clue fails | 1x2 board, numbered cell (0, 0, 2): the formula is empty, and the all-gem board `[-1, -1]` satisfies it although (0, 0) has one neighbour and no trap | an over-full clue makes the formula unsatisfiable (emit the empty clause) | not executed | Encoding.OverfullClueAccepted | Encoding.GenerateCnfCheckedExact |
