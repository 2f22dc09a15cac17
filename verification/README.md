# Sudoku solver core, modelled in Dafny

This project models the solving engine of `sudoku.py`, a backtracking 9x9
Sudoku solver with constraint propagation, and proves properties of it.

- **Grid.** Rows of nine cells, with 0 for a blank and 1..9 for a digit.
- **Candidate sets.** Every cell has a *feasibility set*. It is either the
  marker `{-1}` ("fixed") or the digits the cell may still take. The sets
  are indexed `9*x+y`, as in the source.
- **Pipeline.** Solving runs these steps in order:
  1. two input checks: shape and digit range, then clashing givens;
  2. computing the feasibility sets;
  3. one row-major pass that fixes cells with a single candidate;
  4. a depth-first search over the first blank cell's candidates.
- **Each search branch:**
  1. writes the candidate into a copy of the grid;
  2. removes it from every peer's set (the peers of a cell are its row,
     column and 3x3 box, from the `affected` table);
  3. runs the single-candidate pass again;
  4. recurses from the next cell.

Modules, one per part of the program:

- `Grids` holds the data model: grid, candidate sets, the peer relation,
  and the predicates used throughout. These are no clashes, agreement with
  the givens, and what a solution is.
- `Peers` holds the `affected` table and the fixed peer visiting order.
- `Validation` holds `check_format`, `check_fixed_values` and the
  `in_row`, `in_column` and `in_square` searches.
- `Candidates` holds `feasibility_set`.
- `Propagation` holds `remove_possibility` and `fix_singles`.
- `Search` holds `solve_sudoku`, split into the cursor skip (`Skip`), the
  candidate loop (`TryCandidates`) and one branch (`Branch`).
- `Soundness` and `Completeness` hold the search invariants and the proofs
  that the search is sound and complete.
- `Units` holds rows, columns and boxes as units of nine cells.
- `Solver` holds `solve`.

Headline results:

- `solve` returns a grid exactly when the puzzle is well formed and has a
  solution.
- Any grid it returns is full, passes the clash check and keeps every
  given digit.

## How the model departs from a literal reading

- **The single-candidate pass is one scan, not a fixpoint.** `fix_singles`
  makes a single row-major pass (sudoku.py:51-57). It does not loop until
  no cell has a single candidate. A cell whose set becomes a singleton
  after the scan has passed it is left for the search.
  `Propagation.FixSinglesIsOnePass` proves this on any pair of peer cells.
- **The failure branch of `solve` raises.** Line 131 is `return false`,
  and `false` is not a name in Python, so that line raises `NameError`.
  It does not return the value `False` that the docstring (line 121) and
  the caller (line 142) expect. The model keeps this as written, as the
  outcome `RaisesNameError`, and also gives the corrected function. See
  "## Findings".
- **Python set iteration order is unspecified.** The model fixes it:
  - the search tries candidates in ascending order;
  - peer removal visits peers in ascending row-major index.

  Removal is proved independent of the visiting order
  (`Propagation.RemoveAlongOrderFree`,
  `Propagation.RemovePossibilityFollowsTable`). `RemovePossibility` is
  therefore stated in its order-free form, and it is proved equal to the
  step-by-step loop over the table entry.
- **Copies are values.** `copy.deepcopy` and `grid.copy()` become value
  semantics, so a failed branch leaves its parent's grid and sets as they
  were. The search functions return an `Option` instead of appending to
  the `solution` list.

## Model

| member | source | states |
|---|---|---|
| Peers.AffectedIsSameUnit | sudoku.py:10 | (i, j) is in the table entry of (x, y) exactly when it is a cell of the grid that shares the row, the column or the 3x3 box of (x, y) |
| Peers.Affected | sudoku.py:10 | the table entry of a cell holds the cell itself, and only cells of the grid |
| Peers.AffectedSymmetric | sudoku.py:10 | (i, j) is a peer of (x, y) exactly when (x, y) is a peer of (i, j) |
| Peers.PeerOrderIsAffected | sudoku.py:64 | the fixed visiting order lists exactly the cells of the table entry, each once |
| Validation.InRow | sudoku.py:12-14 | the row slice holds elem exactly when some cell of the grid in row r holds it |
| Validation.InColumn | sudoku.py:17-19 | the column slice holds elem exactly when some cell of the grid in column c holds it |
| Validation.InSquare | sudoku.py:22-26 | the 3x3 slice from the box corner holds elem exactly when some cell of the box of (r, c) holds it |
| Validation.CheckFormat | sudoku.py:85-96 | true exactly when there are 9 rows, each of 9 entries, every entry in 0..9 |
| Validation.BlankedSearchFindsClash | sudoku.py:76-78 | with the cell blanked, the row, column or box search finds its digit exactly when another cell of its row, column or box holds the same digit |
| Validation.RestoreCell | sudoku.py:77-81 | blanking a cell and writing its digit back gives the original grid |
| Validation.CheckFixedFrom | sudoku.py:73-82 | the scan from a cell on returns true exactly when no later cell clashes, and hands back the grid unchanged on both paths |
| Validation.CheckFixedValues | sudoku.py:71-82 | true exactly when no given digit appears in another cell of its row, column or box |
| Candidates.FeasibilitySet | sudoku.py:34-45 | 81 sets; an assigned cell gets the marker, a blank cell a subset of 1..9 |
| Candidates.FeasibilitySetExact | sudoku.py:43 | a digit d is a candidate of a blank cell exactly when d is in 1..9 and no peer of the cell holds d |
| Candidates.FeasibilitySetMeaning | sudoku.py:38-43 | the same for every blank cell and every value at once |
| Propagation.RemoveAlong | sudoku.py:64-68 | the loop over a visiting order fails exactly when some visited set would become empty; on success visited sets lose the digit and all others are unchanged |
| Propagation.RemoveAlongOrderFree | sudoku.py:64 | any two visiting orders of the same cells give the same outcome |
| Propagation.RemovePossibility | sudoku.py:61-68 | the order-free reference form of the removal: it fails exactly when some peer's set minus the digit is empty, on success every peer loses the digit and no other set changes, and a fixed marker is never removed. Its link to the source's loop over the table entry is Propagation.RemovePossibilityFollowsTable together with the contract of Propagation.RemoveAlong |
| Propagation.RemovePossibilityFollowsTable | sudoku.py:61-68 | the loop over the table entry, in any order, equals the order-free removal |
| Propagation.RemovePossibilityIsIteration | sudoku.py:64-68 | in particular the loop in ascending order |
| Propagation.AssignKeepsTracked | sudoku.py:54-56 | fixing a candidate in a blank cell and removing it from the peers keeps "marker exactly on assigned cells, digits elsewhere" |
| Propagation.FixOneShrinks | sudoku.py:54-56 | after one fix the cell is marked, every marker stays, and every other set only shrinks |
| Propagation.FixSingles | sudoku.py:48-58 | the pass writes no cell behind the scan start and no fixed cell; a written cell gets one of its candidates and is marked; sets only shrink; the marker-on-assigned-cells invariant is kept |
| Propagation.FixSinglesKeepsDigits | sudoku.py:51-57 | when the sets follow the grid, the pass keeps every digit already placed |
| Propagation.FixSinglesPassOver | sudoku.py:51-53 | cells without a single unfixed candidate are passed over unchanged |
| Propagation.FixSinglesStep | sudoku.py:53-56 | at a cell whose set is the single digit v, the pass writes v, marks the cell, removes v from the peers and continues with the next cell |
| Propagation.FixSinglesStopsOnFailure | sudoku.py:56-57 | the pass fails as soon as a removal fails |
| Propagation.FixSinglesIsOnePass | sudoku.py:51-57 | a cell that becomes single behind the scan position is not fixed by the pass |
| Search.Advance | sudoku.py:103-104 | the cursor step moves to the next cell in row-major order |
| Search.Skip | sudoku.py:102-104 | the cursor passes only assigned cells and stops on the first blank at or after its start, or past the last cell when none is left |
| Search.CandidateOrder | sudoku.py:111 | the candidates tried are exactly the digits of the cell's set, each once, in ascending order |
| Search.SolveSudoku | sudoku.py:99-118 | a returned grid has the grid's shape; what else it satisfies is Soundness.SolveSudokuSound and Completeness.SolveSudokuComplete |
| Search.Branch | sudoku.py:112-117 | a returned grid has the grid's shape; what else it satisfies is Soundness.BranchSound and Completeness.BranchComplete |
| Search.TryCandidates | sudoku.py:111-118 | a returned grid has the grid's shape; which branch it comes from is Search.TryCandidatesFindsFirst |
| Search.TryCandidatesSucceedsIff | sudoku.py:111-118 | the candidate loop succeeds exactly when some candidate's branch succeeds |
| Search.TryCandidatesFindsFirst | sudoku.py:111-117 | a successful loop returns the result of the first candidate whose branch succeeds, all earlier branches having failed |
| Soundness.FeasibilitySetConsistent | sudoku.py:34-45 | the sets of a well-formed grid without clashes are a consistent search state: in step with the grid, and no candidate equals a peer's digit |
| Soundness.AssignKeepsConsistent | sudoku.py:114-116 | placing a candidate and removing it from the peers keeps the state consistent |
| Soundness.FixSinglesKeepsConsistent | sudoku.py:48-58 | the single-candidate pass keeps the state consistent |
| Soundness.SolveSudokuSound | sudoku.py:99-118 | from a consistent state a returned grid has digits in 0..9, has no clash, keeps every digit of the input, and has no blank from the cursor on |
| Soundness.BranchSound | sudoku.py:112-117 | the same for a single branch |
| Soundness.TryCandidatesSound | sudoku.py:111-118 | the same for the candidate loop |
| Completeness.FeasibilitySetAdmits | sudoku.py:34-45 | the initial sets keep every solution's digit among each blank cell's candidates |
| Completeness.AssignAdmits | sudoku.py:114-116 | placing a solution's digit never empties a peer's set, and the solution stays admitted |
| Completeness.FixSinglesAdmits | sudoku.py:48-58 | the pass never fails on a state that admits a solution, and the solution stays admitted |
| Completeness.SolveSudokuComplete | sudoku.py:99-118 | the search succeeds from any state that admits a solution |
| Completeness.BranchComplete | sudoku.py:112-117 | the branch on a solution's digit succeeds |
| Completeness.TryCandidatesComplete | sudoku.py:111-117 | the candidate loop succeeds when a solution's digit is among the candidates still to try |
| Solver.Solve | sudoku.py:120-131 | returns False exactly when the input fails the shape or clash check; a returned grid is well formed, full, passes the clash check and keeps every given digit |
| Solver.SolveSucceedsIffSolvable | sudoku.py:120-131 | a grid is returned exactly when the input is well formed and has a solution |
| Solver.SolvedPuzzleHasNoClashes | sudoku.py:122-123 | the clash check never rejects a puzzle that has a solution |
| Solver.SolveFindsSolution | sudoku.py:125-129 | a well-formed puzzle without clashes that has a solution is solved |
| Solver.SolveKeepsSolvedGrid | sudoku.py:120-131 | a full grid without clashes is returned as it is |
| Solver.SolveIdempotent | sudoku.py:120-131 | solving a returned grid again returns the same grid |
| Solver.SolvedGridHasEveryDigit | sudoku.py:146 | in a returned grid every row, column and box holds each digit 1..9, as the row, column and box searches find it |
| Units.FullGridHasEveryDigit | sudoku.py:146 | in a full grid of digits without clashes the row, column and box searches find every digit 1..9 |
| Units.UnitHoldsEachDigitOnce | sudoku.py:146 | in a full grid without clashes each row, column and box holds each digit exactly once |
| Solver.SolveRaisesIffUnsolvable | sudoku.py:128-131 | the NameError is raised exactly on a well-formed puzzle without clashes that has no solution |
| Solver.LastCellBlockedIsUnsolvable | sudoku.py:120-131 | the example puzzle passes both input checks and has no solution |
| Solver.UnsolvablePuzzleRaises | sudoku.py:131 | on the example puzzle the outcome is the NameError, not `False` |
| Solver.SolveOrFalse | sudoku.py:121 | the corrected solve returns no grid exactly when the puzzle cannot be solved, and any grid it returns is a solution |
| Solver.UnsolvablePuzzleFalse | sudoku.py:121 | the corrected solve reports the example puzzle with `False` |

## Findings

| source | as written | input that shows it | evidently intended | confidence | as-written member | corrected member |
|---|---|---|---|---|---|---|
| sudoku.py:131 | `return false` evaluates the undefined name `false` and raises NameError whenever propagation or search fails | the puzzle whose top row is 1..8 followed by a blank and whose bottom-right cell is 9, all else blank: it passes both input checks and has no solution | `return False`, as the docstring at line 121 and the check `grid is False` at line 142 expect | high; not executed | Solver.UnsolvablePuzzleRaises | Solver.SolveOrFalse |

## Left out

- `string_to_grid`, `solve_test_file`, `print_usage` and the `__main__` block (sudoku.py:29-31, 134-175) are left out. They do text decoding, file I/O, printing and command-line handling, not solving.
- The grid is a sequence of nine rows of integers, not a numpy array. The float cells that `np.genfromtxt` produces are not modelled, so `check_format`'s range test covers integers only.
- `solve` mutates the caller's grid in place, through `fix_singles` at line 128. That mutation is not modelled: every operation returns new values.
- When a removal fails, the sets it has already changed are not kept. Every caller discards them and reports failure.
- Candidates are enumerated as the digits 1..9 of the cell's set. In every state the solver reaches, a blank cell's set holds only digits (`Grids.Tracked`), so this is the whole set.
- Python 2's `/` is modelled by Dafny's `/`. The two agree on the non-negative operands the source uses.
- Search.SolveSudoku: its own contract states only the shape of the result; what a returned grid satisfies is proved separately, in Soundness.SolveSudokuSound and Completeness.SolveSudokuComplete, to keep each proof small.
- Search.Branch: its own contract states only the shape of the result; what a returned grid satisfies is proved separately, in Soundness.BranchSound and Completeness.BranchComplete, to keep each proof small.
- Search.TryCandidates: its own contract states only the shape of the result; what a returned grid satisfies is proved separately, in Soundness.TryCandidatesSound, Completeness.TryCandidatesComplete and Search.TryCandidatesFindsFirst, to keep each proof small.
