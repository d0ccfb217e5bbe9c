# Gato: tic-tac-toe states and their successors up to symmetry

The program is a state of the game of tic-tac-toe ("gato"), the class
`gatos.Gato`. A state holds a 3x3 grid of marks, its parent state, the list
of its successors, the flag `jugador1`, a winner flag and a move count. It
can play a move and check whether that move won (`tiraEn`, `hayGanador`),
and it can generate its successors (`generaSucesores`): one child per free
cell in row-major order. A child is kept only when no child kept before it
is `equals` to it. Here `equals` means "the same board up to one of the
eight symmetries of the square", decided by eight hand-written checks.

The model has four modules:

- `Boards` (boards.dfy): the board as a value.
  - A `Board` is a `seq<int>` of 9 cells, row by row. `At(b, x, y)` is
    `tablero[y][x]`.
  - The marks are `MARCA1 = 1` and `MARCA2 = 4`; a free cell is 0.
  - `Completes` is the win rule of one move, which looks at the two other
    cells of each line through the played cell.
  - The module also has the table of the eight lines and a count of the
    occupied cells.
- `Symmetry` (symmetry.dfy): the seven non-trivial transforms.
  - Each is written as an explicit table of the nine cells, and a lemma
    states its coordinate rule.
  - The datatype `Sym` is the group of eight, with `Inverse` and
    `Compose`.
  - `Equivalent` is the chain of eight checks in `equals`, and it is proved
    to be an equivalence relation.
- `Successors` (successors.dfy): one generation step as values.
  - `Candidates` lists the moves at the free cells in scan order.
  - `Dedup` is the "append unless something already kept is `equals` to
    it" fold.
  - The lemmas about the kept children cover their moves, order, coverage,
    pairwise inequivalence and count. They also prove that the kept
    children are exactly the first candidate of each symmetry class, and
    that the empty board gives three children.
- `Gatos` (gato.dfy): `class Gato`.
  - Its fields are those of the Java class. `tablero` is an `array2<int>`
    read as `tablero[y, x]`. `sucesores` is `Option<seq<Gato>>`, with
    `None` for Java `null`.
  - The mutating operations are methods with `modifies` clauses.
  - The eight checks are methods that run the source's nested loops and
    coordinate tables. Each is proved to return exactly whether the boards
    are related by its transform.
  - `GenerateSuccessors` runs the source's double loop, split into
    `ScanBoard`, `ScanRow`, `ConsiderCell` and `AddChild`. It is proved to
    return children that match `Dedup(Candidates(...))` one for one.

The `jugador1` flag records whose mark the move that produced the state
placed. The root has `jugador1 == false`. A child gets the negated flag and
then plays `MarkOf(child.jugador1)`. So the root's children carry `MARCA1`,
their children carry `MARCA2`, and so on.

Two facts about the code are worth stating outright:

- Successor generation from the empty board gives three children: a corner
  (0, 0), an edge (1, 0) and the centre (1, 1). Corners
  are equivalent to each other and edges to each other, but the three
  classes are distinct (`Successors.EmptyBoardHasThreeChildren`).
- The first player at (0, 0), the second at (1, 1), then the first player
  at (2, 2) is not a win. The centre holds the other mark, so the move at
  (2, 2) completes no line (`Boards.SplitDiagonalIsNoWin`).

## Model

| member | source | states |
|---|---|---|
| Boards.RowByModulus | gatos/Gato.java:62-66 | the horizontal test on cells (x+1)%3 and (x+2)%3 of row y holds exactly when the other two cells of the row hold the mark |
| Boards.ColumnByModulus | gatos/Gato.java:67-71 | the vertical test on rows (y+1)%3 and (y+2)%3 holds exactly when the other two cells of the column hold the mark |
| Boards.EdgeNoDiagonal | gatos/Gato.java:72-75 | an edge cell lies on neither diagonal, so skipping the diagonal tests there loses no win |
| Boards.CentreDiagonals | gatos/Gato.java:77-86 | for the centre, the two corner-pair tests are exactly the two diagonals |
| Boards.MainDiagonalByModulus | gatos/Gato.java:87-92 | on a corner with x == y, the modular test is exactly the diagonal \ and the cell is not on the diagonal / |
| Boards.AntiDiagonalByModulus | gatos/Gato.java:93-99 | on a corner with x + y == 2, the (+1, +2)/(+2, +1) test is exactly the diagonal / and the cell is not on the diagonal \ |
| Boards.CompletesIffLineThrough | gatos/Gato.java:61-100 | once the played cell holds the mark, the win rule holds exactly when a whole row, column or diagonal through that cell holds the mark (both directions) |
| Boards.SplitDiagonalIsNoWin | gatos/Gato.java:61-100 | X at (0,0), O at (1,1), X at (2,2): the last move completes no line and fills no line |
| Boards.FilledAfterMark | gatos/Gato.java:107-110 | marking a free cell raises the occupied count of every scan prefix by one exactly when the cell is in that prefix |
| Boards.FreeCellExists | gatos/Gato.java:126-127 | a board whose first n cells hold fewer than n occupied cells has a free cell among them |
| Boards.EmptyBoardUnoccupied | gatos/Gato.java:19 | the grid Java allocates holds only free cells, and none of them is occupied |
| Symmetry.TransposeCells | gatos/Gato.java:172-184 | the transpose table maps cell (x, y) to cell (y, x) |
| Symmetry.AntiTransposeCells | gatos/Gato.java:189-210 | the reflection over / maps cell (x, y) to cell (2-y, 2-x) |
| Symmetry.MirrorVerticalCells | gatos/Gato.java:215-231 | the vertical mirror maps cell (x, y) to cell (2-x, y) |
| Symmetry.MirrorHorizontalCells | gatos/Gato.java:236-252 | the horizontal mirror maps cell (x, y) to cell (x, 2-y) |
| Symmetry.Rotate90Cells | gatos/Gato.java:254-272 | the quarter turn clockwise: new[r][c] = old[2-c][r] |
| Symmetry.Rotate180Cells | gatos/Gato.java:274-279 | two quarter turns map cell (x, y) to cell (2-x, 2-y) |
| Symmetry.Rotate270Cells | gatos/Gato.java:281-286 | a half turn and a quarter turn map cell (x, y) to cell (2-y, x) |
| Symmetry.Rotate90FourTimes | gatos/Gato.java:257-286 | four quarter turns give back the board |
| Symmetry.Rotate270UndoesRotate90 | gatos/Gato.java:257-286 | the quarter turn and the three-quarter turn undo each other in both orders |
| Symmetry.Involutions | gatos/Gato.java:172-252 | each reflection, and the half turn, is its own inverse |
| Symmetry.InverseUndoes | gatos/Gato.java:152-153 | every one of the eight symmetries is undone by its inverse |
| Symmetry.ComposeApplies | gatos/Gato.java:152-153 | applying two symmetries in turn is applying their product from the group table, so the eight are closed under composition |
| Symmetry.EquivalentIffSomeSym | gatos/Gato.java:317-344 | the chain of eight checks holds exactly when some symmetry of the group maps the other board onto this one (both directions) |
| Symmetry.EquivalentReflexive | gatos/Gato.java:319-321 | every board is `equals` to itself |
| Symmetry.EquivalentSymmetric | gatos/Gato.java:317-344 | `equals` is symmetric |
| Symmetry.EquivalentTransitive | gatos/Gato.java:317-344 | `equals` is transitive |
| Symmetry.EquivalentKeepsCentreAndCorners | gatos/Gato.java:317-344 | equivalent boards agree on the centre cell and on the sum of the corner cells |
| Successors.CandidatesAt | gatos/Gato.java:132-134 | scanning cell (x, y) adds one candidate, with that cell marked, exactly when the cell is free |
| Successors.CandidatesAreMoves | gatos/Gato.java:132-138 | each candidate is a free cell of the scanned prefix, its board is the parent's with only that cell marked, and cells come in strictly increasing scan order |
| Successors.CandidatesCoverFreeCells | gatos/Gato.java:132-134 | every free cell of the scanned prefix has a candidate |
| Successors.CandidatesCount | gatos/Gato.java:132-134 | there are as many candidates as free cells in the scanned prefix |
| Successors.MarkingIsMove | gatos/Gato.java:107-110 | marking a free cell is a move, and the board has one more occupied cell |
| Successors.DedupSnoc | gatos/Gato.java:139-141 | a new candidate is appended exactly when no child kept so far is `equals` to it |
| Successors.DedupKeepsCandidates | gatos/Gato.java:139-141 | the kept children are candidates, and there are no more of them than candidates |
| Successors.DedupKeepsOrder | gatos/Gato.java:132-141 | the kept children keep the row-major order of their cells |
| Successors.DedupPairwiseInequivalent | gatos/Gato.java:139-141 | no two kept children are `equals`, in either order |
| Successors.DedupCovers | gatos/Gato.java:139-141 | every candidate is `equals` to some kept child |
| Successors.DedupNonEmpty | gatos/Gato.java:139-141 | a non-empty list of candidates keeps at least one child |
| Successors.CoveredIffEarlier | gatos/Gato.java:139-141 | a board is `equals` to a kept child exactly when it is `equals` to some earlier candidate, kept or not |
| Successors.DedupIsFirstOfEachClass | gatos/Gato.java:132-146 | the kept children are exactly the first candidate of each symmetry class, the independent definition `FirstOfEachClass` |
| Successors.KeptAreMoves | gatos/Gato.java:132-146 | after the whole scan each kept child is a move at a free cell and the children come in scan order |
| Successors.KeptCoverFreeCells | gatos/Gato.java:132-146 | after the whole scan the move at every free cell is `equals` to some kept child |
| Successors.KeptCount | gatos/Gato.java:132-146 | at most as many kept children as free cells, and at least one when a cell is free |
| Successors.FirstMoveClassesDistinct | gatos/Gato.java:317-344 | on the empty board the corner, edge and centre first moves are pairwise not `equals` |
| Successors.FirstMovesCollapse | gatos/Gato.java:317-344 | every other first move is `equals` to the corner move (0, 0) or the edge move (1, 0) |
| Successors.EmptyBoardHasThreeChildren | gatos/Gato.java:125-146 | from the empty board the kept children are exactly the corner (0,0), the edge (1,0) and the centre (1,1), marked by the first player |
| Gatos.Gato.constructor | gatos/Gato.java:19-30 | the initial state: an empty grid of its own, no parent, no successors, `jugador1` and the winner flag false, no moves; it is `WellFormed` (only marks, `tiradas` counts the occupied cells) |
| Gatos.Gato.Copy | gatos/Gato.java:35-42 | a new state with its own grid, a cell-for-cell copy of the other state's grid, the same move count, and every other field at its initial value |
| Gatos.Gato.NumChildren | gatos/Gato.java:47-53 | 0 while the successors are absent, else the length of their list |
| Gatos.Gato.UpdateWinner | gatos/Gato.java:61-100 | the winner flag becomes its old value or'ed with the win rule of the mark at (x, y); nothing else changes |
| Gatos.Gato.PlayAt | gatos/Gato.java:107-112 | one move more; the grid is the old grid with only (x, y) set to the player's mark; the winner flag is set exactly when the move completes a line, equivalently when a whole line through (x, y) holds the mark |
| Gatos.Gato.MakeChild | gatos/Gato.java:135-138 | a new state with a grid of its own: this board with (x, y) marked by the other player, parent this, flag flipped, one move more, no successors, and win flag of that move |
| Gatos.Gato.GenerateSuccessors | gatos/Gato.java:125-147 | a goal state gives None and keeps `sucesores`; otherwise the stored and returned list matches the deduplicated candidates one for one; its states are pairwise distinct, each with its own grid; there are at most as many as free cells, and at least one when a cell is free; only `sucesores` changes |
| Gatos.Gato.ScanBoard | gatos/Gato.java:132-144 | the row loop yields a list matching the deduplicated candidates of the whole board one for one, its states pairwise distinct, each with its own grid |
| Gatos.Gato.ScanRow | gatos/Gato.java:133-143 | scanning one row extends the matched list from the candidates before the row to the candidates up to its end, keeping what was there |
| Gatos.Gato.ConsiderCell | gatos/Gato.java:134-142 | one cell of the scan: the list matches the deduplicated candidates one cell further, and it is unchanged or one longer |
| Gatos.Gato.AddChild | gatos/Gato.java:135-141 | a free cell's child is appended exactly when `contains` finds no `equals` child; the result matches the deduplication one candidate longer |
| Gatos.NonGoalHasFreeCell | gatos/Gato.java:126-127 | a `WellFormed` state (`tiradas` counts the occupied cells, as the comment of line 24 says) with `tiradas != 9` has a free cell |
| Gatos.GeneratedWellFormed | gatos/Gato.java:125-146 | a `WellFormed` parent that is not full yields at least one child, and every generated child is `WellFormed`: only marks, and `tiradas` counts its occupied cells |
| Gatos.GeneratedAreMoves | gatos/Gato.java:132-138 | each generated child's board is the parent's board with one free cell marked, so it has one occupied cell more |
| Gatos.GeneratedInequivalent | gatos/Gato.java:139-141 | no two generated children are `equals` |
| Gatos.GeneratedCover | gatos/Gato.java:132-146 | the move at every free cell of the parent is `equals` to some generated child |
| Gatos.ScanStep | gatos/Gato.java:139-141 | one `contains`/`add` step keeps the list matched to the deduplication and its states distinct |
| Gatos.ScanMatchesHasEquivalent | gatos/Gato.java:139 | asking `equals` of the generated states is asking it of their candidate boards |
| Gatos.Contains | gatos/Gato.java:139 | `contains` is true exactly when some state of the list is `equals` to the given one |
| Gatos.Gato.IsIdentical | gatos/Gato.java:158-167 | true exactly when the two grids agree on every cell |
| Gatos.Gato.IsTransposeOf | gatos/Gato.java:172-184 | true exactly when this grid is the transpose of the other |
| Gatos.Gato.IsAntiTransposeOf | gatos/Gato.java:189-210 | true exactly when this grid is the other reflected over /, with the cell found through the offset table |
| Gatos.Gato.IsMirrorVerticalOf | gatos/Gato.java:215-231 | true exactly when this grid is the other reflected over the vertical axis |
| Gatos.Gato.IsMirrorHorizontalOf | gatos/Gato.java:236-252 | true exactly when this grid is the other reflected over the horizontal axis |
| Gatos.Gato.Rotated90 | gatos/Gato.java:257-272 | a new state whose own grid is this one turned a quarter clockwise; same move count, other fields initial |
| Gatos.Gato.Rotated180 | gatos/Gato.java:277-279 | a new state whose grid is this one turned half round |
| Gatos.Gato.Rotated270 | gatos/Gato.java:284-286 | a new state whose grid is this one turned three quarters clockwise |
| Gatos.Gato.IsRotation90Of | gatos/Gato.java:291-294 | true exactly when this grid is the other turned a quarter clockwise |
| Gatos.Gato.IsRotation180Of | gatos/Gato.java:299-302 | true exactly when this grid is the other turned half round |
| Gatos.Gato.IsRotation270Of | gatos/Gato.java:307-310 | true exactly when this grid is the other turned three quarters clockwise |
| Gatos.Gato.Equals | gatos/Gato.java:316-344 | true exactly when the boards are symmetry-equivalent, the relation proved reflexive, symmetric and transitive |

## Left out

- `toString` (gatos/Gato.java:350-361) builds a display string and is not modelled.
- `equals` takes an `Object` and casts it to `Gato`. The model takes a `Gato`, so the cast and the exception it can throw are left out.
- `hashCode` is not overridden in the source, and nothing in the model relies on hashing.
- `LinkedList` is modelled as a sequence. `contains` is a linear scan that calls `equals` of the new child on each element, which is what `LinkedList.contains` does. The list's other internals are left out.
- No search or tree-building driver above `generaSucesores` is part of this model.
- `tiradas` is an unbounded integer. The Java `int` would wrap only after more than two billion moves, and a game has at most nine.
- GenerateSuccessors: the children are stated to be distinct from the parent and from each other, each with a grid of its own. The contract does not say that they are newly allocated.
- GenerateSuccessors: the Java code stores the new empty list in `sucesores` before the loop and adds children to it. The model builds the list first and stores it once the loop ends. No other code runs in between, so the final state is the same.
- Gatos.Gato.PlayAt: like `tiraEn`, it does not require the cell to be free, and it overwrites whatever the cell held.
- The winner flag is computed only for the move just played. The model does not state "at most one winner" for boards that no game can reach.
