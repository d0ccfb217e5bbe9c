/**
 * The 3x3 board of a tic-tac-toe ("gato") state as a value, the two player
 * marks, the win rule that is checked after every move, and cell counting.
 */
module Boards {

  /** Mark of the first player (`MARCA1`). */
  const MARCA1: int := 1
  /** Mark of the second player (`MARCA2`). */
  const MARCA2: int := 4
  /** A free cell holds Java's default int value. */
  const EMPTY: int := 0

  /** A row or column number of the 3x3 grid. */
  type Coord = i: int | 0 <= i < 3

  /**
   * The grid `tablero[y][x]` flattened row by row: the cell in column x of
   * row y is at index 3 * y + x, so index order is the row-major scan order.
   */
  type Board = b: seq<int> | |b| == 9 witness [0, 0, 0, 0, 0, 0, 0, 0, 0]

  function Index(x: Coord, y: Coord): (i: nat)
    ensures i < 9
  {
    3 * y + x
  }

  /** The cell in column x of row y, `tablero[y][x]`. */
  function At(b: Board, x: Coord, y: Coord): int
  {
    b[Index(x, y)]
  }

  /** Two boards that agree on every cell are the same board. */
  lemma SameCells(a: Board, b: Board)
    requires forall x: Coord, y: Coord :: At(a, x, y) == At(b, x, y)
    ensures a == b
  {
    forall i | 0 <= i < 9 ensures a[i] == b[i] {
      assert At(a, i % 3, i / 3) == At(b, i % 3, i / 3);
    }
  }

  const EmptyBoard: Board := [0, 0, 0, 0, 0, 0, 0, 0, 0]

  /** The mark placed by a state whose `jugador1` flag is set as given. */
  function MarkOf(jugador1: bool): int
  {
    if jugador1 then MARCA1 else MARCA2
  }

  /** Every cell is free or holds one of the two marks. */
  predicate MarksOnly(b: Board)
  {
    forall i :: 0 <= i < 9 ==> b[i] in {EMPTY, MARCA1, MARCA2}
  }

  // ---------------------------------------------------------------------
  // The win rule of a single move at (x, y): the OTHER cells of a line
  // through (x, y) hold the mark.
  // ---------------------------------------------------------------------

  predicate RowCompleted(b: Board, x: Coord, y: Coord, m: int)
  {
    forall c: Coord :: c != x ==> At(b, c, y) == m
  }

  predicate ColumnCompleted(b: Board, x: Coord, y: Coord, m: int)
  {
    forall r: Coord :: r != y ==> At(b, x, r) == m
  }

  /** (x, y) lies on the diagonal \ and its other cells hold m. */
  predicate MainDiagonalCompleted(b: Board, x: Coord, y: Coord, m: int)
  {
    x == y && forall k: Coord :: k != x ==> At(b, k, k) == m
  }

  /** (x, y) lies on the diagonal / and its other cells hold m. */
  predicate AntiDiagonalCompleted(b: Board, x: Coord, y: Coord, m: int)
  {
    x + y == 2 && forall k: Coord, j: Coord :: k + j == 2 && k != x ==> At(b, k, j) == m
  }

  /**
   * A mark m played at (x, y) completes a line: the row, the column, or a
   * diagonal through (x, y). Edge cells lie on no diagonal; the centre lies
   * on both.
   */
  predicate Completes(b: Board, x: Coord, y: Coord, m: int)
  {
    || RowCompleted(b, x, y, m)
    || ColumnCompleted(b, x, y, m)
    || MainDiagonalCompleted(b, x, y, m)
    || AntiDiagonalCompleted(b, x, y, m)
  }

  // The same rule in the modular form that reads the two other cells of a
  // line as (x + 1) % 3 and (x + 2) % 3.

  lemma RowByModulus(b: Board, x: Coord, y: Coord, m: int)
    ensures RowCompleted(b, x, y, m) <==> At(b, (x + 1) % 3, y) == m && At(b, (x + 2) % 3, y) == m
  {
  }

  lemma ColumnByModulus(b: Board, x: Coord, y: Coord, m: int)
    ensures ColumnCompleted(b, x, y, m) <==> At(b, x, (y + 1) % 3) == m && At(b, x, (y + 2) % 3) == m
  {
  }

  /** On a corner of the diagonal \ the other two cells are one and two steps further along it. */
  lemma MainDiagonalByModulus(b: Board, x: Coord, y: Coord, m: int)
    requires x == y && x != 1
    ensures MainDiagonalCompleted(b, x, y, m) <==>
      At(b, (x + 1) % 3, (y + 1) % 3) == m && At(b, (x + 2) % 3, (y + 2) % 3) == m
    ensures !AntiDiagonalCompleted(b, x, y, m)
  {
  }

  /** On a corner of the diagonal / the other two cells are reached by (+1, +2) and (+2, +1). */
  lemma AntiDiagonalByModulus(b: Board, x: Coord, y: Coord, m: int)
    requires x + y == 2 && x != 1
    ensures AntiDiagonalCompleted(b, x, y, m) <==>
      At(b, (x + 1) % 3, (y + 2) % 3) == m && At(b, (x + 2) % 3, (y + 1) % 3) == m
    ensures !MainDiagonalCompleted(b, x, y, m)
  {
  }

  /** The centre lies on both diagonals. */
  lemma CentreDiagonals(b: Board, m: int)
    ensures MainDiagonalCompleted(b, 1, 1, m) <==> At(b, 0, 0) == m && At(b, 2, 2) == m
    ensures AntiDiagonalCompleted(b, 1, 1, m) <==> At(b, 0, 2) == m && At(b, 2, 0) == m
  {
  }

  /** An edge cell lies on no diagonal. */
  lemma EdgeNoDiagonal(b: Board, x: Coord, y: Coord, m: int)
    requires (x == 1 && y != 1) || (y == 1 && x != 1)
    ensures !MainDiagonalCompleted(b, x, y, m) && !AntiDiagonalCompleted(b, x, y, m)
  {
  }

  /** The eight lines of the game as board indices: rows, columns, diagonals. */
  const Lines: seq<seq<int>> :=
    [[0, 1, 2], [3, 4, 5], [6, 7, 8],
     [0, 3, 6], [1, 4, 7], [2, 5, 8],
     [0, 4, 8], [2, 4, 6]]

  /** Every cell of line l holds m. */
  predicate LineFilled(b: Board, l: nat, m: int)
    requires l < 8
  {
    b[Lines[l][0]] == m && b[Lines[l][1]] == m && b[Lines[l][2]] == m
  }

  /** Some line through (x, y) is entirely m: three in a row. */
  predicate LineThrough(b: Board, x: Coord, y: Coord, m: int)
  {
    exists l :: 0 <= l < 8 && Index(x, y) in Lines[l] && LineFilled(b, l, m)
  }

  /**
   * Once the played cell holds the mark, the move completes a line exactly
   * when some whole line through that cell is filled with the mark.
   */
  lemma CompletesIffLineThrough(b: Board, x: Coord, y: Coord, m: int)
    requires At(b, x, y) == m
    ensures Completes(b, x, y, m) <==> LineThrough(b, x, y, m)
  {
    if Completes(b, x, y, m) {
      CompletesGivesLine(b, x, y, m);
    }
    if LineThrough(b, x, y, m) {
      var l :| 0 <= l < 8 && Index(x, y) in Lines[l] && LineFilled(b, l, m);
      LineGivesCompletes(b, x, y, m, l);
    }
  }

  lemma CompletesGivesLine(b: Board, x: Coord, y: Coord, m: int)
    requires At(b, x, y) == m && Completes(b, x, y, m)
    ensures LineThrough(b, x, y, m)
  {
    var i := Index(x, y);
    if RowCompleted(b, x, y, m) {
      assert At(b, 0, y) == m && At(b, 1, y) == m && At(b, 2, y) == m;
      assert i in Lines[y] && LineFilled(b, y, m);
    } else if ColumnCompleted(b, x, y, m) {
      assert At(b, x, 0) == m && At(b, x, 1) == m && At(b, x, 2) == m;
      assert i in Lines[3 + x] && LineFilled(b, 3 + x, m);
    } else if MainDiagonalCompleted(b, x, y, m) {
      assert At(b, 0, 0) == m && At(b, 1, 1) == m && At(b, 2, 2) == m;
      assert i in Lines[6] && LineFilled(b, 6, m);
    } else {
      assert At(b, 0, 2) == m && At(b, 1, 1) == m && At(b, 2, 0) == m;
      assert i in Lines[7] && LineFilled(b, 7, m);
    }
  }

  lemma LineGivesCompletes(b: Board, x: Coord, y: Coord, m: int, l: nat)
    requires l < 8 && Index(x, y) in Lines[l] && LineFilled(b, l, m)
    ensures Completes(b, x, y, m)
  {
    if l < 3 {
      RowLineCompletes(b, x, y, m, l);
    } else if l < 6 {
      ColumnLineCompletes(b, x, y, m, l);
    } else if l == 6 {
      MainLineCompletes(b, x, y, m);
    } else {
      AntiLineCompletes(b, x, y, m);
    }
  }

  lemma RowLineCompletes(b: Board, x: Coord, y: Coord, m: int, l: nat)
    requires l < 3 && Index(x, y) in Lines[l] && LineFilled(b, l, m)
    ensures RowCompleted(b, x, y, m)
  {
    assert Lines[l] == [3 * l, 3 * l + 1, 3 * l + 2];
    assert y == l;
  }

  lemma ColumnLineCompletes(b: Board, x: Coord, y: Coord, m: int, l: nat)
    requires 3 <= l < 6 && Index(x, y) in Lines[l] && LineFilled(b, l, m)
    ensures ColumnCompleted(b, x, y, m)
  {
    assert Lines[l] == [l - 3, l, l + 3];
    assert x == l - 3;
  }

  lemma MainLineCompletes(b: Board, x: Coord, y: Coord, m: int)
    requires Index(x, y) in Lines[6] && LineFilled(b, 6, m)
    ensures MainDiagonalCompleted(b, x, y, m)
  {
    assert Lines[6] == [0, 4, 8];
    assert b[0] == m && b[4] == m && b[8] == m;
    assert x == y;
    forall k: Coord ensures At(b, k, k) == m {
      assert Index(k, k) == 4 * k;
    }
  }

  lemma AntiLineCompletes(b: Board, x: Coord, y: Coord, m: int)
    requires Index(x, y) in Lines[7] && LineFilled(b, 7, m)
    ensures AntiDiagonalCompleted(b, x, y, m)
  {
    assert Lines[7] == [2, 4, 6];
    assert b[2] == m && b[4] == m && b[6] == m;
    assert x + y == 2;
    forall k: Coord, j: Coord | k + j == 2 ensures At(b, k, j) == m {
      assert Index(k, j) == 6 - 2 * k;
    }
  }

  /**
   * The first player at (0, 0), the second at (1, 1), then the first player
   * at (2, 2): the middle of the diagonal belongs to the other player, so
   * the last move completes nothing.
   */
  lemma SplitDiagonalIsNoWin()
    ensures var b := EmptyBoard[Index(0, 0) := MARCA1][Index(1, 1) := MARCA2][Index(2, 2) := MARCA1];
      !Completes(b, 2, 2, MARCA1) && !LineThrough(b, 2, 2, MARCA1)
  {
    var b := EmptyBoard[Index(0, 0) := MARCA1][Index(1, 1) := MARCA2][Index(2, 2) := MARCA1];
    assert At(b, 0, 2) != MARCA1 && At(b, 2, 0) != MARCA1 && At(b, 1, 1) != MARCA1;
    CompletesIffLineThrough(b, 2, 2, MARCA1);
  }

  // ---------------------------------------------------------------------
  // Counting occupied cells.
  // ---------------------------------------------------------------------

  /** Number of occupied cells among the first n cells in scan order. */
  function Filled(b: Board, n: nat): (c: nat)
    requires n <= 9
    ensures c <= n
  {
    if n == 0 then 0 else Filled(b, n - 1) + (if b[n - 1] != EMPTY then 1 else 0)
  }

  /** Number of occupied cells on the board. */
  function Occupied(b: Board): (c: nat)
    ensures c <= 9
  {
    Filled(b, 9)
  }

  /** The empty board holds only free cells and none is occupied. */
  lemma {:induction false} EmptyBoardUnoccupied(n: nat)
    requires n <= 9
    ensures MarksOnly(EmptyBoard) && Filled(EmptyBoard, n) == 0
  {
    if n > 0 {
      EmptyBoardUnoccupied(n - 1);
    }
  }

  /** Marking a free cell occupies exactly one more cell. */
  lemma {:induction false} FilledAfterMark(b: Board, i: nat, m: int, n: nat)
    requires i < 9 && b[i] == EMPTY && m != EMPTY && n <= 9
    ensures Filled(b[i := m], n) == Filled(b, n) + (if i < n then 1 else 0)
  {
    if n > 0 {
      FilledAfterMark(b, i, m, n - 1);
    }
  }

  /** A board with fewer than nine occupied cells has a free cell. */
  lemma {:induction false} FreeCellExists(b: Board, n: nat)
    requires n <= 9 && Filled(b, n) < n
    ensures exists i :: 0 <= i < n && b[i] == EMPTY
  {
    if b[n - 1] != EMPTY {
      FreeCellExists(b, n - 1);
    }
  }
}
