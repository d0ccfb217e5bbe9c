/**
 * A state of the game of tic-tac-toe ("gato") that knows how to generate its
 * successors, deduplicated by the symmetries of the square.
 */
module Gatos {
  import opened Boards
  import opened Symmetry
  import opened Successors

  /** A reference that may be absent (Java `null`). */
  datatype Option<T> = None | Some(value: T)

  class Gato {
    /**
     * The grid, read as `tablero[y, x]` (row y, column x). The field is set
     * once by the constructors; only the cells of the grid change.
     */
    const tablero: array2<int>
    /** The state that generated this one; `null` for the root and for copies. */
    var padre: Gato?
    /** The successors once generated; `None` (Java `null`) before. */
    var sucesores: Option<seq<Gato>>
    /** Whether the mark of this state's move is the first player's. */
    var jugador1: bool
    /** Whether the last move produced a winner. */
    var hayGanador: bool
    /** Number of moves played. */
    var tiradas: int

    ghost predicate Valid()
    {
      tablero.Length0 == 3 && tablero.Length1 == 3
    }

    /** The grid as a board value. */
    function Cells(): (b: Board)
      reads tablero
      requires Valid()
      ensures forall x: Coord, y: Coord :: At(b, x, y) == tablero[y, x]
    {
      var b := [tablero[0, 0], tablero[0, 1], tablero[0, 2],
                tablero[1, 0], tablero[1, 1], tablero[1, 2],
                tablero[2, 0], tablero[2, 1], tablero[2, 2]];
      assert forall x: Coord, y: Coord :: At(b, x, y) == tablero[y, x] by {
        forall x: Coord, y: Coord ensures At(b, x, y) == tablero[y, x] {
          if y == 0 {} else if y == 1 {} else {}
        }
      }
      b
    }

    /**
     * Only marks on the board, and `tiradas` counts the occupied cells. The
     * initial state has it, and every child generated from a state that has
     * it has it too (`GeneratedWellFormed`).
     */
    ghost predicate WellFormed()
      reads this, tablero
    {
      Valid() && MarksOnly(Cells()) && tiradas == Occupied(Cells())
    }

    /** The initial state: an empty board, no parent, no successors yet. */
    constructor ()
      ensures Valid() && fresh(tablero)
      ensures Cells() == EmptyBoard && tiradas == 0
      ensures padre == null && sucesores == None && !jugador1 && !hayGanador
      ensures WellFormed()
    {
      tablero := new int[3, 3]((_, _) => EMPTY);
      padre := null;
      sucesores := None;
      jugador1 := false;
      hayGanador := false;
      tiradas := 0;
      new;
      assert Cells() == EmptyBoard;
      assert WellFormed() by {
        EmptyBoardUnoccupied(9);
      }
    }

    /**
     * Copy of another state's board and move count; every other field takes
     * its initial value.
     */
    constructor Copy(g: Gato)
      requires g.Valid()
      ensures Valid() && fresh(tablero)
      ensures Cells() == g.Cells() && tiradas == g.tiradas
      ensures padre == null && sucesores == None && !jugador1 && !hayGanador
    {
      var t := new int[3, 3]((_, _) => EMPTY);
      for y := 0 to 3
        invariant forall yy: Coord, xx: Coord :: yy < y ==> t[yy, xx] == g.tablero[yy, xx]
      {
        for x := 0 to 3
          invariant forall yy: Coord, xx: Coord :: yy < y || (yy == y && xx < x) ==> t[yy, xx] == g.tablero[yy, xx]
        {
          t[y, x] := g.tablero[y, x];
        }
      }
      tablero := t;
      padre := null;
      sucesores := None;
      jugador1 := false;
      hayGanador := false;
      tiradas := g.tiradas;
      new;
      SameCells(Cells(), g.Cells());
    }

    /** Number of expanded successors: 0 while `sucesores` is absent. */
    function NumChildren(): (n: nat)
      reads this`sucesores
      ensures sucesores == None ==> n == 0
      ensures sucesores != None ==> n == |sucesores.value|
    {
      if sucesores.Some? then |sucesores.value| else 0
    }

    /**
     * Sets `hayGanador` when mark `marca` at (x, y) completes a line. Only the
     * two other cells of each line are read, with modular indexing; the flag
     * is never cleared.
     */
    method UpdateWinner(x: int, y: int, marca: int)
      requires Valid() && 0 <= x < 3 && 0 <= y < 3
      modifies this`hayGanador
      ensures hayGanador == (old(hayGanador) || Completes(Cells(), x, y, marca))
    {
      ghost var b := Cells();
      RowByModulus(b, x, y, marca);
      ColumnByModulus(b, x, y, marca);
      // Horizontal
      if tablero[y, (x + 1) % 3] == marca && tablero[y, (x + 2) % 3] == marca {
        hayGanador := true;
        return;
      }
      // Vertical
      if tablero[(y + 1) % 3, x] == marca && tablero[(y + 2) % 3, x] == marca {
        hayGanador := true;
        return;
      }
      // Edge cells lie on no diagonal
      if (x == 1 && y != 1) || (y == 1 && x != 1) {
        EdgeNoDiagonal(b, x, y, marca);
        return;
      }
      if x == 1 && y == 1 {
        CentreDiagonals(b, marca);
        if tablero[0, 0] == marca && tablero[2, 2] == marca {
          hayGanador := true;
          return;
        }
        if tablero[2, 0] == marca && tablero[0, 2] == marca {
          hayGanador := true;
          return;
        }
      } else if x == y {
        MainDiagonalByModulus(b, x, y, marca);
        if tablero[(y + 1) % 3, (x + 1) % 3] == marca && tablero[(y + 2) % 3, (x + 2) % 3] == marca {
          hayGanador := true;
          return;
        }
      } else {
        AntiDiagonalByModulus(b, x, y, marca);
        if tablero[(y + 2) % 3, (x + 1) % 3] == marca && tablero[(y + 1) % 3, (x + 2) % 3] == marca {
          hayGanador := true;
          return;
        }
      }
    }

    /**
     * Plays the mark of this state's player at (x, y), counts the move and
     * checks whether it won. The cell is overwritten whatever it held.
     */
    method PlayAt(x: int, y: int)
      requires Valid() && 0 <= x < 3 && 0 <= y < 3
      modifies this`tiradas, this`hayGanador, tablero
      ensures tiradas == old(tiradas) + 1
      ensures Cells() == old(Cells())[Index(x, y) := MarkOf(jugador1)]
      ensures hayGanador == (old(hayGanador) || Completes(Cells(), x, y, MarkOf(jugador1)))
      ensures hayGanador == (old(hayGanador) || LineThrough(Cells(), x, y, MarkOf(jugador1)))
    {
      ghost var b := Cells();
      tiradas := tiradas + 1;
      var marca := if jugador1 then MARCA1 else MARCA2;
      tablero[y, x] := marca;
      SameCells(Cells(), b[Index(x, y) := marca]);
      UpdateWinner(x, y, marca);
      CompletesIffLineThrough(Cells(), x, y, marca);
    }


    /**
     * One child of this state: a copy of the board and move count, linked to
     * this state, with the other player to move, who plays at (x, y).
     */
    method MakeChild(x: int, y: int) returns (sucesor: Gato)
      requires Valid() && 0 <= x < 3 && 0 <= y < 3
      ensures fresh(sucesor) && fresh(sucesor.tablero) && sucesor.Valid()
      ensures sucesor.Cells() == Cells()[Index(x, y) := MarkOf(!jugador1)]
      ensures sucesor.padre == this && sucesor.jugador1 == !jugador1 && sucesor.tiradas == tiradas + 1
      ensures sucesor.sucesores == None
      ensures sucesor.hayGanador == Completes(sucesor.Cells(), x, y, MarkOf(!jugador1))
      ensures ChildOf(sucesor, this, jugador1, tiradas, Child(x, y, Cells()[Index(x, y) := MarkOf(!jugador1)]))
    {
      sucesor := new Gato.Copy(this);
      sucesor.padre := this;
      sucesor.jugador1 := !jugador1;
      sucesor.PlayAt(x, y);
    }

    /**
     * The successors of this state (`generaSucesores`): `None` for a goal
     * state, which keeps `sucesores` as it was; otherwise one child per free
     * cell in scan order, each a copy of this board with the other player's
     * mark played there, kept only when no child kept before is `equals` to
     * it. The list is stored in `sucesores` and returned.
     */
    method GenerateSuccessors() returns (r: Option<seq<Gato>>)
      requires Valid()
      modifies this`sucesores
      ensures hayGanador || tiradas == 9 ==> r == None && sucesores == old(sucesores)
      ensures !hayGanador && tiradas != 9 ==> r.Some? && sucesores == r
      ensures r.Some? ==>
        ChildrenMatch(this, jugador1, tiradas, r.value, Dedup(Candidates(Cells(), MarkOf(!jugador1), 9)))
      ensures r.Some? ==> Distinct(r.value)
      ensures r.Some? ==> |r.value| <= 9 - Occupied(Cells())
      ensures r.Some? && Occupied(Cells()) < 9 ==> 1 <= |r.value|
    {
      if hayGanador || tiradas == 9 {
        return None;
      }
      ghost var b := Cells();
      ghost var m := MarkOf(!jugador1);
      var acc := ScanBoard(b, m);
      KeptCount(b, m, Dedup(Candidates(b, m, 9)));
      sucesores := Some(acc);
      r := sucesores;
    }

    /**
     * The loop of `generaSucesores`: the rows from top to bottom, keeping the
     * first child of each symmetry class.
     */
    method ScanBoard(ghost b: Board, ghost m: int) returns (acc: seq<Gato>)
      requires Valid() && b == Cells() && m == MarkOf(!jugador1)
      ensures ChildrenMatch(this, jugador1, tiradas, acc, Dedup(Candidates(b, m, 9)))
      ensures Distinct(acc)
    {
      ghost var n: nat := 0;
      acc := [];
      for y := 0 to 3
        invariant n == 3 * y
        invariant ChildrenMatch(this, jugador1, tiradas, acc, Dedup(Candidates(b, m, n)))
        invariant Distinct(acc)
      {
        acc := ScanRow(y, acc, b, m, n);
        n := n + 3;
      }
    }

    /** The inner loop of the scan: the cells of row y from left to right; n counts the cells scanned before. */
    method ScanRow(y: int, acc: seq<Gato>, ghost b: Board, ghost m: int, ghost n: nat) returns (acc': seq<Gato>)
      requires Valid() && 0 <= y < 3 && n == 3 * y && b == Cells() && m == MarkOf(!jugador1)
      requires ChildrenMatch(this, jugador1, tiradas, acc, Dedup(Candidates(b, m, n)))
      requires Distinct(acc)
      ensures ChildrenMatch(this, jugador1, tiradas, acc', Dedup(Candidates(b, m, n + 3)))
      ensures Distinct(acc')
      ensures |acc| <= |acc'| && acc'[..|acc|] == acc
    {
      acc' := acc;
      ghost var i: nat := n;
      for x := 0 to 3
        invariant i == n + x
        invariant ChildrenMatch(this, jugador1, tiradas, acc', Dedup(Candidates(b, m, i)))
        invariant Distinct(acc')
        invariant |acc| <= |acc'| && acc'[..|acc|] == acc
      {
        acc' := ConsiderCell(x, y, acc', b, m, i);
        i := i + 1;
      }
    }

    /**
     * The body of the scan at cell (x, y), the n-th cell in scan order: when
     * the cell is free, build the child and add it to the list unless some
     * child already in it is `equals` to it.
     */
    method ConsiderCell(x: int, y: int, acc: seq<Gato>, ghost b: Board, ghost m: int, ghost n: nat)
      returns (acc': seq<Gato>)
      requires Valid() && 0 <= x < 3 && 0 <= y < 3 && n == Index(x, y) && b == Cells() && m == MarkOf(!jugador1)
      requires ChildrenMatch(this, jugador1, tiradas, acc, Dedup(Candidates(b, m, n)))
      requires Distinct(acc)
      ensures ChildrenMatch(this, jugador1, tiradas, acc', Dedup(Candidates(b, m, n + 1)))
      ensures Distinct(acc')
      ensures acc' == acc || (|acc'| == |acc| + 1 && acc'[..|acc|] == acc)
    {
      CandidatesAt(b, m, x, y);
      assert At(b, x, y) == tablero[y, x];
      if tablero[y, x] == EMPTY {
        acc' := AddChild(x, y, acc, Candidates(b, m, n), Child(x, y, b[n := m]));
      } else {
        acc' := acc;
        assert Candidates(b, m, n + 1) == Candidates(b, m, n);
      }
    }

    /**
     * The free-cell branch of the scan: the child for (x, y), appended
     * unless `contains` finds an `equals` child already in the list.
     */
    method AddChild(x: int, y: int, acc: seq<Gato>, ghost p: seq<Child>, ghost c: Child) returns (acc': seq<Gato>)
      requires Valid() && 0 <= x < 3 && 0 <= y < 3
      requires c == Child(x, y, Cells()[Index(x, y) := MarkOf(!jugador1)])
      requires ChildrenMatch(this, jugador1, tiradas, acc, Dedup(p))
      requires Distinct(acc)
      ensures ChildrenMatch(this, jugador1, tiradas, acc', Dedup(p + [c]))
      ensures Distinct(acc')
      ensures acc' == acc || (|acc'| == |acc| + 1 && acc'[..|acc|] == acc)
    {
      var sucesor := MakeChild(x, y);
      var dup := Contains(acc, sucesor);
      ScanStep(this, jugador1, tiradas, acc, p, sucesor, c, dup);
      acc' := acc;
      if !dup {
        acc' := acc + [sucesor];
      }
    }

    // -------------------------------------------------------------------
    // Symmetry checks. Each compares this[y][x] with one cell of otro for
    // every (x, y) in scan order and stops at the first difference.
    // -------------------------------------------------------------------

    /** The two grids are the same cell for cell. */
    method IsIdentical(otro: Gato) returns (r: bool)
      requires Valid() && otro.Valid()
      ensures r == (Cells() == otro.Cells())
    {
      for y := 0 to 3
        invariant forall yy: Coord, xx: Coord :: yy < y ==> tablero[yy, xx] == otro.tablero[yy, xx]
      {
        for x := 0 to 3
          invariant forall yy: Coord, xx: Coord :: yy < y || (yy == y && xx < x) ==>
            tablero[yy, xx] == otro.tablero[yy, xx]
        {
          if tablero[y, x] != otro.tablero[y, x] {
            assert At(Cells(), x, y) != At(otro.Cells(), x, y);
            return false;
          }
        }
      }
      SameCells(Cells(), otro.Cells());
      return true;
    }

    /** This grid is the reflection of otro over the diagonal \ (its transpose). */
    method IsTransposeOf(otro: Gato) returns (r: bool)
      requires Valid() && otro.Valid()
      ensures r == (Cells() == Transpose(otro.Cells()))
    {
      ghost var t := Transpose(otro.Cells());
      TransposeCells(otro.Cells());
      for y := 0 to 3
        invariant forall yy: Coord, xx: Coord :: yy < y ==> tablero[yy, xx] == At(t, xx, yy)
      {
        for x := 0 to 3
          invariant forall yy: Coord, xx: Coord :: yy < y || (yy == y && xx < x) ==>
            tablero[yy, xx] == At(t, xx, yy)
        {
          if tablero[y, x] != otro.tablero[x, y] {
            assert At(Cells(), x, y) != At(t, x, y);
            return false;
          }
        }
      }
      SameCells(Cells(), t);
      return true;
    }

    /**
     * This grid is the reflection of otro over the diagonal /, the compared
     * cell being found through the offset table `matriz`.
     */
    method IsAntiTransposeOf(otro: Gato) returns (r: bool)
      requires Valid() && otro.Valid()
      ensures r == (Cells() == AntiTranspose(otro.Cells()))
    {
      ghost var t := AntiTranspose(otro.Cells());
      AntiTransposeCells(otro.Cells());
      var matriz := [[2, 1, 0], [1, 0, 2], [0, 2, 1]];
      for y := 0 to 3
        invariant forall yy: Coord, xx: Coord :: yy < y ==> tablero[yy, xx] == At(t, xx, yy)
      {
        for x := 0 to 3
          invariant forall yy: Coord, xx: Coord :: yy < y || (yy == y && xx < x) ==>
            tablero[yy, xx] == At(t, xx, yy)
        {
          var coordX := (x + matriz[x][y]) % 3;
          var coordY := (y + matriz[x][y]) % 3;
          assert coordX == 2 - y && coordY == 2 - x;
          if tablero[y, x] != otro.tablero[coordY, coordX] {
            assert At(Cells(), x, y) != At(t, x, y);
            return false;
          }
        }
      }
      SameCells(Cells(), t);
      return true;
    }

    /** This grid is otro reflected over the vertical axis. */
    method IsMirrorVerticalOf(otro: Gato) returns (r: bool)
      requires Valid() && otro.Valid()
      ensures r == (Cells() == MirrorVertical(otro.Cells()))
    {
      ghost var t := MirrorVertical(otro.Cells());
      MirrorVerticalCells(otro.Cells());
      var matriz := [2, 0, 1];
      for y := 0 to 3
        invariant forall yy: Coord, xx: Coord :: yy < y ==> tablero[yy, xx] == At(t, xx, yy)
      {
        for x := 0 to 3
          invariant forall yy: Coord, xx: Coord :: yy < y || (yy == y && xx < x) ==>
            tablero[yy, xx] == At(t, xx, yy)
        {
          var coordX := (x + matriz[x]) % 3;
          assert coordX == 2 - x;
          if tablero[y, x] != otro.tablero[y, coordX] {
            assert At(Cells(), x, y) != At(t, x, y);
            return false;
          }
        }
      }
      SameCells(Cells(), t);
      return true;
    }

    /** This grid is otro reflected over the horizontal axis. */
    method IsMirrorHorizontalOf(otro: Gato) returns (r: bool)
      requires Valid() && otro.Valid()
      ensures r == (Cells() == MirrorHorizontal(otro.Cells()))
    {
      ghost var t := MirrorHorizontal(otro.Cells());
      MirrorHorizontalCells(otro.Cells());
      var matriz := [2, 0, 1];
      for y := 0 to 3
        invariant forall yy: Coord, xx: Coord :: yy < y ==> tablero[yy, xx] == At(t, xx, yy)
      {
        for x := 0 to 3
          invariant forall yy: Coord, xx: Coord :: yy < y || (yy == y && xx < x) ==>
            tablero[yy, xx] == At(t, xx, yy)
        {
          var coordY := (y + matriz[y]) % 3;
          assert coordY == 2 - y;
          if tablero[y, x] != otro.tablero[coordY, x] {
            assert At(Cells(), x, y) != At(t, x, y);
            return false;
          }
        }
      }
      SameCells(Cells(), t);
      return true;
    }

    /**
     * A new state holding this board turned 90 degrees clockwise, filled
     * through the coordinate table `matriz`; it copies the move count.
     */
    method Rotated90() returns (girado: Gato)
      requires Valid()
      ensures fresh(girado) && fresh(girado.tablero) && girado.Valid()
      ensures girado.Cells() == Rotate90(Cells())
      ensures girado.tiradas == tiradas
      ensures girado.padre == null && girado.sucesores == None && !girado.jugador1 && !girado.hayGanador
    {
      girado := new Gato.Copy(this);
      var matriz := [[[2, 0], [1, 0], [0, 0]],
                     [[2, 1], [1, 1], [0, 1]],
                     [[2, 2], [1, 2], [0, 2]]];
      for x := 0 to 3
        modifies girado.tablero
        invariant forall xx: Coord, yy: Coord :: xx < x ==> girado.tablero[xx, 2 - yy] == tablero[yy, xx]
      {
        for y := 0 to 3
          modifies girado.tablero
          invariant forall xx: Coord, yy: Coord :: xx < x || (xx == x && yy < y) ==>
            girado.tablero[xx, 2 - yy] == tablero[yy, xx]
        {
          var coordenadas := matriz[x][y];
          assert coordenadas == [2 - y, x];
          girado.tablero[coordenadas[1], coordenadas[0]] := tablero[y, x];
        }
      }
      Rotate90Cells(Cells());
      forall x: Coord, y: Coord ensures At(girado.Cells(), x, y) == At(Rotate90(Cells()), x, y) {
        assert girado.tablero[y, 2 - (2 - x)] == tablero[2 - x, y];
      }
      SameCells(girado.Cells(), Rotate90(Cells()));
    }

    /** Two quarter turns. */
    method Rotated180() returns (girado: Gato)
      requires Valid()
      ensures fresh(girado) && fresh(girado.tablero) && girado.Valid()
      ensures girado.Cells() == Rotate180(Cells())
      ensures girado.tiradas == tiradas
      ensures girado.padre == null && girado.sucesores == None && !girado.jugador1 && !girado.hayGanador
    {
      var once := Rotated90();
      girado := once.Rotated90();
    }

    /** A half turn and then a quarter turn. */
    method Rotated270() returns (girado: Gato)
      requires Valid()
      ensures fresh(girado) && fresh(girado.tablero) && girado.Valid()
      ensures girado.Cells() == Rotate270(Cells())
      ensures girado.tiradas == tiradas
      ensures girado.padre == null && girado.sucesores == None && !girado.jugador1 && !girado.hayGanador
    {
      var half := Rotated180();
      girado := half.Rotated90();
    }

    /** This grid is otro turned a quarter clockwise. */
    method IsRotation90Of(otro: Gato) returns (r: bool)
      requires Valid() && otro.Valid()
      ensures r == (Cells() == Rotate90(otro.Cells()))
    {
      var girado := otro.Rotated90();
      r := IsIdentical(girado);
    }

    /** This grid is otro turned half round. */
    method IsRotation180Of(otro: Gato) returns (r: bool)
      requires Valid() && otro.Valid()
      ensures r == (Cells() == Rotate180(otro.Cells()))
    {
      var girado := otro.Rotated180();
      r := IsIdentical(girado);
    }

    /** This grid is otro turned three quarters clockwise. */
    method IsRotation270Of(otro: Gato) returns (r: bool)
      requires Valid() && otro.Valid()
      ensures r == (Cells() == Rotate270(otro.Cells()))
    {
      var girado := otro.Rotated270();
      r := IsIdentical(girado);
    }

    /**
     * Equality of states up to the symmetries of the square (`equals`): the
     * eight checks in order, the first that holds answering true.
     */
    method Equals(otro: Gato) returns (r: bool)
      requires Valid() && otro.Valid()
      ensures r == Equivalent(Cells(), otro.Cells())
    {
      r := IsIdentical(otro);
      if r { return; }
      r := IsTransposeOf(otro);
      if r { return; }
      r := IsAntiTransposeOf(otro);
      if r { return; }
      r := IsMirrorVerticalOf(otro);
      if r { return; }
      r := IsMirrorHorizontalOf(otro);
      if r { return; }
      r := IsRotation90Of(otro);
      if r { return; }
      r := IsRotation180Of(otro);
      if r { return; }
      r := IsRotation270Of(otro);
    }
  }

  /**
   * The kids are the generated children d of a parent whose flags were
   * `jugador1` and `tiradas`: same boards, parent link, flipped player, one
   * more move, no successors yet, and the winner flag of the move played.
   */
  ghost predicate ChildrenMatch(parent: Gato, jugador1: bool, tiradas: int, kids: seq<Gato>, d: seq<Child>)
    reads kids, Grids(kids)
  {
    && |kids| == |d|
    && forall k :: 0 <= k < |kids| ==> ChildOf(kids[k], parent, jugador1, tiradas, d[k])
  }

  /** The grids of a list of states, in order. */
  function Grids(kids: seq<Gato>): (gs: seq<array2<int>>)
    ensures |gs| == |kids| && forall k :: 0 <= k < |kids| ==> gs[k] == kids[k].tablero
  {
    seq(|kids|, k requires 0 <= k < |kids| => kids[k].tablero)
  }

  /**
   * g is the child of parent (whose flag and move count are given) for the
   * candidate move c: a state other than parent with a grid of its own,
   * holding c's board, the turn passed on, one move more, no successors
   * yet, and the win flag of the move just made.
   */
  ghost predicate ChildOf(g: Gato, parent: Gato, jugador1: bool, tiradas: int, c: Child)
    reads g, g.tablero
  {
    && g != parent && g.tablero != parent.tablero
    && g.Valid()
    && g.Cells() == c.board
    && g.padre == parent
    && g.jugador1 == !jugador1
    && g.tiradas == tiradas + 1
    && g.sucesores == None
    && g.hayGanador == Completes(c.board, c.x, c.y, MarkOf(!jugador1))
  }

  /** No two generated children are `equals`, in either order. */
  lemma GeneratedInequivalent(parent: Gato, jugador1: bool, tiradas: int, kids: seq<Gato>, b: Board, m: int, d: seq<Child>)
    requires d == Dedup(Candidates(b, m, 9))
    requires ChildrenMatch(parent, jugador1, tiradas, kids, d)
    ensures forall j, k :: 0 <= j < |kids| && 0 <= k < |kids| && j != k ==>
      !Equivalent(kids[j].Cells(), kids[k].Cells())
  {
    DedupPairwiseInequivalent(Candidates(b, m, 9));
    forall k | 0 <= k < |kids| ensures kids[k].Cells() == d[k].board {
      assert ChildOf(kids[k], parent, jugador1, tiradas, d[k]);
    }
  }

  /** The move at every free cell of the parent is `equals` to some generated child. */
  lemma GeneratedCover(parent: Gato, jugador1: bool, tiradas: int, kids: seq<Gato>, b: Board, m: int, d: seq<Child>)
    requires d == Dedup(Candidates(b, m, 9))
    requires ChildrenMatch(parent, jugador1, tiradas, kids, d)
    ensures forall i :: 0 <= i < 9 && b[i] == EMPTY ==>
      exists k :: 0 <= k < |kids| && Equivalent(b[i := m], kids[k].Cells())
  {
    KeptCoverFreeCells(b, m, d);
    forall i | 0 <= i < 9 && b[i] == EMPTY
      ensures exists k :: 0 <= k < |kids| && Equivalent(b[i := m], kids[k].Cells())
    {
      ScanMatchesHasEquivalent(parent, jugador1, tiradas, kids, d, b[i := m]);
    }
  }

  /**
   * Each generated child is the parent's board with one free cell marked,
   * and so has one occupied cell more.
   */
  lemma GeneratedAreMoves(parent: Gato, jugador1: bool, tiradas: int, kids: seq<Gato>, b: Board, m: int, d: seq<Child>)
    requires d == Dedup(Candidates(b, m, 9))
    requires ChildrenMatch(parent, jugador1, tiradas, kids, d)
    requires m != EMPTY
    ensures forall k :: 0 <= k < |kids| ==> IsMove(b, m, kids[k].Cells())
    ensures forall k :: 0 <= k < |kids| ==> Occupied(kids[k].Cells()) == Occupied(b) + 1
  {
    KeptAreMoves(b, m, d);
    forall k | 0 <= k < |kids|
      ensures IsMove(b, m, kids[k].Cells())
      ensures Occupied(kids[k].Cells()) == Occupied(b) + 1
    {
      assert ChildOf(kids[k], parent, jugador1, tiradas, d[k]);
      MarkingIsMove(b, m, Index(d[k].x, d[k].y));
    }
  }

  /**
   * A state whose move count is the number of occupied cells and that is not
   * full by that count has a free cell.
   */
  lemma NonGoalHasFreeCell(g: Gato)
    requires g.WellFormed() && g.tiradas != 9
    ensures exists i :: 0 <= i < 9 && g.Cells()[i] == EMPTY
  {
    FreeCellExists(g.Cells(), 9);
  }

  /**
   * The generator keeps `WellFormed`: from a well-formed state that is not
   * full it yields at least one child, and every child holds only marks and
   * counts its occupied cells in `tiradas`.
   */
  lemma GeneratedWellFormed(parent: Gato, kids: seq<Gato>)
    requires parent.WellFormed()
    requires ChildrenMatch(parent, parent.jugador1, parent.tiradas, kids,
      Dedup(Candidates(parent.Cells(), MarkOf(!parent.jugador1), 9)))
    ensures parent.tiradas != 9 ==> 1 <= |kids|
    ensures forall k :: 0 <= k < |kids| ==> kids[k].WellFormed()
  {
    var b := parent.Cells();
    var m := MarkOf(!parent.jugador1);
    var d := Dedup(Candidates(b, m, 9));
    KeptCount(b, m, d);
    KeptAreMoves(b, m, d);
    forall k | 0 <= k < |kids| ensures kids[k].WellFormed() {
      assert ChildOf(kids[k], parent, parent.jugador1, parent.tiradas, d[k]);
      var i := Index(d[k].x, d[k].y);
      MarkingIsMove(b, m, i);
      assert kids[k].Cells() == b[i := m];
    }
  }

  lemma ChildrenMatchSnoc(parent: Gato, jugador1: bool, tiradas: int, kids: seq<Gato>, d: seq<Child>, g: Gato, c: Child)
    requires ChildrenMatch(parent, jugador1, tiradas, kids, d)
    requires ChildOf(g, parent, jugador1, tiradas, c)
    ensures ChildrenMatch(parent, jugador1, tiradas, kids + [g], d + [c])
  {
    forall k | 0 <= k < |kids| + 1
      ensures ChildOf((kids + [g])[k], parent, jugador1, tiradas, (d + [c])[k])
    {
      if k < |kids| {
        assert ChildOf(kids[k], parent, jugador1, tiradas, d[k]);
      }
    }
  }

  /**
   * One step of the scan: a new child g for candidate c is kept exactly when
   * the `equals` scan finds no match, and the kept list then matches the
   * deduplicated candidates one longer.
   */
  lemma ScanStep(parent: Gato, jugador1: bool, tiradas: int, kids: seq<Gato>, p: seq<Child>, g: Gato, c: Child, dup: bool)
    requires ChildrenMatch(parent, jugador1, tiradas, kids, Dedup(p)) && Distinct(kids)
    requires ChildOf(g, parent, jugador1, tiradas, c)
    requires forall k :: 0 <= k < |kids| ==> kids[k] != g && kids[k].tablero != g.tablero
    requires dup == exists k :: 0 <= k < |kids| && Equivalent(g.Cells(), kids[k].Cells())
    ensures ChildrenMatch(parent, jugador1, tiradas, if dup then kids else kids + [g], Dedup(p + [c]))
    ensures Distinct(if dup then kids else kids + [g])
  {
    DedupSnoc(p, c);
    ScanMatchesHasEquivalent(parent, jugador1, tiradas, kids, Dedup(p), c.board);
    if !dup {
      ChildrenMatchSnoc(parent, jugador1, tiradas, kids, Dedup(p), g, c);
      DistinctSnoc(kids, g);
    }
  }

  /** The `equals` scan over the children asks the same as HasEquivalent over their candidates. */
  lemma ScanMatchesHasEquivalent(parent: Gato, jugador1: bool, tiradas: int, kids: seq<Gato>, d: seq<Child>, b: Board)
    requires ChildrenMatch(parent, jugador1, tiradas, kids, d)
    ensures (exists k :: 0 <= k < |kids| && Equivalent(b, kids[k].Cells())) == HasEquivalent(d, b)
  {
    if exists k :: 0 <= k < |kids| && Equivalent(b, kids[k].Cells()) {
      var k :| 0 <= k < |kids| && Equivalent(b, kids[k].Cells());
      assert ChildOf(kids[k], parent, jugador1, tiradas, d[k]);
      assert Equivalent(b, d[k].board);
      assert HasEquivalent(d, b);
    }
    if HasEquivalent(d, b) {
      var k :| 0 <= k < |d| && Equivalent(b, d[k].board);
      assert ChildOf(kids[k], parent, jugador1, tiradas, d[k]);
      assert Equivalent(b, kids[k].Cells());
    }
  }

  lemma DistinctSnoc(kids: seq<Gato>, g: Gato)
    requires Distinct(kids)
    requires forall k :: 0 <= k < |kids| ==> kids[k] != g && kids[k].tablero != g.tablero
    ensures Distinct(kids + [g])
  {
  }

  /** Pairwise distinct states, each with a grid of its own. */
  ghost predicate Distinct(kids: seq<Gato>)
    reads kids
  {
    forall j, k :: 0 <= j < k < |kids| ==> kids[j] != kids[k] && kids[j].tablero != kids[k].tablero
  }

  /**
   * Whether some state of the list is `equals` to c: `LinkedList.contains`,
   * which asks `c.equals(e)` of each element e in turn.
   */
  method Contains(list: seq<Gato>, c: Gato) returns (found: bool)
    requires c.Valid() && forall k :: 0 <= k < |list| ==> list[k].Valid()
    ensures found == exists k :: 0 <= k < |list| && Equivalent(c.Cells(), list[k].Cells())
  {
    for k := 0 to |list|
      invariant forall j :: 0 <= j < k ==> !Equivalent(c.Cells(), list[j].Cells())
    {
      found := c.Equals(list[k]);
      if found {
        return;
      }
    }
    return false;
  }
}
