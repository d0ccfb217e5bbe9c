/**
 * The eight symmetries of the square (the dihedral group of order 8) acting
 * on a board, and the symmetry equivalence of two boards built from them.
 *
 * Each transform is an explicit table of the nine cells; a lemma beside it
 * states the same transform as a rule on coordinates.
 */
module Symmetry {
  import opened Boards

  /** Reflection over the diagonal \ (transpose). */
  function Transpose(b: Board): Board
  {
    [b[0], b[3], b[6],
     b[1], b[4], b[7],
     b[2], b[5], b[8]]
  }

  /** Reflection over the diagonal /. */
  function AntiTranspose(b: Board): Board
  {
    [b[8], b[5], b[2],
     b[7], b[4], b[1],
     b[6], b[3], b[0]]
  }

  /** Reflection over the vertical axis. */
  function MirrorVertical(b: Board): Board
  {
    [b[2], b[1], b[0],
     b[5], b[4], b[3],
     b[8], b[7], b[6]]
  }

  /** Reflection over the horizontal axis. */
  function MirrorHorizontal(b: Board): Board
  {
    [b[6], b[7], b[8],
     b[3], b[4], b[5],
     b[0], b[1], b[2]]
  }

  /** Clockwise quarter turn. */
  function Rotate90(b: Board): Board
  {
    [b[6], b[3], b[0],
     b[7], b[4], b[1],
     b[8], b[5], b[2]]
  }

  /** Half turn, obtained as two quarter turns. */
  function Rotate180(b: Board): Board
  {
    Rotate90(Rotate90(b))
  }

  /** Three quarter turns, obtained as a half turn followed by a quarter turn. */
  function Rotate270(b: Board): Board
  {
    Rotate90(Rotate180(b))
  }

  // The same transforms as rules on coordinates, the rules the checks of
  // class Gato compare cells by.

  /** Transpose: new[y][x] = old[x][y]. */
  lemma TransposeCells(b: Board)
    ensures forall x: Coord, y: Coord :: At(Transpose(b), x, y) == At(b, y, x)
  {
    forall x: Coord, y: Coord ensures At(Transpose(b), x, y) == At(b, y, x) {
      if y == 0 {} else if y == 1 {} else {}
    }
  }

  /** Reflection over /: new[y][x] = old[2 - x][2 - y]. */
  lemma AntiTransposeCells(b: Board)
    ensures forall x: Coord, y: Coord :: At(AntiTranspose(b), x, y) == At(b, 2 - y, 2 - x)
  {
    forall x: Coord, y: Coord ensures At(AntiTranspose(b), x, y) == At(b, 2 - y, 2 - x) {
      if y == 0 {} else if y == 1 {} else {}
    }
  }

  /** Vertical mirror: new[y][x] = old[y][2 - x]. */
  lemma MirrorVerticalCells(b: Board)
    ensures forall x: Coord, y: Coord :: At(MirrorVertical(b), x, y) == At(b, 2 - x, y)
  {
    forall x: Coord, y: Coord ensures At(MirrorVertical(b), x, y) == At(b, 2 - x, y) {
      if y == 0 {} else if y == 1 {} else {}
    }
  }

  /** Horizontal mirror: new[y][x] = old[2 - y][x]. */
  lemma MirrorHorizontalCells(b: Board)
    ensures forall x: Coord, y: Coord :: At(MirrorHorizontal(b), x, y) == At(b, x, 2 - y)
  {
    forall x: Coord, y: Coord ensures At(MirrorHorizontal(b), x, y) == At(b, x, 2 - y) {
      if y == 0 {} else if y == 1 {} else {}
    }
  }

  /** Quarter turn: new[r][c] = old[2 - c][r], so the cell at (x, y) comes from (y, 2 - x). */
  lemma Rotate90Cells(b: Board)
    ensures forall x: Coord, y: Coord :: At(Rotate90(b), x, y) == At(b, y, 2 - x)
  {
    forall x: Coord, y: Coord ensures At(Rotate90(b), x, y) == At(b, y, 2 - x) {
      if y == 0 {} else if y == 1 {} else {}
    }
  }

  /** Half turn: the cell at (x, y) comes from (2 - x, 2 - y). */
  lemma {:induction false} Rotate180Cells(b: Board)
    ensures forall x: Coord, y: Coord :: At(Rotate180(b), x, y) == At(b, 2 - x, 2 - y)
  {
    Rotate90Cells(b);
    Rotate90Cells(Rotate90(b));
  }

  /** Three quarter turns: the cell at (x, y) comes from (2 - y, x). */
  lemma {:induction false} Rotate270Cells(b: Board)
    ensures forall x: Coord, y: Coord :: At(Rotate270(b), x, y) == At(b, 2 - y, x)
  {
    Rotate180Cells(b);
    Rotate90Cells(Rotate180(b));
  }

  /**
   * Symmetry equivalence of two boards: `a` equals `b` cell for cell, or
   * equals one of the seven non-trivial transforms of `b`, tried in the
   * source's order.
   */
  predicate Equivalent(a: Board, b: Board)
  {
    || a == b
    || a == Transpose(b)
    || a == AntiTranspose(b)
    || a == MirrorVertical(b)
    || a == MirrorHorizontal(b)
    || a == Rotate90(b)
    || a == Rotate180(b)
    || a == Rotate270(b)
  }

  // ---------------------------------------------------------------------
  // Group laws of the transforms.
  // ---------------------------------------------------------------------

  /** Four quarter turns give back the board. */
  lemma Rotate90FourTimes(b: Board)
    ensures Rotate90(Rotate90(Rotate90(Rotate90(b)))) == b
  {
  }

  /** The three- and one-quarter turns undo each other. */
  lemma Rotate270UndoesRotate90(b: Board)
    ensures Rotate270(Rotate90(b)) == b
    ensures Rotate90(Rotate270(b)) == b
  {
  }

  /** Each reflection, and the half turn, is its own inverse. */
  lemma Involutions(b: Board)
    ensures Transpose(Transpose(b)) == b
    ensures AntiTranspose(AntiTranspose(b)) == b
    ensures MirrorVertical(MirrorVertical(b)) == b
    ensures MirrorHorizontal(MirrorHorizontal(b)) == b
    ensures Rotate180(Rotate180(b)) == b
  {
  }

  /** The eight elements of the group. */
  datatype Sym =
    | Identity
    | Transposed
    | AntiTransposed
    | MirroredVertically
    | MirroredHorizontally
    | Rotated90
    | Rotated180
    | Rotated270

  function Apply(s: Sym, b: Board): Board
  {
    match s
    case Identity => b
    case Transposed => Transpose(b)
    case AntiTransposed => AntiTranspose(b)
    case MirroredVertically => MirrorVertical(b)
    case MirroredHorizontally => MirrorHorizontal(b)
    case Rotated90 => Rotate90(b)
    case Rotated180 => Rotate180(b)
    case Rotated270 => Rotate270(b)
  }

  /** The inverse element. */
  function Inverse(s: Sym): Sym
  {
    match s
    case Rotated90 => Rotated270
    case Rotated270 => Rotated90
    case _ => s
  }

  /** The product `Compose(s, t)`: applying t and then s. */
  function Compose(s: Sym, t: Sym): Sym
  {
    match s
    case Identity => t
    case Transposed => (
      match t
      case Identity => Transposed
      case Transposed => Identity
      case AntiTransposed => Rotated180
      case MirroredVertically => Rotated270
      case MirroredHorizontally => Rotated90
      case Rotated90 => MirroredHorizontally
      case Rotated180 => AntiTransposed
      case Rotated270 => MirroredVertically)
    case AntiTransposed => (
      match t
      case Identity => AntiTransposed
      case Transposed => Rotated180
      case AntiTransposed => Identity
      case MirroredVertically => Rotated90
      case MirroredHorizontally => Rotated270
      case Rotated90 => MirroredVertically
      case Rotated180 => Transposed
      case Rotated270 => MirroredHorizontally)
    case MirroredVertically => (
      match t
      case Identity => MirroredVertically
      case Transposed => Rotated90
      case AntiTransposed => Rotated270
      case MirroredVertically => Identity
      case MirroredHorizontally => Rotated180
      case Rotated90 => Transposed
      case Rotated180 => MirroredHorizontally
      case Rotated270 => AntiTransposed)
    case MirroredHorizontally => (
      match t
      case Identity => MirroredHorizontally
      case Transposed => Rotated270
      case AntiTransposed => Rotated90
      case MirroredVertically => Rotated180
      case MirroredHorizontally => Identity
      case Rotated90 => AntiTransposed
      case Rotated180 => MirroredVertically
      case Rotated270 => Transposed)
    case Rotated90 => (
      match t
      case Identity => Rotated90
      case Transposed => MirroredVertically
      case AntiTransposed => MirroredHorizontally
      case MirroredVertically => AntiTransposed
      case MirroredHorizontally => Transposed
      case Rotated90 => Rotated180
      case Rotated180 => Rotated270
      case Rotated270 => Identity)
    case Rotated180 => (
      match t
      case Identity => Rotated180
      case Transposed => AntiTransposed
      case AntiTransposed => Transposed
      case MirroredVertically => MirroredHorizontally
      case MirroredHorizontally => MirroredVertically
      case Rotated90 => Rotated270
      case Rotated180 => Identity
      case Rotated270 => Rotated90)
    case Rotated270 => (
      match t
      case Identity => Rotated270
      case Transposed => MirroredHorizontally
      case AntiTransposed => MirroredVertically
      case MirroredVertically => Transposed
      case MirroredHorizontally => AntiTransposed
      case Rotated90 => Identity
      case Rotated180 => Rotated90
      case Rotated270 => Rotated180)
  }

  /** Applying a symmetry and then its inverse gives back the board. */
  lemma InverseUndoes(s: Sym, b: Board)
    ensures Apply(Inverse(s), Apply(s, b)) == b
  {
    match s
    case Rotated90 => Rotate270UndoesRotate90(b);
    case Rotated270 => Rotate270UndoesRotate90(b);
    case _ => Involutions(b);
  }

  /** The eight transforms are closed under composition. */
  lemma ComposeApplies(s: Sym, t: Sym, b: Board)
    ensures Apply(s, Apply(t, b)) == Apply(Compose(s, t), b)
  {
    match s
    case Identity =>
    case Transposed => ComposeTranspose(t, b);
    case AntiTransposed => ComposeAntiTranspose(t, b);
    case MirroredVertically => ComposeMirrorVertical(t, b);
    case MirroredHorizontally => ComposeMirrorHorizontal(t, b);
    case Rotated90 => ComposeRotate90(t, b);
    case Rotated180 => ComposeRotate180(t, b);
    case Rotated270 => ComposeRotate270(t, b);
  }

  lemma ComposeTranspose(t: Sym, b: Board)
    ensures Transpose(Apply(t, b)) == Apply(Compose(Transposed, t), b)
  {
  }

  lemma ComposeAntiTranspose(t: Sym, b: Board)
    ensures AntiTranspose(Apply(t, b)) == Apply(Compose(AntiTransposed, t), b)
  {
  }

  lemma ComposeMirrorVertical(t: Sym, b: Board)
    ensures MirrorVertical(Apply(t, b)) == Apply(Compose(MirroredVertically, t), b)
  {
  }

  lemma ComposeMirrorHorizontal(t: Sym, b: Board)
    ensures MirrorHorizontal(Apply(t, b)) == Apply(Compose(MirroredHorizontally, t), b)
  {
  }

  lemma ComposeRotate90(t: Sym, b: Board)
    ensures Rotate90(Apply(t, b)) == Apply(Compose(Rotated90, t), b)
  {
  }

  lemma ComposeRotate180(t: Sym, b: Board)
    ensures Rotate180(Apply(t, b)) == Apply(Compose(Rotated180, t), b)
  {
  }

  lemma ComposeRotate270(t: Sym, b: Board)
    ensures Rotate270(Apply(t, b)) == Apply(Compose(Rotated270, t), b)
  {
  }

  // ---------------------------------------------------------------------
  // The equivalence relation.
  // ---------------------------------------------------------------------

  /** The source's chain of eight checks is "some symmetry maps b onto a". */
  lemma EquivalentIffSomeSym(a: Board, b: Board)
    ensures Equivalent(a, b) <==> exists s: Sym :: a == Apply(s, b)
  {
    if Equivalent(a, b) {
      var s :=
        if a == b then Identity
        else if a == Transpose(b) then Transposed
        else if a == AntiTranspose(b) then AntiTransposed
        else if a == MirrorVertical(b) then MirroredVertically
        else if a == MirrorHorizontal(b) then MirroredHorizontally
        else if a == Rotate90(b) then Rotated90
        else if a == Rotate180(b) then Rotated180
        else Rotated270;
      assert a == Apply(s, b);
    }
  }

  lemma EquivalentReflexive(a: Board)
    ensures Equivalent(a, a)
  {
  }

  lemma EquivalentSymmetric(a: Board, b: Board)
    requires Equivalent(a, b)
    ensures Equivalent(b, a)
  {
    EquivalentIffSomeSym(a, b);
    var s: Sym :| a == Apply(s, b);
    InverseUndoes(s, b);
    assert b == Apply(Inverse(s), a);
    EquivalentIffSomeSym(b, a);
  }

  lemma EquivalentTransitive(a: Board, b: Board, c: Board)
    requires Equivalent(a, b) && Equivalent(b, c)
    ensures Equivalent(a, c)
  {
    EquivalentIffSomeSym(a, b);
    EquivalentIffSomeSym(b, c);
    var s: Sym :| a == Apply(s, b);
    var t: Sym :| b == Apply(t, c);
    ComposeApplies(s, t, c);
    assert a == Apply(Compose(s, t), c);
    EquivalentIffSomeSym(a, c);
  }

  // ---------------------------------------------------------------------
  // What every symmetry keeps: the centre, and the corners and edges as
  // groups.
  // ---------------------------------------------------------------------

  /** Sum of the four corner cells. */
  function CornerSum(b: Board): int
  {
    b[0] + b[2] + b[6] + b[8]
  }

  /** Equivalent boards agree on the centre cell and on the corner sum. */
  lemma EquivalentKeepsCentreAndCorners(a: Board, b: Board)
    ensures Equivalent(a, b) ==> a[4] == b[4] && CornerSum(a) == CornerSum(b)
  {
  }
}
