/**
 * The successor boards of one generation step, as values: the candidate
 * moves in row-major scan order, and the deduplication that keeps a
 * candidate only when no child kept before it is symmetry-equivalent to it.
 */
module Successors {
  import opened Boards
  import opened Symmetry

  /** A child position: the cell that was played and the board after the move. */
  datatype Child = Child(x: Coord, y: Coord, board: Board)

  /**
   * The candidates among the first n cells in scan order: one per free cell,
   * that cell marked with m.
   */
  function Candidates(b: Board, m: int, n: nat): seq<Child>
    requires n <= 9
  {
    if n == 0 then []
    else
      var i := n - 1;
      Candidates(b, m, i) + (if b[i] == EMPTY then [Child(i % 3, i / 3, b[i := m])] else [])
  }

  /** The scan's step at cell (x, y), in coordinates. */
  lemma CandidatesAt(b: Board, m: int, x: Coord, y: Coord)
    ensures Candidates(b, m, Index(x, y) + 1) ==
      Candidates(b, m, Index(x, y)) + (if At(b, x, y) == EMPTY then [Child(x, y, b[Index(x, y) := m])] else [])
  {
    var i := Index(x, y);
    assert i % 3 == x && i / 3 == y;
  }

  /** Board c is b with one free cell marked m. */
  predicate IsMove(b: Board, m: int, c: Board)
  {
    exists i :: 0 <= i < 9 && b[i] == EMPTY && c == b[i := m]
  }

  /** Marking a free cell is a move, and occupies one more cell. */
  lemma MarkingIsMove(b: Board, m: int, i: nat)
    requires i < 9 && b[i] == EMPTY && m != EMPTY
    ensures IsMove(b, m, b[i := m])
    ensures Occupied(b[i := m]) == Occupied(b) + 1
  {
    FilledAfterMark(b, i, m, 9);
  }

  /** Some child in d is equivalent to board c (`LinkedList.contains` with `equals`). */
  predicate HasEquivalent(d: seq<Child>, c: Board)
  {
    exists k :: 0 <= k < |d| && Equivalent(c, d[k].board)
  }

  /** The children kept from s, in order: each is appended unless already covered. */
  function Dedup(s: seq<Child>): seq<Child>
  {
    if s == [] then []
    else
      var d := Dedup(s[..|s| - 1]);
      var c := s[|s| - 1];
      if HasEquivalent(d, c.board) then d else d + [c]
  }

  // ---------------------------------------------------------------------
  // Candidates.
  // ---------------------------------------------------------------------

  /**
   * Each candidate is a free cell below n, the board is the parent's with
   * exactly that cell marked, and cells come in strictly increasing scan order.
   */
  lemma {:induction false} CandidatesAreMoves(b: Board, m: int, n: nat)
    requires n <= 9
    ensures forall k :: 0 <= k < |Candidates(b, m, n)| ==>
      var c := Candidates(b, m, n)[k];
      Index(c.x, c.y) < n && b[Index(c.x, c.y)] == EMPTY && c.board == b[Index(c.x, c.y) := m]
    ensures forall j, k :: 0 <= j < k < |Candidates(b, m, n)| ==>
      Index(Candidates(b, m, n)[j].x, Candidates(b, m, n)[j].y) < Index(Candidates(b, m, n)[k].x, Candidates(b, m, n)[k].y)
  {
    if n > 0 {
      CandidatesAreMoves(b, m, n - 1);
    }
  }

  /** Every free cell below n has a candidate. */
  lemma {:induction false} CandidatesCoverFreeCells(b: Board, m: int, n: nat, i: nat)
    requires i < n <= 9 && b[i] == EMPTY
    ensures exists k :: 0 <= k < |Candidates(b, m, n)| && Index(Candidates(b, m, n)[k].x, Candidates(b, m, n)[k].y) == i
  {
    var p := Candidates(b, m, n - 1);
    if i == n - 1 {
      assert Candidates(b, m, n)[|p|] == Child(i % 3, i / 3, b[i := m]);
    } else {
      CandidatesCoverFreeCells(b, m, n - 1, i);
      var k :| 0 <= k < |p| && Index(p[k].x, p[k].y) == i;
      assert Candidates(b, m, n)[k] == p[k];
    }
  }

  /** There is one candidate per free cell. */
  lemma {:induction false} CandidatesCount(b: Board, m: int, n: nat)
    requires n <= 9
    ensures |Candidates(b, m, n)| == n - Filled(b, n)
  {
    if n > 0 {
      CandidatesCount(b, m, n - 1);
    }
  }

  // ---------------------------------------------------------------------
  // Deduplication.
  // ---------------------------------------------------------------------

  /** Appending one candidate: it is kept exactly when nothing kept so far covers it. */
  lemma DedupSnoc(s: seq<Child>, c: Child)
    ensures Dedup(s + [c]) == if HasEquivalent(Dedup(s), c.board) then Dedup(s) else Dedup(s) + [c]
  {
    assert (s + [c])[..|s|] == s;
  }

  /** Every kept child is one of the candidates, and there are no more kept children than candidates. */
  lemma {:induction false} DedupKeepsCandidates(s: seq<Child>)
    ensures |Dedup(s)| <= |s|
    ensures forall k :: 0 <= k < |Dedup(s)| ==> Dedup(s)[k] in s
  {
    if s != [] {
      var p := s[..|s| - 1];
      DedupKeepsCandidates(p);
      assert s == p + [s[|s| - 1]];
      forall k | 0 <= k < |Dedup(s)| ensures Dedup(s)[k] in s {
        if k < |Dedup(p)| {
          assert Dedup(s)[k] == Dedup(p)[k];
        }
      }
    }
  }

  /** Kept children keep the scan order of the candidates. */
  lemma {:induction false} DedupKeepsOrder(s: seq<Child>)
    requires forall j, k :: 0 <= j < k < |s| ==> Index(s[j].x, s[j].y) < Index(s[k].x, s[k].y)
    ensures forall j, k :: 0 <= j < k < |Dedup(s)| ==> Index(Dedup(s)[j].x, Dedup(s)[j].y) < Index(Dedup(s)[k].x, Dedup(s)[k].y)
  {
    if s != [] {
      var p := s[..|s| - 1];
      var c := s[|s| - 1];
      DedupKeepsOrder(p);
      DedupPrefixBefore(p, c);
    }
  }

  /** Each child kept from p comes before c in scan order when every candidate of p does. */
  lemma {:induction false} DedupPrefixBefore(p: seq<Child>, c: Child)
    requires forall j :: 0 <= j < |p| ==> Index(p[j].x, p[j].y) < Index(c.x, c.y)
    ensures forall j :: 0 <= j < |Dedup(p)| ==> Index(Dedup(p)[j].x, Dedup(p)[j].y) < Index(c.x, c.y)
  {
    DedupKeepsCandidates(p);
    forall j | 0 <= j < |Dedup(p)| ensures Index(Dedup(p)[j].x, Dedup(p)[j].y) < Index(c.x, c.y) {
      var k :| 0 <= k < |p| && p[k] == Dedup(p)[j];
    }
  }

  /** No two kept children are symmetry-equivalent, in either order. */
  lemma {:induction false} DedupPairwiseInequivalent(s: seq<Child>)
    ensures forall j, k :: 0 <= j < |Dedup(s)| && 0 <= k < |Dedup(s)| && j != k ==>
      !Equivalent(Dedup(s)[j].board, Dedup(s)[k].board)
  {
    if s != [] {
      var p := s[..|s| - 1];
      var c := s[|s| - 1];
      DedupPairwiseInequivalent(p);
      var d := Dedup(p);
      if !HasEquivalent(d, c.board) {
        var e := d + [c];
        forall j, k | 0 <= j < |e| && 0 <= k < |e| && j != k
          ensures !Equivalent(e[j].board, e[k].board)
        {
          if j == |d| {
            assert !Equivalent(c.board, d[k].board);
          } else if k == |d| {
            if Equivalent(d[j].board, c.board) {
              EquivalentSymmetric(d[j].board, c.board);
              assert false;
            }
          } else {
            assert e[j] == d[j] && e[k] == d[k];
          }
        }
      }
    }
  }

  /** Every candidate is equivalent to some kept child. */
  lemma {:induction false} DedupCovers(s: seq<Child>)
    ensures forall i :: 0 <= i < |s| ==> HasEquivalent(Dedup(s), s[i].board)
  {
    if s != [] {
      var p := s[..|s| - 1];
      var c := s[|s| - 1];
      DedupCovers(p);
      var d := Dedup(p);
      forall i | 0 <= i < |s| ensures HasEquivalent(Dedup(s), s[i].board) {
        if i == |p| {
          if !HasEquivalent(d, c.board) {
            EquivalentReflexive(c.board);
            assert Dedup(s)[|d|] == c;
          }
        } else {
          assert s[i] == p[i];
          assert HasEquivalent(d, p[i].board);
          var k :| 0 <= k < |d| && Equivalent(p[i].board, d[k].board);
          assert Dedup(s)[k] == d[k];
        }
      }
    }
  }

  /** At least one child is kept from a non-empty list of candidates. */
  lemma DedupNonEmpty(s: seq<Child>)
    requires s != []
    ensures |Dedup(s)| >= 1
  {
    DedupCovers(s);
    assert HasEquivalent(Dedup(s), s[0].board);
  }

  /**
   * An independent description of the kept children: the candidates that are
   * equivalent to no EARLIER candidate, whether that one was kept or not.
   */
  function FirstOfEachClass(s: seq<Child>): seq<Child>
  {
    if s == [] then []
    else
      var p := s[..|s| - 1];
      var c := s[|s| - 1];
      if exists j :: 0 <= j < |p| && Equivalent(c.board, p[j].board) then FirstOfEachClass(p)
      else FirstOfEachClass(p) + [c]
  }

  /** Deduplication keeps exactly the first candidate of each symmetry class. */
  lemma {:induction false} DedupIsFirstOfEachClass(s: seq<Child>)
    ensures Dedup(s) == FirstOfEachClass(s)
  {
    if s != [] {
      var p := s[..|s| - 1];
      var c := s[|s| - 1];
      DedupIsFirstOfEachClass(p);
      CoveredIffEarlier(p, c.board);
    }
  }

  /**
   * A board is covered by the children kept from p exactly when it is
   * equivalent to some candidate of p: this is where transitivity is needed.
   */
  lemma CoveredIffEarlier(p: seq<Child>, b: Board)
    ensures HasEquivalent(Dedup(p), b) <==> exists j :: 0 <= j < |p| && Equivalent(b, p[j].board)
  {
    if HasEquivalent(Dedup(p), b) {
      CoveredGivesEarlier(p, b);
    }
    if exists j :: 0 <= j < |p| && Equivalent(b, p[j].board) {
      var j :| 0 <= j < |p| && Equivalent(b, p[j].board);
      EarlierGivesCovered(p, b, j);
    }
  }

  lemma CoveredGivesEarlier(p: seq<Child>, b: Board)
    requires HasEquivalent(Dedup(p), b)
    ensures exists j :: 0 <= j < |p| && Equivalent(b, p[j].board)
  {
    var d := Dedup(p);
    DedupKeepsCandidates(p);
    var k :| 0 <= k < |d| && Equivalent(b, d[k].board);
    assert d[k] in p;
    var j :| 0 <= j < |p| && p[j] == d[k];
    assert p[j].board == d[k].board;
    assert Equivalent(b, p[j].board);
  }

  lemma EarlierGivesCovered(p: seq<Child>, b: Board, j: nat)
    requires j < |p| && Equivalent(b, p[j].board)
    ensures HasEquivalent(Dedup(p), b)
  {
    var d := Dedup(p);
    DedupCovers(p);
    assert HasEquivalent(d, p[j].board);
    var k :| 0 <= k < |d| && Equivalent(p[j].board, d[k].board);
    EquivalentTransitive(b, p[j].board, d[k].board);
    assert Equivalent(b, d[k].board);
  }

  // ---------------------------------------------------------------------
  // The kept children of a whole scan.
  // ---------------------------------------------------------------------

  /** Each kept child is the move at a free cell, and they come in scan order. */
  lemma KeptAreMoves(b: Board, m: int, d: seq<Child>)
    requires d == Dedup(Candidates(b, m, 9))
    ensures forall k :: 0 <= k < |d| ==>
      b[Index(d[k].x, d[k].y)] == EMPTY && d[k].board == b[Index(d[k].x, d[k].y) := m]
    ensures forall j, k :: 0 <= j < k < |d| ==> Index(d[j].x, d[j].y) < Index(d[k].x, d[k].y)
  {
    var s := Candidates(b, m, 9);
    CandidatesAreMoves(b, m, 9);
    DedupKeepsCandidates(s);
    DedupKeepsOrder(s);
    forall k | 0 <= k < |d|
      ensures b[Index(d[k].x, d[k].y)] == EMPTY && d[k].board == b[Index(d[k].x, d[k].y) := m]
    {
      var j :| 0 <= j < |s| && s[j] == d[k];
    }
  }

  /** The move at every free cell is equivalent to some kept child. */
  lemma KeptCoverFreeCells(b: Board, m: int, d: seq<Child>)
    requires d == Dedup(Candidates(b, m, 9))
    ensures forall i :: 0 <= i < 9 && b[i] == EMPTY ==> HasEquivalent(d, b[i := m])
  {
    var s := Candidates(b, m, 9);
    CandidatesAreMoves(b, m, 9);
    DedupCovers(s);
    forall i | 0 <= i < 9 && b[i] == EMPTY ensures HasEquivalent(d, b[i := m]) {
      CandidatesCoverFreeCells(b, m, 9, i);
      var k :| 0 <= k < |s| && Index(s[k].x, s[k].y) == i;
      assert s[k].board == b[i := m];
      assert HasEquivalent(d, s[k].board);
    }
  }

  /**
   * There are at most as many kept children as free cells, and at least one
   * when some cell is free.
   */
  lemma KeptCount(b: Board, m: int, d: seq<Child>)
    requires d == Dedup(Candidates(b, m, 9))
    ensures |d| <= 9 - Occupied(b)
    ensures Occupied(b) < 9 ==> 1 <= |d|
  {
    var s := Candidates(b, m, 9);
    CandidatesCount(b, m, 9);
    DedupKeepsCandidates(s);
    if Occupied(b) < 9 {
      DedupNonEmpty(s);
    }
  }

  // ---------------------------------------------------------------------
  // The empty board.
  // ---------------------------------------------------------------------

  /** The first player's move at cell i of the empty board. */
  function FirstMove(i: nat): Child
    requires i < 9
  {
    Child(i % 3, i / 3, EmptyBoard[i := MARCA1])
  }

  /** Corner, edge and centre first moves are pairwise inequivalent. */
  lemma FirstMoveClassesDistinct()
    ensures !Equivalent(FirstMove(1).board, FirstMove(0).board)
    ensures !Equivalent(FirstMove(4).board, FirstMove(0).board)
    ensures !Equivalent(FirstMove(4).board, FirstMove(1).board)
  {
    EquivalentKeepsCentreAndCorners(FirstMove(1).board, FirstMove(0).board);
    EquivalentKeepsCentreAndCorners(FirstMove(4).board, FirstMove(0).board);
    EquivalentKeepsCentreAndCorners(FirstMove(4).board, FirstMove(1).board);
  }

  /** Every other first move is a symmetric image of the corner or the edge move. */
  lemma FirstMovesCollapse()
    ensures Equivalent(FirstMove(2).board, FirstMove(0).board)
    ensures Equivalent(FirstMove(3).board, FirstMove(1).board)
    ensures Equivalent(FirstMove(5).board, FirstMove(1).board)
    ensures Equivalent(FirstMove(6).board, FirstMove(0).board)
    ensures Equivalent(FirstMove(7).board, FirstMove(1).board)
    ensures Equivalent(FirstMove(8).board, FirstMove(0).board)
  {
    assert FirstMove(2).board == MirrorVertical(FirstMove(0).board);
    assert FirstMove(3).board == Transpose(FirstMove(1).board);
    assert FirstMove(5).board == Rotate90(FirstMove(1).board);
    assert FirstMove(6).board == MirrorHorizontal(FirstMove(0).board);
    assert FirstMove(7).board == MirrorHorizontal(FirstMove(1).board);
    assert FirstMove(8).board == Rotate180(FirstMove(0).board);
  }

  /** Deduplicating the first n first moves. */
  function ExpectedFirstChildren(n: nat): seq<Child>
    requires 1 <= n <= 9
  {
    if n == 1 then [FirstMove(0)]
    else if n <= 4 then [FirstMove(0), FirstMove(1)]
    else [FirstMove(0), FirstMove(1), FirstMove(4)]
  }

  /** Scanning the empty board, the moves at cells 1 and 4 open a new symmetry class... */
  lemma FirstMoveIsNew(i: nat)
    requires i == 1 || i == 4
    ensures !HasEquivalent(ExpectedFirstChildren(i), FirstMove(i).board)
  {
    var d := ExpectedFirstChildren(i);
    assert d == [FirstMove(0), FirstMove(1)] || d == [FirstMove(0)];
    FirstMoveClassesDistinct();
  }

  /** ... and every other move after the first is equivalent to one kept before. */
  lemma FirstMoveIsSeen(i: nat)
    requires 1 <= i < 9 && i != 1 && i != 4
    ensures HasEquivalent(ExpectedFirstChildren(i), FirstMove(i).board)
  {
    var d := ExpectedFirstChildren(i);
    var k := if i in {2, 6, 8} then 0 else 1;
    assert d[k] == FirstMove(k);
    FirstMovesCollapse();
    assert Equivalent(FirstMove(i).board, d[k].board);
  }

  /** Every cell of the empty board is free, so each step of the scan adds its first move. */
  lemma EmptyBoardStep(n: nat)
    requires 1 <= n <= 9
    ensures Candidates(EmptyBoard, MARCA1, n) == Candidates(EmptyBoard, MARCA1, n - 1) + [FirstMove(n - 1)]
  {
    assert EmptyBoard[n - 1] == EMPTY;
  }

  lemma {:induction false} EmptyBoardDedupPrefix(n: nat)
    requires 1 <= n <= 9
    ensures Dedup(Candidates(EmptyBoard, MARCA1, n)) == ExpectedFirstChildren(n)
  {
    if n == 1 {
      PrefixStarts();
    } else if n == 2 || n == 5 {
      EmptyBoardDedupPrefix(n - 1);
      PrefixGrows(n);
    } else {
      EmptyBoardDedupPrefix(n - 1);
      PrefixStays(n);
    }
  }

  /** The corner move at cell 0 is always kept. */
  lemma PrefixStarts()
    ensures Dedup(Candidates(EmptyBoard, MARCA1, 1)) == ExpectedFirstChildren(1)
  {
    EmptyBoardStep(1);
    DedupSnoc([], FirstMove(0));
  }

  /** Scanning cell 1 or 4 of the empty board adds its move to the kept children. */
  lemma PrefixGrows(n: nat)
    requires n == 2 || n == 5
    requires Dedup(Candidates(EmptyBoard, MARCA1, n - 1)) == ExpectedFirstChildren(n - 1)
    ensures Dedup(Candidates(EmptyBoard, MARCA1, n)) == ExpectedFirstChildren(n)
  {
    var p := Candidates(EmptyBoard, MARCA1, n - 1);
    EmptyBoardStep(n);
    DedupSnoc(p, FirstMove(n - 1));
    FirstMoveIsNew(n - 1);
  }

  /** Scanning any other cell after the first leaves the kept children as they were. */
  lemma PrefixStays(n: nat)
    requires 3 <= n <= 9 && n != 5
    requires Dedup(Candidates(EmptyBoard, MARCA1, n - 1)) == ExpectedFirstChildren(n - 1)
    ensures Dedup(Candidates(EmptyBoard, MARCA1, n)) == ExpectedFirstChildren(n)
  {
    var p := Candidates(EmptyBoard, MARCA1, n - 1);
    EmptyBoardStep(n);
    DedupSnoc(p, FirstMove(n - 1));
    FirstMoveIsSeen(n - 1);
  }

  /**
   * From the empty board the first player's mark yields exactly three
   * children: a corner (0, 0), an edge (1, 0) and the centre (1, 1).
   */
  lemma EmptyBoardHasThreeChildren()
    ensures Dedup(Candidates(EmptyBoard, MARCA1, 9)) ==
      [Child(0, 0, EmptyBoard[0 := MARCA1]),
       Child(1, 0, EmptyBoard[1 := MARCA1]),
       Child(1, 1, EmptyBoard[4 := MARCA1])]
  {
    EmptyBoardDedupPrefix(9);
  }
}
