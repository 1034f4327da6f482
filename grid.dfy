/** Geometry of the square minesweeper board: positions, bounds and the
    Chebyshev neighbourhood that both neighbour counting and flood fill use. */
module Grid {

  /** Side length of the board (BOARD_SIZE). */
  const BoardSize: int := 9

  /** A (row, col) position; it may lie off the board. */
  type Pos = (int, int)

  predicate InBounds(p: Pos) {
    0 <= p.0 < BoardSize && 0 <= p.1 < BoardSize
  }

  /** Every position of the board. */
  ghost function AllPos(): set<Pos> {
    set r, c | 0 <= r < BoardSize && 0 <= c < BoardSize :: (r, c)
  }

  /** q is one of the up to eight cells horizontally, vertically or
      diagonally next to p. */
  predicate Adjacent(p: Pos, q: Pos) {
    p != q && -1 <= q.0 - p.0 <= 1 && -1 <= q.1 - p.1 <= 1
  }

  /** The in-bounds Chebyshev neighbours of p (edges and corners clipped). */
  ghost function Neighbours(p: Pos): set<Pos> {
    set q | q in AllPos() && Adjacent(p, q)
  }

  /** The positions of a sequence, as a set. */
  ghost function Elems(s: seq<Pos>): set<Pos> {
    set p | p in s
  }

  lemma InBoundsInAllPos(p: Pos)
    ensures p in AllPos() <==> InBounds(p)
  {
  }

  lemma SubsetCard(a: set<Pos>, b: set<Pos>)
    requires a <= b
    ensures |a| <= |b|
  {
    assert b == a + (b - a);
  }

  lemma ElemsAppend(s: seq<Pos>, t: seq<Pos>)
    ensures Elems(s + t) == Elems(s) + Elems(t)
  {
  }

  /** The cells (r, 0) .. (r, n - 1). */
  ghost function RowPrefix(r: int, n: nat): set<Pos> {
    set c | 0 <= c < n :: (r, c)
  }

  lemma {:induction false} RowPrefixCard(r: int, n: nat)
    ensures |RowPrefix(r, n)| == n
  {
    if n > 0 {
      RowPrefixCard(r, n - 1);
      assert RowPrefix(r, n) == RowPrefix(r, n - 1) + {(r, n - 1)};
    }
  }

  /** The cells of the first n rows of the board. */
  ghost function FirstRows(n: nat): set<Pos> {
    set r, c | 0 <= r < n && 0 <= c < BoardSize :: (r, c)
  }

  lemma {:induction false} FirstRowsCard(n: nat)
    ensures |FirstRows(n)| == n * BoardSize
  {
    if n > 0 {
      FirstRowsCard(n - 1);
      RowPrefixCard(n - 1, BoardSize);
      assert FirstRows(n) == FirstRows(n - 1) + RowPrefix(n - 1, BoardSize);
      assert FirstRows(n - 1) !! RowPrefix(n - 1, BoardSize);
    }
  }

  /** The board has BOARD_SIZE * BOARD_SIZE = 81 cells. */
  lemma AllPosCard()
    ensures |AllPos()| == BoardSize * BoardSize
  {
    FirstRowsCard(BoardSize);
    assert AllPos() == FirstRows(BoardSize);
  }

  /** A cell has at most eight neighbours. */
  lemma NeighboursAtMostEight(p: Pos)
    ensures |Neighbours(p)| <= 8
  {
    var (r, c) := p;
    var ring := {(r - 1, c - 1), (r - 1, c), (r - 1, c + 1), (r, c - 1),
                 (r, c + 1), (r + 1, c - 1), (r + 1, c), (r + 1, c + 1)};
    assert Neighbours(p) <= ring;
    SubsetCard(Neighbours(p), ring);
  }

  /** Hence at most eight of its neighbours are mines, whatever the mines are. */
  lemma AdjacentMinesAtMostEight(p: Pos, mines: set<Pos>)
    ensures |Neighbours(p) * mines| <= 8
  {
    NeighboursAtMostEight(p);
    SubsetCard(Neighbours(p) * mines, Neighbours(p));
  }
}
