/** The minesweeper board: cells, the value view of a board that the proofs
    work on, the layout the generator produces, board generation (mine
    placement and neighbour counting), the win predicate and what a cell
    shows. */
module Board {
  import opened Grid
  import opened Flood

  /** Number of mines on a board (MINES_COUNT). */
  const MinesCount: int := 10

  datatype Cell = Cell(isMine: bool, isRevealed: bool, isFlagged: bool, neighborMines: int)

  /** A cell of the empty grid before any mine is placed. */
  const EmptyCell: Cell := Cell(false, false, false, 0)

  predicate SquareBoard(b: array2<Cell>) {
    b.Length0 == BoardSize && b.Length1 == BoardSize
  }

  /** v holds the cells of b by position: the value the proofs reason
      about stands for the array the game mutates. */
  ghost predicate Mirrors(b: array2<Cell>, v: map<Pos, Cell>)
    reads b
  {
    SquareBoard(b) && v.Keys == AllPos() &&
    forall i, j :: 0 <= i < BoardSize && 0 <= j < BoardSize ==> b[i, j] == v[(i, j)]
  }

  ghost function Revealed(v: map<Pos, Cell>): set<Pos> {
    set p | p in v && v[p].isRevealed
  }

  ghost function Flagged(v: map<Pos, Cell>): set<Pos> {
    set p | p in v && v[p].isFlagged
  }

  ghost function MinesOf(v: map<Pos, Cell>): set<Pos> {
    set p | p in v && v[p].isMine
  }

  /** Cells whose neighborMines is 0 (mines among them). */
  ghost function ZeroCells(v: map<Pos, Cell>): set<Pos> {
    set p | p in v && v[p].neighborMines == 0
  }

  /** Cells not yet revealed; flood fill shrinks this set. */
  ghost function Hidden(v: map<Pos, Cell>): set<Pos> {
    v.Keys - Revealed(v)
  }

  /** v with every cell of s revealed and nothing else changed. */
  ghost function RevealAll(v: map<Pos, Cell>, s: set<Pos>): map<Pos, Cell> {
    map p | p in v :: if p in s then v[p].(isRevealed := true) else v[p]
  }

  /** The flag of the cell at p inverted, nothing else changed. */
  ghost function ToggleAt(v: map<Pos, Cell>, p: Pos): map<Pos, Cell>
    requires p in v
  {
    v[p := v[p].(isFlagged := !v[p].isFlagged)]
  }

  /** Revealing in two steps is revealing the union. */
  lemma RevealAllTwice(v: map<Pos, Cell>, s: set<Pos>, t: set<Pos>)
    ensures RevealAll(RevealAll(v, s), t) == RevealAll(v, s + t)
  {
  }

  /** Revealing changes only isRevealed, and only from false to true: the
      revealed set grows by the cells of s, nothing else moves. */
  lemma RevealAllEffect(v: map<Pos, Cell>, s: set<Pos>)
    ensures RevealAll(v, s).Keys == v.Keys
    ensures Revealed(RevealAll(v, s)) == Revealed(v) + (s * v.Keys)
    ensures Flagged(RevealAll(v, s)) == Flagged(v)
    ensures MinesOf(RevealAll(v, s)) == MinesOf(v)
    ensures ZeroCells(RevealAll(v, s)) == ZeroCells(v)
    ensures forall p :: p in v ==> RevealAll(v, s)[p].neighborMines == v[p].neighborMines
  {
  }

  /** Revealing a hidden cell leaves fewer hidden cells: the measure that
      makes flood fill terminate. */
  lemma RevealShrinksHidden(v: map<Pos, Cell>, s: set<Pos>, p: Pos)
    requires v.Keys == AllPos()
    requires p in s && p in Hidden(v)
    ensures |Hidden(RevealAll(v, s))| < |Hidden(v)|
  {
    RevealAllEffect(v, s);
    assert Hidden(RevealAll(v, s)) <= Hidden(v) - {p};
    SubsetCard(Hidden(RevealAll(v, s)), Hidden(v) - {p});
  }

  /** Toggling a flag twice restores the board. */
  lemma ToggleTwice(v: map<Pos, Cell>, p: Pos)
    requires p in v
    ensures p in ToggleAt(v, p) && ToggleAt(ToggleAt(v, p), p) == v
  {
    assert ToggleAt(v, p)[p].(isFlagged := !ToggleAt(v, p)[p].isFlagged) == v[p];
  }

  /** Toggling the flag of p adds p to the flagged cells or removes it, and
      changes nothing else. */
  lemma ToggleEffect(v: map<Pos, Cell>, p: Pos)
    requires p in v
    ensures Revealed(ToggleAt(v, p)) == Revealed(v)
    ensures MinesOf(ToggleAt(v, p)) == MinesOf(v)
    ensures ZeroCells(ToggleAt(v, p)) == ZeroCells(v)
    ensures Flagged(ToggleAt(v, p)) == if v[p].isFlagged then Flagged(v) - {p} else Flagged(v) + {p}
    ensures |Flagged(ToggleAt(v, p))| == if v[p].isFlagged then |Flagged(v)| - 1 else |Flagged(v)| + 1
  {
  }

  /** MINES_COUNT distinct positions on the board. */
  ghost predicate MinesPlaced(mines: set<Pos>) {
    mines <= AllPos() && |mines| == MinesCount
  }

  /** The number of mines among the Chebyshev neighbours of p. */
  ghost function AdjacentMines(p: Pos, mines: set<Pos>): nat {
    |Neighbours(p) * mines|
  }

  /** The neighbour count the generator writes into each cell: 0 on a mine
      (its count is never written), the adjacent-mine count elsewhere. */
  ghost function CountAt(p: Pos, mines: set<Pos>): int {
    if p in mines then 0 else AdjacentMines(p, mines)
  }

  /** The cell the generator leaves at p: hidden, unflagged, counted. */
  ghost function InitialCell(p: Pos, mines: set<Pos>): Cell {
    Cell(p in mines, false, false, CountAt(p, mines))
  }

  /** The board the generator builds around mines. */
  ghost function InitialBoard(mines: set<Pos>): map<Pos, Cell> {
    map p | p in AllPos() :: InitialCell(p, mines)
  }

  /** The generated part of a board: every cell with its play marks
      (revealed, flagged) cleared. */
  ghost function LayoutOf(v: map<Pos, Cell>): map<Pos, Cell> {
    map p | p in v :: v[p].(isRevealed := false, isFlagged := false)
  }

  /** v is the board generated around mines, with some cells revealed or
      flagged since: nothing after generation changes isMine or
      neighborMines. */
  ghost predicate LayoutMatches(v: map<Pos, Cell>, mines: set<Pos>) {
    LayoutOf(v) == InitialBoard(mines)
  }

  /** On a matching board the mines are exactly mines and every cell holds
      the count the generator writes. */
  lemma LayoutAt(v: map<Pos, Cell>, mines: set<Pos>)
    requires LayoutMatches(v, mines)
    ensures v.Keys == AllPos()
    ensures forall p :: p in v ==> v[p].isMine == (p in mines) && v[p].neighborMines == CountAt(p, mines)
  {
    assert v.Keys == LayoutOf(v).Keys;
    forall p | p in v ensures v[p].isMine == (p in mines) && v[p].neighborMines == CountAt(p, mines) {
      assert LayoutOf(v)[p] == InitialBoard(mines)[p];
    }
  }

  /** The same, for one cell of the board. */
  lemma LayoutAtCell(v: map<Pos, Cell>, mines: set<Pos>, p: Pos)
    requires LayoutMatches(v, mines) && InBounds(p)
    ensures p in v && v[p].isMine == (p in mines) && v[p].neighborMines == CountAt(p, mines)
  {
    InBoundsInAllPos(p);
    assert p in LayoutOf(v) && LayoutOf(v)[p] == InitialBoard(mines)[p];
  }

  lemma RevealKeepsLayout(v: map<Pos, Cell>, s: set<Pos>)
    ensures LayoutOf(RevealAll(v, s)) == LayoutOf(v)
  {
  }

  lemma ToggleKeepsLayout(v: map<Pos, Cell>, p: Pos)
    requires p in v
    ensures LayoutOf(ToggleAt(v, p)) == LayoutOf(v)
  {
  }

  /** A generated board: exactly MINES_COUNT cells are mines, no cell is
      revealed or flagged, and it matches the layout of its mines. */
  lemma InitialBoardFacts(mines: set<Pos>)
    requires MinesPlaced(mines)
    ensures LayoutMatches(InitialBoard(mines), mines)
    ensures MinesOf(InitialBoard(mines)) == mines && |MinesOf(InitialBoard(mines))| == MinesCount
    ensures Revealed(InitialBoard(mines)) == {} && Flagged(InitialBoard(mines)) == {}
  {
    var v := InitialBoard(mines);
    assert LayoutOf(v) == v;
    assert MinesOf(v) == mines by {
      forall p | p in mines ensures p in MinesOf(v) { assert p in AllPos(); }
    }
  }

  /** On a matching board every neighbour count lies in [0, 8]; that of a
      safe cell is its number of adjacent mines, that of a mine is 0. */
  lemma LayoutCountsInRange(v: map<Pos, Cell>, mines: set<Pos>, p: Pos)
    requires LayoutMatches(v, mines) && p in v
    ensures 0 <= v[p].neighborMines <= 8
    ensures p !in mines ==> v[p].neighborMines == AdjacentMines(p, mines)
    ensures p in mines ==> v[p].neighborMines == 0
  {
    LayoutAt(v, mines);
    AdjacentMinesAtMostEight(p, mines);
  }

  /** A safe cell with count 0 has no mine beside it, so flood fill spreading
      from it cannot reach a mine. */
  lemma ZeroCellsAreSafe(v: map<Pos, Cell>, mines: set<Pos>)
    requires LayoutMatches(v, mines)
    ensures ZeroCellsBorderNoMines(ZeroCells(v), mines)
  {
    LayoutAt(v, mines);
    forall p, q | p in ZeroCells(v) && p !in mines && q in Neighbours(p)
      ensures q !in mines
    {
      assert Neighbours(p) * mines == {};
      assert q !in Neighbours(p) * mines;
    }
  }

  /** The mines are the first MINES_COUNT distinct candidates: those of the
      shortest prefix of picks holding that many distinct positions. */
  ghost predicate FirstDistinctPicks(picks: seq<Pos>, mines: set<Pos>) {
    exists k :: 0 < k <= |picks| && mines == Elems(picks[..k]) && |Elems(picks[..k - 1])| < MinesCount
  }

  // ---------------------------------------------------------------------
  // Board generation
  // ---------------------------------------------------------------------

  /** Builds a fresh board: an empty grid, mines placed from the candidate
      positions (the random row/column draws), then neighbour counts. */
  method InitializeBoard(picks: seq<Pos>) returns (b: array2<Cell>, ghost mines: set<Pos>)
    requires forall k :: 0 <= k < |picks| ==> InBounds(picks[k])
    requires |Elems(picks)| >= MinesCount
    ensures SquareBoard(b) && fresh(b)
    ensures MinesPlaced(mines) && FirstDistinctPicks(picks, mines)
    ensures Mirrors(b, InitialBoard(mines))
    ensures |MinesOf(InitialBoard(mines))| == MinesCount
  {
    b := new Cell[BoardSize, BoardSize]((_, _) => EmptyCell);
    mines := PlaceMines(b, picks);
    FillNeighborCounts(b, mines);
    InitialBoardFacts(mines);
  }

  /** Rejection sampling: take candidates in order, mark one a mine when it
      is not one already, until MINES_COUNT mines are placed. */
  method PlaceMines(b: array2<Cell>, picks: seq<Pos>) returns (ghost mines: set<Pos>)
    requires SquareBoard(b)
    requires forall i, j {:trigger b[i, j]} :: 0 <= i < BoardSize && 0 <= j < BoardSize ==> b[i, j] == EmptyCell
    requires forall k :: 0 <= k < |picks| ==> InBounds(picks[k])
    requires |Elems(picks)| >= MinesCount
    modifies b
    ensures MinesPlaced(mines) && FirstDistinctPicks(picks, mines)
    ensures forall i, j {:trigger b[i, j]} :: 0 <= i < BoardSize && 0 <= j < BoardSize ==>
      b[i, j] == EmptyCell.(isMine := (i, j) in mines)
  {
    assert picks[..|picks|] == picks;
    var minesPlaced := 0;
    var k := 0;
    mines := {};
    while minesPlaced < MinesCount
      invariant 0 <= k <= |picks|
      invariant mines == Elems(picks[..k]) && minesPlaced == |mines|
      invariant mines <= AllPos() && minesPlaced <= MinesCount
      invariant k == 0 || |Elems(picks[..k - 1])| < MinesCount
      invariant forall i, j {:trigger b[i, j]} :: 0 <= i < BoardSize && 0 <= j < BoardSize ==>
        b[i, j] == EmptyCell.(isMine := (i, j) in mines)
      decreases |picks| - k
    {
      var (row, col) := picks[k];
      NextPick(picks, k);
      if !b[row, col].isMine {
        b[row, col] := b[row, col].(isMine := true);
        mines := mines + {(row, col)};
        minesPlaced := minesPlaced + 1;
      }
      k := k + 1;
    }
    assert k > 0;
  }

  /** Taking one more candidate adds it to the positions taken so far. */
  lemma NextPick(picks: seq<Pos>, k: int)
    requires 0 <= k < |picks|
    ensures Elems(picks[..k + 1]) == Elems(picks[..k]) + {picks[k]}
  {
    assert picks[..k + 1] == picks[..k] + [picks[k]];
    ElemsAppend(picks[..k], [picks[k]]);
  }

  /** Writes into every safe cell the number of mines around it. */
  method FillNeighborCounts(b: array2<Cell>, ghost mines: set<Pos>)
    requires SquareBoard(b)
    requires forall i, j {:trigger b[i, j]} :: 0 <= i < BoardSize && 0 <= j < BoardSize ==>
      b[i, j] == EmptyCell.(isMine := (i, j) in mines)
    modifies b
    ensures forall i, j {:trigger b[i, j]} :: 0 <= i < BoardSize && 0 <= j < BoardSize ==> b[i, j] == InitialCell((i, j), mines)
  {
    for row := 0 to BoardSize
      invariant forall i, j {:trigger b[i, j]} :: 0 <= i < BoardSize && 0 <= j < BoardSize ==>
        b[i, j] == if i < row then InitialCell((i, j), mines) else EmptyCell.(isMine := (i, j) in mines)
    {
      FillRowCounts(b, row, mines);
    }
  }

  /** One pass of the outer loop: the counts of one row. */
  method FillRowCounts(b: array2<Cell>, row: int, ghost mines: set<Pos>)
    requires SquareBoard(b) && 0 <= row < BoardSize
    requires forall i, j {:trigger b[i, j]} :: 0 <= i < BoardSize && 0 <= j < BoardSize ==>
      b[i, j] == if i < row then InitialCell((i, j), mines) else EmptyCell.(isMine := (i, j) in mines)
    modifies b
    ensures forall i, j {:trigger b[i, j]} :: 0 <= i < BoardSize && 0 <= j < BoardSize ==>
      b[i, j] == if i <= row then InitialCell((i, j), mines) else EmptyCell.(isMine := (i, j) in mines)
  {
    for col := 0 to BoardSize
      invariant forall i, j {:trigger b[i, j]} :: 0 <= i < BoardSize && 0 <= j < BoardSize ==>
        b[i, j] == if i < row || (i == row && j < col) then InitialCell((i, j), mines)
                   else EmptyCell.(isMine := (i, j) in mines)
    {
      if !b[row, col].isMine {
        var count := CountAdjacentMines(b, row, col, mines);
        b[row, col] := b[row, col].(neighborMines := count);
      }
    }
  }

  /** The cells of the 3x3 block around p scanned before offset (di, dj),
      offsets taken row by row. */
  ghost function ScannedBlock(p: Pos, di: int, dj: int): set<Pos> {
    set q | q in AllPos() && -1 <= q.0 - p.0 <= 1 && -1 <= q.1 - p.1 <= 1 &&
            (q.0 - p.0 < di || (q.0 - p.0 == di && q.1 - p.1 < dj))
  }

  /** Counts the mines in the in-bounds part of the 3x3 block around a safe
      cell; that is its number of adjacent mines. */
  method CountAdjacentMines(b: array2<Cell>, row: int, col: int, ghost mines: set<Pos>) returns (count: nat)
    requires SquareBoard(b)
    requires 0 <= row < BoardSize && 0 <= col < BoardSize
    requires forall i, j {:trigger b[i, j]} :: 0 <= i < BoardSize && 0 <= j < BoardSize ==> b[i, j].isMine == ((i, j) in mines)
    requires (row, col) !in mines
    ensures count == AdjacentMines((row, col), mines)
  {
    count := 0;
    for i := -1 to 2
      invariant count == |ScannedMines((row, col), i, -1, mines)|
    {
      count := CountRow(b, row, col, i, mines, count);
      ScanNextRow((row, col), i, mines);
    }
    ScanComplete((row, col), mines);
  }

  /** The inner loop of the count: row row + i of the block, left to right,
      added to the count so far. */
  method CountRow(b: array2<Cell>, row: int, col: int, i: int, ghost mines: set<Pos>, count0: nat)
    returns (count: nat)
    requires SquareBoard(b)
    requires forall i, j {:trigger b[i, j]} :: 0 <= i < BoardSize && 0 <= j < BoardSize ==> b[i, j].isMine == ((i, j) in mines)
    requires -1 <= i <= 1 && count0 == |ScannedMines((row, col), i, -1, mines)|
    ensures count == |ScannedMines((row, col), i, 2, mines)|
  {
    count := count0;
    for j := -1 to 2
      invariant count == |ScannedMines((row, col), i, j, mines)|
    {
      var newRow := row + i;
      var newCol := col + j;
      ScanStep(row, col, i, j, mines);
      ghost var hit := InBounds((row + i, col + j)) && (row + i, col + j) in mines;
      if 0 <= newRow < BoardSize && 0 <= newCol < BoardSize && b[newRow, newCol].isMine {
        assert hit;
        count := count + 1;
      } else {
        assert !hit;
      }
    }
  }

  /** The mines among the block cells scanned before offset (di, dj). */
  ghost function ScannedMines(p: Pos, di: int, dj: int, mines: set<Pos>): set<Pos> {
    ScannedBlock(p, di, dj) * mines
  }

  /** Scanning offset (di, dj) adds the cell there to the scanned block when
      it is a board cell of the block, and nothing otherwise. */
  lemma BlockStep(r: int, c: int, di: int, dj: int)
    ensures (r + di, c + dj) !in ScannedBlock((r, c), di, dj)
    ensures ScannedBlock((r, c), di, dj + 1)
      == if InBounds((r + di, c + dj)) && -1 <= di <= 1 && -1 <= dj <= 1
         then ScannedBlock((r, c), di, dj) + {(r + di, c + dj)}
         else ScannedBlock((r, c), di, dj)
  {
    if InBounds((r + di, c + dj)) {
      InBoundsInAllPos((r + di, c + dj));
    }
  }

  /** Scanning offset (di, dj) adds one to the count exactly when the cell
      there is a board cell of the block holding a mine. */
  lemma ScanStep(r: int, c: int, di: int, dj: int, mines: set<Pos>)
    ensures if InBounds((r + di, c + dj)) && (r + di, c + dj) in mines && -1 <= di <= 1 && -1 <= dj <= 1
      then |ScannedMines((r, c), di, dj + 1, mines)| == |ScannedMines((r, c), di, dj, mines)| + 1
      else |ScannedMines((r, c), di, dj + 1, mines)| == |ScannedMines((r, c), di, dj, mines)|
  {
    BlockStep(r, c, di, dj);
    var before := ScannedBlock((r, c), di, dj);
    if InBounds((r + di, c + dj)) && -1 <= di <= 1 && -1 <= dj <= 1 && (r + di, c + dj) in mines {
      assert ScannedMines((r, c), di, dj + 1, mines) == before * mines + {(r + di, c + dj)};
    } else {
      assert ScannedMines((r, c), di, dj + 1, mines) == before * mines;
    }
  }

  lemma ScanNextRow(p: Pos, di: int, mines: set<Pos>)
    ensures ScannedMines(p, di, 2, mines) == ScannedMines(p, di + 1, -1, mines)
  {
    assert ScannedBlock(p, di, 2) == ScannedBlock(p, di + 1, -1);
  }

  lemma ScanComplete(p: Pos, mines: set<Pos>)
    requires p !in mines
    ensures ScannedMines(p, 2, -1, mines) == Neighbours(p) * mines
  {
  }

  // ---------------------------------------------------------------------
  // Win check
  // ---------------------------------------------------------------------

  /** The source's win check: every mine is hidden and every other cell is
      revealed. */
  predicate HasWon(b: array2<Cell>)
    reads b
  {
    forall i, j :: 0 <= i < b.Length0 && 0 <= j < b.Length1 ==>
      if b[i, j].isMine then !b[i, j].isRevealed else b[i, j].isRevealed
  }

  /** The win check read on the value view. */
  ghost predicate AllSafeRevealed(v: map<Pos, Cell>) {
    forall p :: p in v ==> if v[p].isMine then !v[p].isRevealed else v[p].isRevealed
  }

  /** The source's check on the array agrees with the check on its cells. */
  lemma HasWonIffAllSafeRevealed(b: array2<Cell>, v: map<Pos, Cell>)
    requires Mirrors(b, v)
    ensures HasWon(b) <==> AllSafeRevealed(v)
  {
    if AllSafeRevealed(v) {
      forall i, j | 0 <= i < BoardSize && 0 <= j < BoardSize
        ensures if b[i, j].isMine then !b[i, j].isRevealed else b[i, j].isRevealed
      {
        assert (i, j) in AllPos();
      }
    }
    if HasWon(b) {
      forall p | p in v ensures if v[p].isMine then !v[p].isRevealed else v[p].isRevealed {
        assert b[p.0, p.1] == v[p];
      }
    }
  }

  /** On a matching board the win check holds exactly when the revealed
      cells are the safe cells; there are 81 - 10 = 71 of them. */
  lemma WonIffSafeCellsRevealed(v: map<Pos, Cell>, mines: set<Pos>)
    requires LayoutMatches(v, mines) && MinesPlaced(mines)
    ensures AllSafeRevealed(v) <==> Revealed(v) == AllPos() - mines
    ensures AllSafeRevealed(v) ==> |Revealed(v)| == BoardSize * BoardSize - MinesCount
  {
    LayoutAt(v, mines);
    if AllSafeRevealed(v) {
      AllPosCard();
      assert |AllPos() - mines| == |AllPos()| - |mines|;
    }
    if Revealed(v) == AllPos() - mines {
      forall p | p in v ensures if v[p].isMine then !v[p].isRevealed else v[p].isRevealed {
        assert p in Revealed(v) <==> v[p].isRevealed;
      }
    }
  }

  /** A freshly generated board is not won: there are safe cells and none
      is revealed. */
  lemma InitialBoardNotWon(mines: set<Pos>)
    requires MinesPlaced(mines)
    ensures !AllSafeRevealed(InitialBoard(mines))
  {
    InitialBoardFacts(mines);
    AllPosCard();
    var safe := AllPos() - mines;
    assert |safe| == |AllPos()| - |mines| > 0;
    var p :| p in safe;
    assert !InitialBoard(mines)[p].isRevealed;
  }

  // ---------------------------------------------------------------------
  // What a cell shows
  // ---------------------------------------------------------------------

  datatype Content = Blank | Flag | Bomb | Number(n: int)

  /** A hidden cell shows its flag or nothing, a revealed mine a bomb, a
      revealed safe cell its count, or nothing when the count is 0. */
  function CellContent(cell: Cell): Content {
    if !cell.isRevealed then
      (if cell.isFlagged then Flag else Blank)
    else if cell.isMine then Bomb
    else if cell.neighborMines != 0 then Number(cell.neighborMines)
    else Blank
  }

  /** On a matching board a shown number is the cell's adjacent-mine count,
      between 1 and 8; a bomb is shown exactly on a revealed mine; a revealed
      cell shows nothing only when none of its neighbours is a mine. */
  lemma CellContentOnBoard(v: map<Pos, Cell>, mines: set<Pos>, p: Pos)
    requires LayoutMatches(v, mines) && p in v
    ensures CellContent(v[p]).Number? ==>
      v[p].isRevealed && p !in mines &&
      CellContent(v[p]).n == AdjacentMines(p, mines) && 1 <= CellContent(v[p]).n <= 8
    ensures CellContent(v[p]) == Bomb <==> v[p].isRevealed && p in mines
    ensures CellContent(v[p]) == Blank && v[p].isRevealed ==> p !in mines && Neighbours(p) !! mines
  {
    LayoutAt(v, mines);
    LayoutCountsInRange(v, mines, p);
    if CellContent(v[p]) == Blank && v[p].isRevealed {
      forall q | q in Neighbours(p) ensures q !in mines {
        assert q !in Neighbours(p) * mines;
      }
    }
  }
}
