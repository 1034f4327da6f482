/** The game component: one board plus the state kept beside it (game
    state, mines-left counter, elapsed time and whether the timer runs),
    and the operations the user triggers: reveal, flag toggle, reset and
    the once-a-second timer tick. */
module Minesweeper {
  import opened Grid
  import opened Flood
  import opened Board

  datatype GameState = Playing | Won | Lost

  /** What holds between the cells and the state beside them, at every
      moment between two user actions:
      - the board is the one generated for its MINES_COUNT mines, with some
        cells revealed or flagged since;
      - no cell is both revealed and flagged;
      - minesLeft is MINES_COUNT less the flags placed (so it goes negative
        when more than MINES_COUNT cells are flagged);
      - the game is lost exactly when a mine is revealed, and won exactly
        when the revealed cells are the safe cells;
      - while playing, the timer runs exactly when some cell is revealed;
        once the game is over it is stopped;
      - no time has passed before the first reveal. */
  ghost predicate Consistent(v: map<Pos, Cell>, mines: set<Pos>, state: GameState,
                             minesLeft: int, time: nat, timerActive: bool)
  {
    LayoutMatches(v, mines) && MinesPlaced(mines)
    && Revealed(v) !! Flagged(v)
    && minesLeft == MinesCount - |Flagged(v)|
    && (state == Lost <==> Revealed(v) * mines != {})
    && (state == Won <==> Revealed(v) == AllPos() - mines)
    && (state == Playing ==> (timerActive <==> Revealed(v) != {}))
    && (state != Playing ==> !timerActive)
    && (Revealed(v) == {} ==> time == 0)
  }

  /** A new game: a generated board, playing, MINES_COUNT mines left, no
      time, timer stopped. */
  lemma FreshGameConsistent(mines: set<Pos>)
    requires MinesPlaced(mines)
    ensures Consistent(InitialBoard(mines), mines, Playing, MinesCount, 0, false)
  {
    InitialBoardFacts(mines);
    AllPosCard();
    assert |AllPos() - mines| == |AllPos()| - |mines| > 0;
  }

  /** Toggling the flag of a hidden cell during play moves minesLeft by one
      the opposite way to the flag count, and keeps the state consistent. */
  lemma ToggleConsistent(v: map<Pos, Cell>, mines: set<Pos>, minesLeft: int, time: nat,
                         timerActive: bool, p: Pos)
    requires Consistent(v, mines, Playing, minesLeft, time, timerActive)
    requires p in v && !v[p].isRevealed
    ensures Consistent(ToggleAt(v, p), mines, Playing,
                       minesLeft + (if ToggleAt(v, p)[p].isFlagged then -1 else 1), time, timerActive)
  {
    ToggleEffect(v, p);
    ToggleKeepsLayout(v, p);
  }

  /** Clicking a hidden, unflagged mine during play reveals it and loses
      the game; the timer stops. */
  lemma MineRevealConsistent(v: map<Pos, Cell>, mines: set<Pos>, minesLeft: int, time: nat,
                             timerActive: bool, p: Pos)
    requires Consistent(v, mines, Playing, minesLeft, time, timerActive)
    requires p in mines && p in v && !v[p].isFlagged
    ensures Consistent(RevealAll(v, {p}), mines, Lost, minesLeft, time, false)
  {
    RevealAllEffect(v, {p});
    RevealKeepsLayout(v, {p});
    var w := RevealAll(v, {p});
    assert p in Revealed(w) * mines;
    assert p !in AllPos() - mines;
  }

  /** A flood fill started during play on a safe, unflagged cell reveals no
      mine; afterwards the game is won exactly when the revealed cells are
      the safe cells, otherwise it goes on with the timer running. */
  lemma FillConsistent(v: map<Pos, Cell>, mines: set<Pos>, minesLeft: int, time: nat,
                       timerActive: bool, p: Pos, ord: seq<Pos>, w: map<Pos, Cell>, won: bool)
    requires Consistent(v, mines, Playing, minesLeft, time, timerActive)
    requires p in v && p !in mines && !v[p].isFlagged
    requires FillOf(v, p, ord) && w == RevealAll(v, Elems(ord))
    requires won == (Revealed(w) == AllPos() - mines)
    ensures Elems(ord) !! mines
    ensures p in Revealed(w)
    ensures Consistent(w, mines, if won then Won else Playing, minesLeft, time, !won)
  {
    ZeroCellsAreSafe(v, mines);
    FloodOrderAvoidsMines(ord, p, ZeroCells(v), Revealed(v) + Flagged(v), mines);
    RevealAllEffect(v, Elems(ord));
    RevealKeepsLayout(v, Elems(ord));
    InBoundsInAllPos(p);
    if p !in Revealed(v) {
      assert ord[0] == p;
    }
    FloodOrderUnflagged(ord, p, ZeroCells(v), Revealed(v), Flagged(v));
  }

  /** A flood fill reveals no cell that was blocked, in particular no
      flagged cell. */
  lemma FloodOrderUnflagged(ord: seq<Pos>, start: Pos, zero: set<Pos>, revealed: set<Pos>, flagged: set<Pos>)
    requires IsFloodOrder(ord, start, zero, revealed + flagged)
    ensures Elems(ord) !! flagged
  {
    forall q | q in Elems(ord) ensures q !in flagged {
      var k :| 0 <= k < |ord| && ord[k] == q;
    }
  }

  /** A tick adds a second only while the timer runs. */
  lemma TickConsistent(v: map<Pos, Cell>, mines: set<Pos>, state: GameState, minesLeft: int,
                       time: nat, timerActive: bool)
    requires Consistent(v, mines, state, minesLeft, time, timerActive)
    ensures Consistent(v, mines, state, minesLeft, if timerActive then time + 1 else time, timerActive)
  {
  }

  class Game {
    var board: array2<Cell>
    var gameState: GameState
    var minesLeft: int
    var time: nat
    var timerActive: bool
    /** The cells of board by position, kept in step with every write. */
    ghost var cells: map<Pos, Cell>
    /** The mine positions of the current board, fixed when it is generated. */
    ghost var mines: set<Pos>

    ghost predicate Valid()
      reads this, board
    {
      Mirrors(board, cells) && Consistent(cells, mines, gameState, minesLeft, time, timerActive)
    }

    /** Mounting the component runs a reset. */
    constructor (picks: seq<Pos>)
      requires forall k :: 0 <= k < |picks| ==> InBounds(picks[k])
      requires |Elems(picks)| >= MinesCount
      ensures Valid() && fresh(board)
      ensures gameState == Playing && minesLeft == MinesCount && time == 0 && !timerActive
      ensures FirstDistinctPicks(picks, mines)
      ensures cells == InitialBoard(mines)
    {
      var b;
      ghost var m;
      b, m := InitializeBoard(picks);
      board, cells, mines := b, InitialBoard(m), m;
      gameState, minesLeft, time, timerActive := Playing, MinesCount, 0, false;
      new;
      FreshGameConsistent(mines);
    }

    /** Discards the board and all game state for a newly generated board. */
    method Reset(picks: seq<Pos>)
      requires forall k :: 0 <= k < |picks| ==> InBounds(picks[k])
      requires |Elems(picks)| >= MinesCount
      modifies this
      ensures Valid() && fresh(board)
      ensures gameState == Playing && minesLeft == MinesCount && time == 0 && !timerActive
      ensures FirstDistinctPicks(picks, mines)
      ensures cells == InitialBoard(mines)
    {
      var b;
      ghost var m;
      b, m := InitializeBoard(picks);
      Install(b, InitialBoard(m), m);
      FreshGameConsistent(m);
    }

    /** Puts a newly generated board in place and resets the state beside it. */
    method Install(b: array2<Cell>, ghost v: map<Pos, Cell>, ghost m: set<Pos>)
      modifies this
      ensures board == b && cells == v && mines == m
      ensures gameState == Playing && minesLeft == MinesCount && time == 0 && !timerActive
    {
      board, cells, mines := b, v, m;
      gameState := Playing;
      minesLeft := MinesCount;
      time := 0;
      timerActive := false;
    }

    /** Reveals (row, col). Ignored once the game is over or on a flagged
        cell. Otherwise the timer starts; a mine reveals only itself and
        loses the game; a safe cell starts a flood fill, after which the
        game is won exactly when every safe cell is revealed. The ghost
        result is the order in which the flood fill revealed cells. */
    method RevealCell(row: int, col: int) returns (ghost filled: seq<Pos>)
      requires Valid()
      requires 0 <= row < BoardSize && 0 <= col < BoardSize
      modifies this, board
      ensures Valid()
      ensures board == old(board) && mines == old(mines) && minesLeft == old(minesLeft) && time == old(time)
      ensures old(gameState) != Playing || old(cells[(row, col)].isFlagged) ==>
        cells == old(cells) && gameState == old(gameState) && timerActive == old(timerActive)
      ensures old(gameState) == Playing && !old(cells[(row, col)].isFlagged) && (row, col) in mines ==>
        cells == RevealAll(old(cells), {(row, col)}) && gameState == Lost && !timerActive
      ensures old(gameState) == Playing && !old(cells[(row, col)].isFlagged) && (row, col) !in mines ==>
        cells == RevealAll(old(cells), Elems(filled))
        && FillOf(old(cells), (row, col), filled)
        && Elems(filled) !! mines && cells[(row, col)].isRevealed
        && (gameState == Won <==> Revealed(cells) == AllPos() - mines)
        && gameState != Lost && timerActive == (gameState == Playing)
    {
      filled := [];
      if gameState != Playing || board[row, col].isFlagged {
        return;
      }
      ghost var active0 := timerActive;
      StartTimer();
      if board[row, col].isMine {
        RevealMine(row, col, active0);
      } else {
        filled := RevealSafe(row, col, active0);
      }
    }

    /** The first reveal of a game starts the timer. */
    method StartTimer()
      modifies this`timerActive
      ensures timerActive
      ensures board == old(board) && cells == old(cells) && mines == old(mines)
      ensures gameState == old(gameState) && minesLeft == old(minesLeft) && time == old(time)
    {
      if !timerActive {
        timerActive := true;
      }
    }

    /** The loss branch of a reveal, entered with the timer just started
        (active0 is whether it ran before): the mine alone is revealed, the
        game is lost and the timer stops. */
    method RevealMine(row: int, col: int, ghost active0: bool)
      requires Mirrors(board, cells) && Consistent(cells, mines, gameState, minesLeft, time, active0)
      requires 0 <= row < BoardSize && 0 <= col < BoardSize
      requires gameState == Playing && !board[row, col].isFlagged && board[row, col].isMine
      requires timerActive
      modifies board, this`cells, this`gameState, this`timerActive
      ensures Valid()
      ensures (row, col) in mines
      ensures cells == RevealAll(old(cells), {(row, col)}) && gameState == Lost && !timerActive
    {
      ghost var v0 := cells;
      LayoutAtCell(v0, mines, (row, col));
      RevealOne(row, col);
      Finish(Lost);
      MineRevealConsistent(v0, mines, minesLeft, time, active0, (row, col));
    }

    /** The safe branch of a reveal, entered with the timer just started:
        the flood fill from (row, col), then the win check on the board the
        fill left behind. */
    method RevealSafe(row: int, col: int, ghost active0: bool) returns (ghost filled: seq<Pos>)
      requires Mirrors(board, cells) && Consistent(cells, mines, gameState, minesLeft, time, active0)
      requires 0 <= row < BoardSize && 0 <= col < BoardSize
      requires gameState == Playing && !board[row, col].isFlagged && !board[row, col].isMine
      requires timerActive
      modifies board, this`cells, this`gameState, this`timerActive
      ensures Valid()
      ensures (row, col) !in mines
      ensures cells == RevealAll(old(cells), Elems(filled))
        && FillOf(old(cells), (row, col), filled)
        && Elems(filled) !! mines && cells[(row, col)].isRevealed
        && (gameState == Won <==> Revealed(cells) == AllPos() - mines)
        && gameState != Lost && timerActive == (gameState == Playing)
    {
      ghost var v0 := cells;
      LayoutAtCell(v0, mines, (row, col));
      filled := FloodFill(row, col);
      Settle(v0, active0, (row, col), filled);
    }

    /** The win check after a safe reveal, on the board as the fill left it:
        the fill revealed no mine; the game is won, and the timer stops,
        exactly when the revealed cells are the safe cells. */
    method Settle(ghost v0: map<Pos, Cell>, ghost active0: bool, ghost p: Pos, ghost filled: seq<Pos>)
      requires Consistent(v0, mines, Playing, minesLeft, time, active0)
      requires p in v0 && p !in mines && !v0[p].isFlagged
      requires FillOf(v0, p, filled) && cells == RevealAll(v0, Elems(filled))
      requires Mirrors(board, cells) && gameState == Playing && timerActive
      modifies this`gameState, this`timerActive
      ensures Valid()
      ensures Elems(filled) !! mines && p in Revealed(cells)
      ensures gameState == (if Revealed(cells) == AllPos() - mines then Won else Playing)
      ensures timerActive == (gameState == Playing)
      ensures board == old(board) && cells == old(cells) && mines == old(mines)
      ensures minesLeft == old(minesLeft) && time == old(time)
    {
      ghost var won := Revealed(cells) == AllPos() - mines;
      FillConsistent(v0, mines, minesLeft, time, active0, p, filled, cells, won);
      WinCheck(board, cells, mines);
      if HasWon(board) {
        Finish(Won);
      }
    }

    /** The end of a game: the state becomes won or lost and the timer stops. */
    method Finish(s: GameState)
      modifies this`gameState, this`timerActive
      ensures gameState == s && !timerActive
      ensures board == old(board) && cells == old(cells) && mines == old(mines)
      ensures minesLeft == old(minesLeft) && time == old(time)
    {
      gameState := s;
      timerActive := false;
    }

    /** The recursive flood fill: stops off the board and at revealed or
        flagged cells; otherwise reveals (r, c), and when its count is 0
        fills from each of the nine cells of its 3x3 block. Only isRevealed
        changes, from false to true; the ghost result lists the cells it
        revealed, in order. */
    method FloodFill(r: int, c: int) returns (ghost ord: seq<Pos>)
      requires Mirrors(board, cells)
      modifies board, this`cells
      decreases |Hidden(cells)|, 3
      ensures Mirrors(board, cells)
      ensures cells == RevealAll(old(cells), Elems(ord))
      ensures FillOf(old(cells), (r, c), ord)
      ensures board == old(board) && mines == old(mines) && gameState == old(gameState)
      ensures minesLeft == old(minesLeft) && time == old(time) && timerActive == old(timerActive)
    {
      ghost var v0 := cells;
      if r < 0 || r >= BoardSize || c < 0 || c >= BoardSize || board[r, c].isRevealed || board[r, c].isFlagged {
        ord := [];
        assert InBounds((r, c)) ==> (r, c) in AllPos() && v0[(r, c)] == board[r, c];
        FillNothing(v0, (r, c));
        return;
      }
      assert (r, c) in AllPos() && v0[(r, c)] == board[r, c];
      RevealOne(r, c);
      ord := [(r, c)];
      ScanStarts(v0, (r, c));
      if board[r, c].neighborMines == 0 {
        ord := FillAround(r, c, v0, ord);
        FillEnds(v0, cells, ord, (r, c), 2, -1);
      } else {
        FillEnds(v0, cells, ord, (r, c), -1, -1);
      }
    }

    /** The outer of the flood fill's two nested loops over the 3x3 block
        around (r, c), a revealed cell whose count is zero: one row of the
        block after another. v0 is the board before the fill that revealed
        (r, c), and ord0 what that fill has revealed so far. */
    method FillAround(r: int, c: int, ghost v0: map<Pos, Cell>, ghost ord0: seq<Pos>) returns (ghost ord: seq<Pos>)
      requires Mirrors(board, cells)
      requires v0.Keys == AllPos() && (r, c) in ZeroCells(v0)
      requires Scanning(v0, cells, ord0, (r, c), -1, -1)
      modifies board, this`cells
      decreases |Hidden(v0)|, 2
      ensures Mirrors(board, cells)
      ensures Scanning(v0, cells, ord, (r, c), 2, -1)
      ensures board == old(board) && mines == old(mines) && gameState == old(gameState)
      ensures minesLeft == old(minesLeft) && time == old(time) && timerActive == old(timerActive)
    {
      ord := ord0;
      for i := -1 to 2
        invariant Mirrors(board, cells)
        invariant Scanning(v0, cells, ord, (r, c), i, -1)
        invariant board == old(board) && mines == old(mines) && gameState == old(gameState)
        invariant minesLeft == old(minesLeft) && time == old(time) && timerActive == old(timerActive)
      {
        ord := FillRow(r, c, i, v0, ord);
        ScanWraps(v0, cells, ord, (r, c), i);
      }
    }

    /** The inner loop: a nested fill from each cell of row r + i of the
        block, left to right. */
    method FillRow(r: int, c: int, i: int, ghost v0: map<Pos, Cell>, ghost ord0: seq<Pos>) returns (ghost ord: seq<Pos>)
      requires Mirrors(board, cells)
      requires v0.Keys == AllPos() && (r, c) in ZeroCells(v0)
      requires -1 <= i <= 1
      requires Scanning(v0, cells, ord0, (r, c), i, -1)
      modifies board, this`cells
      decreases |Hidden(v0)|, 1
      ensures Mirrors(board, cells)
      ensures Scanning(v0, cells, ord, (r, c), i, 2)
      ensures board == old(board) && mines == old(mines) && gameState == old(gameState)
      ensures minesLeft == old(minesLeft) && time == old(time) && timerActive == old(timerActive)
    {
      ord := ord0;
      for j := -1 to 2
        invariant Mirrors(board, cells)
        invariant Scanning(v0, cells, ord, (r, c), i, j)
        invariant board == old(board) && mines == old(mines) && gameState == old(gameState)
        invariant minesLeft == old(minesLeft) && time == old(time) && timerActive == old(timerActive)
      {
        ord := FillFrom(r, c, i, j, v0, ord);
      }
    }

    /** The body of the inner loop: the nested fill from (r + i, c + j),
        whose cells are appended to what the fill has revealed so far. */
    method FillFrom(r: int, c: int, i: int, j: int, ghost v0: map<Pos, Cell>, ghost ord0: seq<Pos>)
      returns (ghost ord: seq<Pos>)
      requires Mirrors(board, cells)
      requires v0.Keys == AllPos() && (r, c) in ZeroCells(v0)
      requires -1 <= i <= 1 && -1 <= j <= 1
      requires Scanning(v0, cells, ord0, (r, c), i, j)
      modifies board, this`cells
      decreases |Hidden(v0)|, 0
      ensures Mirrors(board, cells)
      ensures Scanning(v0, cells, ord, (r, c), i, j + 1)
      ensures board == old(board) && mines == old(mines) && gameState == old(gameState)
      ensures minesLeft == old(minesLeft) && time == old(time) && timerActive == old(timerActive)
    {
      ScanShrinksHidden(v0, cells, ord0, (r, c), i, j);
      ghost var mid := cells;
      var nr, nc := r + i, c + j;
      var sub := FloodFill(nr, nc);
      FillStep(v0, mid, ord0, sub, r, c, i, j, nr, nc, cells);
      ord := ord0 + sub;
    }

    /** Reveals the single cell (r, c): the one write of both the loss branch
        and each step of the flood fill. */
    method RevealOne(r: int, c: int)
      requires Mirrors(board, cells)
      requires 0 <= r < BoardSize && 0 <= c < BoardSize
      modifies board, this`cells
      ensures Mirrors(board, cells)
      ensures cells == RevealAll(old(cells), {(r, c)})
      ensures board == old(board) && mines == old(mines) && gameState == old(gameState)
      ensures minesLeft == old(minesLeft) && time == old(time) && timerActive == old(timerActive)
    {
      ghost var v0 := cells;
      board[r, c] := board[r, c].(isRevealed := true);
      cells := RevealAll(v0, {(r, c)});
    }

    /** Right click on (row, col): ignored once the game is over or on a
        revealed cell; otherwise the flag is inverted and minesLeft moves
        by -1 for a flag placed and +1 for a flag removed, without clamping. */
    method ToggleFlag(row: int, col: int)
      requires Valid()
      requires 0 <= row < BoardSize && 0 <= col < BoardSize
      modifies board, this`cells, this`minesLeft
      ensures Valid()
      ensures old(gameState) != Playing || old(cells[(row, col)].isRevealed) ==>
        cells == old(cells) && minesLeft == old(minesLeft)
      ensures old(gameState) == Playing && !old(cells[(row, col)].isRevealed) ==>
        cells == ToggleAt(old(cells), (row, col))
        && minesLeft == old(minesLeft) + (if cells[(row, col)].isFlagged then -1 else 1)
    {
      if gameState != Playing || board[row, col].isRevealed {
        return;
      }
      ghost var v0, left0 := cells, minesLeft;
      FlipFlag(row, col);
      CountFlag(if board[row, col].isFlagged then -1 else 1);
      ToggleConsistent(v0, mines, left0, time, timerActive, (row, col));
    }

    /** The flag write of a right click: (row, col) has its flag inverted. */
    method FlipFlag(row: int, col: int)
      requires Mirrors(board, cells)
      requires 0 <= row < BoardSize && 0 <= col < BoardSize
      modifies board, this`cells
      ensures Mirrors(board, cells)
      ensures cells == ToggleAt(old(cells), (row, col))
      ensures board == old(board) && mines == old(mines) && gameState == old(gameState)
      ensures minesLeft == old(minesLeft) && time == old(time) && timerActive == old(timerActive)
    {
      ghost var v0 := cells;
      board[row, col] := board[row, col].(isFlagged := !board[row, col].isFlagged);
      cells := ToggleAt(v0, (row, col));
    }

    /** The counter write of a right click: minesLeft moves by delta. */
    method CountFlag(delta: int)
      modifies this`minesLeft
      ensures minesLeft == old(minesLeft) + delta
      ensures board == old(board) && cells == old(cells) && mines == old(mines)
      ensures gameState == old(gameState) && time == old(time) && timerActive == old(timerActive)
    {
      minesLeft := minesLeft + delta;
    }

    /** One firing of the one-second interval: time advances only while the
        timer is active, which the invariant confines to a running game. */
    method Tick()
      requires Valid()
      modifies this`time
      ensures Valid()
      ensures time == if timerActive then old(time) + 1 else old(time)
      ensures gameState != Playing ==> time == old(time)
    {
      TickConsistent(cells, mines, gameState, minesLeft, time, timerActive);
      if timerActive {
        time := time + 1;
      }
    }
  }

  /** The source's win check, on a board that mirrors v, holds exactly when
      the revealed cells are the safe cells. */
  lemma WinCheck(b: array2<Cell>, v: map<Pos, Cell>, mines: set<Pos>)
    requires Mirrors(b, v) && LayoutMatches(v, mines) && MinesPlaced(mines)
    ensures HasWon(b) <==> Revealed(v) == AllPos() - mines
  {
    HasWonIffAllSafeRevealed(b, v);
    WonIffSafeCellsRevealed(v, mines);
  }

  /** ord is what a flood fill from start reveals on v: blocked are the
      cells revealed or flagged before it, and it spreads from the cells
      whose count is zero. */
  ghost predicate FillOf(v: map<Pos, Cell>, start: Pos, ord: seq<Pos>) {
    IsFloodOrder(ord, start, ZeroCells(v), Revealed(v) + Flagged(v))
  }

  /** The state of a flood fill from start on v0 that has revealed ord,
      giving v, and has scanned its 3x3 block up to offset (i, j). */
  ghost predicate Scanning(v0: map<Pos, Cell>, v: map<Pos, Cell>, ord: seq<Pos>, start: Pos, i: int, j: int) {
    v == RevealAll(v0, Elems(ord))
    && FillInProgress(ord, start, ZeroCells(v0), Revealed(v0) + Flagged(v0))
    && ScannedTo(start, i, j, Revealed(v0) + Flagged(v0) + Elems(ord))
  }

  /** A fill from off the board or from a revealed or flagged cell reveals
      nothing. */
  lemma FillNothing(v0: map<Pos, Cell>, start: Pos)
    requires InBounds(start) ==> start in Revealed(v0) + Flagged(v0)
    ensures v0 == RevealAll(v0, Elems([]))
    ensures FillOf(v0, start, [])
  {
    assert v0 == RevealAll(v0, Elems([]));
  }

  /** Revealing the start cell begins the fill. */
  lemma ScanStarts(v0: map<Pos, Cell>, start: Pos)
    requires InBounds(start) && start !in Revealed(v0) + Flagged(v0)
    ensures Scanning(v0, RevealAll(v0, {start}), [start], start, -1, -1)
  {
    assert Elems([start]) == {start};
    StartFill(start, ZeroCells(v0), Revealed(v0) + Flagged(v0));
    ScanBegins(start, Revealed(v0) + Flagged(v0) + Elems([start]));
  }

  /** The start cell stays revealed, so each nested fill sees fewer hidden
      cells than the fill that launched it. */
  lemma ScanShrinksHidden(v0: map<Pos, Cell>, v: map<Pos, Cell>, ord: seq<Pos>, start: Pos, i: int, j: int)
    requires v0.Keys == AllPos()
    requires Scanning(v0, v, ord, start, i, j)
    ensures |Hidden(v)| < |Hidden(v0)|
  {
    InBoundsInAllPos(start);
    RevealShrinksHidden(v0, Elems(ord), start);
  }

  /** One pass of the flood fill's inner loop, at offset (i, j) from start:
      appending what the nested fill from that cell revealed keeps the fill
      in progress, moves the scan on, and the board is the start board with
      all of it revealed. */
  lemma FillStep(v0: map<Pos, Cell>, mid: map<Pos, Cell>, ord: seq<Pos>, sub: seq<Pos>,
                 r: int, c: int, i: int, j: int, nr: int, nc: int, after: map<Pos, Cell>)
    requires v0.Keys == AllPos() && (r, c) in ZeroCells(v0)
    requires -1 <= i <= 1 && -1 <= j <= 1
    requires Scanning(v0, mid, ord, (r, c), i, j)
    requires nr == r + i && nc == c + j
    requires FillOf(mid, (nr, nc), sub) && after == RevealAll(mid, Elems(sub))
    ensures Scanning(v0, after, ord + sub, (r, c), i, j + 1)
  {
    FillOnBoard(ord, (r, c), ZeroCells(v0), Revealed(v0) + Flagged(v0));
    RevealAllEffect(v0, Elems(ord));
    RevealAllTwice(v0, Elems(ord), Elems(sub));
    ElemsAppend(ord, sub);
    assert Revealed(mid) + Flagged(mid) == Revealed(v0) + Elems(ord) + Flagged(v0);
    InBoundsInAllPos((nr, nc));
    ExtendFill(ord, sub, (r, c), (nr, nc), ZeroCells(v0), Revealed(v0), Flagged(v0));
    ScanVisits(r, c, i, j, nr, nc, Revealed(v0) + Flagged(v0), ord, sub);
  }

  /** The end of a row of the 3x3 block moves the scan to the next row. */
  lemma ScanWraps(v0: map<Pos, Cell>, v: map<Pos, Cell>, ord: seq<Pos>, start: Pos, i: int)
    requires Scanning(v0, v, ord, start, i, 2)
    ensures Scanning(v0, v, ord, start, i + 1, -1)
  {
    ScanRowDone(start, i, Revealed(v0) + Flagged(v0) + Elems(ord));
  }

  /** A fill is complete once the whole block is scanned, or at once when
      the start cell's count is not zero. */
  lemma FillEnds(v0: map<Pos, Cell>, v: map<Pos, Cell>, ord: seq<Pos>, start: Pos, i: int, j: int)
    requires Scanning(v0, v, ord, start, i, j)
    requires start in ZeroCells(v0) ==> i == 2 && j == -1
    ensures v == RevealAll(v0, Elems(ord))
    ensures FillOf(v0, start, ord)
  {
    var blocked := Revealed(v0) + Flagged(v0);
    if start in ZeroCells(v0) {
      ScanEnds(start, blocked + Elems(ord));
    }
    FinishFill(ord, start, ZeroCells(v0), blocked);
  }

  /** Toggling the same cell twice restores the board and minesLeft. */
  method ToggleFlagTwice(g: Game, row: int, col: int)
    requires g.Valid()
    requires 0 <= row < BoardSize && 0 <= col < BoardSize
    modifies g.board, g`cells, g`minesLeft
    ensures g.Valid()
    ensures g.cells == old(g.cells) && g.minesLeft == old(g.minesLeft)
  {
    ghost var v0 := g.cells;
    g.ToggleFlag(row, col);
    g.ToggleFlag(row, col);
    if g.gameState == Playing && !v0[(row, col)].isRevealed {
      ToggleTwice(v0, (row, col));
    }
  }

  /** Flagging a hidden cell of a running game and then clicking it leaves
      the board as the flag left it and the game running. */
  method FlagThenReveal(g: Game, row: int, col: int)
    requires g.Valid() && g.gameState == Playing
    requires 0 <= row < BoardSize && 0 <= col < BoardSize
    requires !g.cells[(row, col)].isRevealed && !g.cells[(row, col)].isFlagged
    modifies g, g.board
    ensures g.Valid()
    ensures g.cells == ToggleAt(old(g.cells), (row, col)) && g.cells[(row, col)].isFlagged
    ensures !g.cells[(row, col)].isRevealed
    ensures g.gameState == Playing && g.minesLeft == old(g.minesLeft) - 1
  {
    g.ToggleFlag(row, col);
    ghost var filled := g.RevealCell(row, col);
  }
}
