# Minesweeper engine, modelled and verified in Dafny

This project models the minesweeper game of the `Minesweeper` component
(`src/components/Minesweeper.tsx`) and proves what the game does. The game
has a 9×9 board (`BOARD_SIZE`) with 10 mines (`MINES_COUNT`). A left click
reveals a cell: a mine loses the game, and a safe cell starts a recursive
flood fill through the cells with no adjacent mines, after which the game
is won once every safe cell is revealed. A right click toggles a flag and
moves the mines-left counter. A one-second timer runs from the first
reveal until the game ends. A reset, also run on mount, generates a fresh
board.

Files:

- `grid.dfy` (module `Grid`): positions, the board's cells and the
  Chebyshev neighbourhood (edges and corners clipped).
- `flood.dfy` (module `Flood`): what a flood fill reveals, stated on sets.
  A fill order must start at the clicked cell and spread only from
  zero-count cells. The revealed region must be closed under that
  spreading and stop at blocked cells. The module proves this region
  unique, least, and free of mines.
- `board.dfy` (module `Board`): the cell record and board generation.
  - Generation is imperative over an `array2<Cell>`: rejection-sampled mine
    placement, then the nested neighbour-count loops.
  - Also here: the layout every later board keeps, the win predicate, and
    what a cell shows.
- `game.dfy` (module `Minesweeper`): the component's state as a class
  `Game`.
  - Fields: `board`, `gameState`, `minesLeft`, `time` and `timerActive`,
    plus a ghost map `cells` that mirrors the array and the ghost set
    `mines`.
  - Methods: reveal (with the recursive fill), flag toggle, reset and the
    timer tick.
  - `Valid()` is the invariant every operation keeps. It covers the
    generated layout, `minesLeft = 10 − flags`, "lost iff a mine is
    revealed", "won iff exactly the safe cells are revealed", and the timer
    running only during a started, unfinished game.

The click handlers mutate the board's cells in place through a shallow
copy of the rows (lines 95 and 149). So the win check at lines 134-136
reads the board as the flood fill left it, although it names the
pre-render `board`. The model follows the code: `Game.Settle` evaluates
`HasWon` on the same array the fill wrote.

## Model

| member | source | states |
|---|---|---|
| Board.InitializeBoard | src/components/Minesweeper.tsx:28-76 | the new board is a fresh 9×9 array. Its mines are the first 10 distinct candidate positions. Every cell is hidden and unflagged, and every safe cell holds its number of adjacent mines, with exactly 10 mines. |
| Board.PlaceMines | src/components/Minesweeper.tsx:39-48 | rejection sampling marks exactly the first 10 distinct candidates as mines. Every other cell stays as the empty grid made it. |
| Board.NextPick | src/components/Minesweeper.tsx:41-47 | taking one more candidate adds exactly that position to the positions drawn so far. |
| Board.FillNeighborCounts | src/components/Minesweeper.tsx:50-73 | after the outer loops every cell is the generated cell: its mine flag unchanged, hidden, unflagged, a safe cell's count equal to its adjacent mines, a mine's count left at 0. |
| Board.FillRowCounts | src/components/Minesweeper.tsx:52-72 | one row pass writes the counts of that row and leaves the rows below untouched. |
| Board.CountAdjacentMines | src/components/Minesweeper.tsx:53-70 | the 3×3 scan with its bounds test returns exactly the number of mines among the cell's in-bounds neighbours. |
| Board.CountRow | src/components/Minesweeper.tsx:56-68 | one row of the 3×3 scan adds exactly the mines of that row of the block. |
| Board.ScanStep | src/components/Minesweeper.tsx:57-67 | visiting one offset raises the count by one exactly when that cell is on the board and a mine. |
| Board.BlockStep | src/components/Minesweeper.tsx:57-64 | visiting one offset adds that cell to the scanned block exactly when it is on the board, and otherwise adds nothing. |
| Board.ScanComplete | src/components/Minesweeper.tsx:55-69 | for a safe cell, the whole scanned block's mines are its neighbours' mines. |
| Board.InitialBoardFacts | src/components/Minesweeper.tsx:30-73 | a generated board has exactly 10 mines, nothing revealed and nothing flagged. |
| Board.LayoutCountsInRange | src/components/Minesweeper.tsx:51-73 | on any board kept from generation every count lies in [0, 8]. A safe cell's count is its adjacent-mine count, and a mine's is 0. |
| Board.ZeroCellsAreSafe | src/components/Minesweeper.tsx:121 | a safe cell with count 0 has no mine beside it, which is what lets the fill recurse from it. |
| Board.LayoutAt | src/components/Minesweeper.tsx:51-73 | a board kept from generation covers all 81 cells. Each cell's mine flag and count are the generated ones. |
| Board.RevealKeepsLayout | src/components/Minesweeper.tsx:99 | revealing cells changes no mine flag and no count. |
| Board.ToggleKeepsLayout | src/components/Minesweeper.tsx:150 | toggling a flag changes no mine flag and no count. |
| Board.RevealAllEffect | src/components/Minesweeper.tsx:119 | revealing a set of cells only adds them to the revealed cells. Flags, mines and counts are unchanged. |
| Board.RevealAllTwice | src/components/Minesweeper.tsx:119 | revealing in two steps equals revealing the union. |
| Board.RevealShrinksHidden | src/components/Minesweeper.tsx:113-119 | revealing a hidden cell strictly reduces the number of hidden cells, which is the flood fill's termination measure. |
| Board.ToggleEffect | src/components/Minesweeper.tsx:150 | a toggle adds the cell to the flagged cells or removes it, changing the flag count by ±1. Reveals, mines and counts are unchanged. |
| Board.ToggleTwice | src/components/Minesweeper.tsx:150 | toggling the same flag twice restores the board. |
| Board.HasWonIffAllSafeRevealed | src/components/Minesweeper.tsx:134-136 | the win predicate on the array agrees with the same test on the cell map it mirrors. |
| Board.WonIffSafeCellsRevealed | src/components/Minesweeper.tsx:134-136 | the win test holds exactly when the revealed cells are the safe cells, and then 71 cells are revealed. |
| Board.InitialBoardNotWon | src/components/Minesweeper.tsx:134-136 | a freshly generated board is not won. |
| Board.CellContentOnBoard | src/components/Minesweeper.tsx:171-179 | a shown number is a revealed safe cell's adjacent-mine count, between 1 and 8. A bomb shows exactly on a revealed mine. A revealed blank cell has no mine beside it. |
| Flood.StartFill | src/components/Minesweeper.tsx:119 | revealing the start cell begins a valid fill. |
| Flood.ExtendFill | src/components/Minesweeper.tsx:124 | appending the cells of a nested fill from a neighbour of a zero cell keeps the fill valid. The neighbour is then covered. |
| Flood.FinishFill | src/components/Minesweeper.tsx:121-127 | once a zero start's neighbours are all covered (or the start's count is non-zero), the fill is complete. |
| Flood.FillOnBoard | src/components/Minesweeper.tsx:108-117 | a fill reveals only board cells, never an off-board position. |
| Flood.ScanVisits | src/components/Minesweeper.tsx:123-125 | visiting one offset of the 3×3 block covers that neighbour. |
| Flood.FloodOrderLeast | src/components/Minesweeper.tsx:107-128 | the revealed region lies inside every closed set containing the start. |
| Flood.FloodRegionUnique | src/components/Minesweeper.tsx:107-128 | any two fills from the same start on the same board reveal the same cells. |
| Flood.FloodOrderAvoidsMines | src/components/Minesweeper.tsx:107-128 | a fill from a safe cell, on a board whose zero cells border no mine, reveals no mine. |
| Minesweeper.FreshGameConsistent | src/components/Minesweeper.tsx:79-85 | the reset state satisfies the game invariant: generated board, playing, 10 mines left, time 0, timer stopped. |
| Minesweeper.ToggleConsistent | src/components/Minesweeper.tsx:145-153 | a flag toggle on a hidden cell during play keeps the invariant, with minesLeft moved opposite to the flag count. |
| Minesweeper.MineRevealConsistent | src/components/Minesweeper.tsx:97-104 | revealing a mine yields a lost game with the timer stopped, and keeps the invariant. |
| Minesweeper.FillConsistent | src/components/Minesweeper.tsx:106-141 | a fill from a safe, unflagged cell reveals no mine and reveals the clicked cell. The game is then won exactly when the safe cells are all revealed, and otherwise goes on with the timer running. |
| Minesweeper.FloodOrderUnflagged | src/components/Minesweeper.tsx:113-114 | a fill never reveals a flagged cell. |
| Minesweeper.TickConsistent | src/components/Minesweeper.tsx:156-164 | a tick keeps the invariant. |
| Minesweeper.WinCheck | src/components/Minesweeper.tsx:134-136 | the win predicate on the board holds exactly when the revealed cells are the safe cells. |
| Minesweeper.FillNothing | src/components/Minesweeper.tsx:108-117 | a fill from off the board or from a revealed or flagged cell reveals nothing. |
| Minesweeper.ScanStarts | src/components/Minesweeper.tsx:119 | revealing the start cell starts the scan of its block. |
| Minesweeper.ScanShrinksHidden | src/components/Minesweeper.tsx:119-124 | each nested fill sees fewer hidden cells than the fill that launched it, so the recursion terminates. |
| Minesweeper.FillStep | src/components/Minesweeper.tsx:123-125 | one pass of the inner loop appends the nested fill, keeps the fill valid and moves the scan on. |
| Minesweeper.ScanWraps | src/components/Minesweeper.tsx:122-123 | the end of a row of the block moves the scan to the next row. |
| Minesweeper.FillEnds | src/components/Minesweeper.tsx:121-127 | after the loops, or at once for a non-zero start, the fill is complete. |
| Minesweeper.Game.constructor | src/components/Minesweeper.tsx:167-169 | mounting runs a reset: a fresh generated board, playing, 10 mines left, time 0, timer stopped. |
| Minesweeper.Game.Reset | src/components/Minesweeper.tsx:79-85 | reset installs a newly generated board and sets playing, 10 mines left, time 0 and the timer stopped, keeping the invariant. |
| Minesweeper.Game.Install | src/components/Minesweeper.tsx:80-84 | the five state updates of a reset. |
| Minesweeper.Game.RevealCell | src/components/Minesweeper.tsx:88-142 | The click is ignored when the game is over or the cell is flagged. On a mine, only that cell is revealed and the game is lost with the timer stopped. On a safe cell, exactly the flood region is revealed and no mine; the game is then won iff every safe cell is revealed, and the timer runs iff the game goes on. The invariant is always kept. |
| Minesweeper.Game.StartTimer | src/components/Minesweeper.tsx:91-93 | an accepted reveal leaves the timer running and changes nothing else. |
| Minesweeper.Game.RevealMine | src/components/Minesweeper.tsx:97-104 | the loss branch reveals only the clicked mine, sets the game lost and stops the timer. |
| Minesweeper.Game.RevealSafe | src/components/Minesweeper.tsx:106-141 | the safe branch reveals exactly the flood region from the cell, then applies the win check. |
| Minesweeper.Game.Settle | src/components/Minesweeper.tsx:133-141 | the win check on the post-fill board sets the game won and stops the timer exactly when the safe cells are all revealed. Nothing else changes. |
| Minesweeper.Game.Finish | src/components/Minesweeper.tsx:101-102 | ending the game sets the given state and stops the timer, and nothing else. |
| Minesweeper.Game.FloodFill | src/components/Minesweeper.tsx:107-128 | the recursion only flips isRevealed from false to true, on exactly the cells of a valid fill from (r, c). It terminates and touches no other state. |
| Minesweeper.Game.FillAround | src/components/Minesweeper.tsx:122-126 | the outer loop scans all three rows of the block, keeping the fill valid. |
| Minesweeper.Game.FillRow | src/components/Minesweeper.tsx:123-125 | the inner loop scans the three cells of one row of the block. |
| Minesweeper.Game.FillFrom | src/components/Minesweeper.tsx:124 | the nested call fills from one neighbour and appends what it revealed. |
| Minesweeper.Game.RevealOne | src/components/Minesweeper.tsx:119 | revealing one cell writes only that cell's isRevealed. |
| Minesweeper.Game.ToggleFlag | src/components/Minesweeper.tsx:145-153 | the right click is ignored when the game is over or the cell is revealed. Otherwise it inverts only that cell's flag and moves minesLeft by −1 or +1, unclamped, keeping the invariant. |
| Minesweeper.Game.FlipFlag | src/components/Minesweeper.tsx:150 | the flag write inverts one cell's flag. |
| Minesweeper.Game.CountFlag | src/components/Minesweeper.tsx:152 | the counter write moves minesLeft by the given step. |
| Minesweeper.Game.Tick | src/components/Minesweeper.tsx:158-161 | a tick adds one second exactly while the timer runs, never after the game has ended, and keeps the invariant. |
| Minesweeper.ToggleFlagTwice | src/components/Minesweeper.tsx:145-153 | two right clicks on the same cell restore the board and minesLeft. |
| Minesweeper.FlagThenReveal | src/components/Minesweeper.tsx:89 | a flagged cell cannot be revealed: after flagging, a click leaves it hidden and the game running. |

## Left out

- `Math.random()` (lines 42-43): candidate positions are an input sequence `picks` of in-bounds draws. Rejection sampling need not terminate, so `InitializeBoard`, `Reset` and the constructor require at least 10 distinct positions among the draws.
- `setInterval` / `clearInterval` (lines 156-164): the browser-scheduled callback is modelled as `Game.Tick`, one firing per call. Scheduling, effect cleanup and wall-clock time are not modelled.
- React state batching and re-rendering: every `set…` call takes effect at once, and the game reads the value last written. `setBoard` of the same shared cells is the in-place write itself.
- JSX rendering, `getCellColor` (lines 181-192), the `onClose` prop and `e.preventDefault()`: presentation and browser plumbing. `getCellContent` returns emoji strings, modelled as the datatype `Content` (`Flag`, `Bomb`, `Number`, `Blank`).
- JavaScript number width: all counts stay at most 81 and `minesLeft` moves by one per click, so unbounded integers agree with the source.
- Minesweeper.Game.RevealCell: the reveal order appears only as a ghost sequence, and the contract fixes the set of revealed cells rather than the order of the writes.
- Minesweeper.Game.RevealCell, Minesweeper.Game.ToggleFlag: both require 0 <= row, col < 9. The source indexes `board[row][col]` without a bounds check (lines 89 and 147), so an out-of-range position would throw. That failure is not modelled. The only callers are the click handlers at lines 252-253, which pass the `rowIndex` / `colIndex` of `board.map`, so the precondition holds at every call.
- Minesweeper.Game.FloodFill: the recursion depth on the JavaScript call stack (at most 81 frames) is not modelled.
- `src/App.tsx`, `src/components/JobExplorer.tsx`, `src/components/JobDetail.tsx`, `src/lib/api.ts`, `src/lib/store.ts` and `src/lib/constants.ts` are not part of this model. They hold window management, a network listing and static data, not game logic.
