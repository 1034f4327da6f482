/** What a flood fill reveals, stated on sets of positions.

    A fill starts at one cell and stops at the board's edge and at blocked
    cells (those already revealed or flagged when the fill began). From a
    cell whose neighbour count is zero it spreads to every neighbour. The
    revealed cells are recorded as a sequence in the order the fill reached
    them; that order is the witness that every revealed cell is reachable
    from the start. */
module Flood {
  import opened Grid

  /** From every zero cell of s, every unblocked neighbour is in s too. */
  ghost predicate Closed(s: set<Pos>, zero: set<Pos>, blocked: set<Pos>) {
    forall p, q {:trigger q in Neighbours(p), p in s} :: p in s && p in zero && q in Neighbours(p) && q !in blocked ==> q in s
  }

  /** Every cell after the first was reached from an earlier zero cell. */
  ghost predicate Supported(ord: seq<Pos>, zero: set<Pos>) {
    forall k :: 0 < k < |ord| ==>
      exists m :: 0 <= m < k && ord[m] in zero && ord[k] in Neighbours(ord[m])
  }

  /** ord is what a fill from start reveals: nothing when start is off the
      board or blocked; otherwise start first, then only unblocked cells
      reached from earlier zero cells, and the revealed set is closed. */
  ghost predicate IsFloodOrder(ord: seq<Pos>, start: Pos, zero: set<Pos>, blocked: set<Pos>) {
    (if InBounds(start) && start !in blocked then |ord| > 0 && ord[0] == start else ord == [])
    && (forall k :: 0 <= k < |ord| ==> ord[k] !in blocked)
    && Supported(ord, zero)
    && Closed(Elems(ord), zero, blocked)
  }

  /** A fill from start that has revealed ord so far; every cell other than
      start whose count is zero has already had all its neighbours visited. */
  ghost predicate FillInProgress(ord: seq<Pos>, start: Pos, zero: set<Pos>, blocked: set<Pos>) {
    InBounds(start) && start !in blocked && |ord| > 0 && ord[0] == start
    && (forall k :: 0 <= k < |ord| ==> ord[k] !in blocked)
    && Supported(ord, zero)
    && (forall p, q {:trigger q in Neighbours(p), p in ord} :: p in ord && p != start && p in zero && q in Neighbours(p) && q !in blocked ==> q in ord)
  }

  /** Revealing start itself begins a fill. */
  lemma StartFill(start: Pos, zero: set<Pos>, blocked: set<Pos>)
    requires InBounds(start) && start !in blocked
    ensures FillInProgress([start], start, zero, blocked)
  {
  }

  /** Appending what a nested fill from a neighbour of start revealed keeps
      the fill in progress; the nested fill saw as blocked everything
      revealed so far as well as the original blocked cells. */
  lemma ExtendFill(ord: seq<Pos>, sub: seq<Pos>, start: Pos, next: Pos, zero: set<Pos>,
                   revealed0: set<Pos>, flagged: set<Pos>)
    requires FillInProgress(ord, start, zero, revealed0 + flagged)
    requires start in zero
    requires InBounds(next) && next != start ==> next in Neighbours(start)
    requires IsFloodOrder(sub, next, zero, revealed0 + Elems(ord) + flagged)
    ensures FillInProgress(ord + sub, start, zero, revealed0 + flagged)
    ensures InBounds(next) ==> next in revealed0 + flagged + Elems(ord + sub)
  {
    var blocked := revealed0 + flagged;
    var all := ord + sub;
    forall k | 0 <= k < |all| ensures all[k] !in blocked {
      if k >= |ord| { assert all[k] == sub[k - |ord|]; }
    }
    forall k | 0 < k < |all|
      ensures exists m :: 0 <= m < k && all[m] in zero && all[k] in Neighbours(all[m])
    {
      if k < |ord| {
        var m := SupportOf(ord, zero, k);
        assert all[m] == ord[m];
      } else if k == |ord| {
        assert all[0] == start && all[k] == sub[0];
      } else {
        var m := SupportOf(sub, zero, k - |ord|);
        assert all[|ord| + m] == sub[m];
      }
    }
    forall p, q | p in all && p != start && p in zero && q in Neighbours(p) && q !in blocked
      ensures q in all
    {
      if p !in ord {
        assert p in Elems(sub);
      }
    }
  }

  /** A fill whose start has had all its neighbours visited (or whose start
      has a non-zero count) is complete. */
  lemma FinishFill(ord: seq<Pos>, start: Pos, zero: set<Pos>, blocked: set<Pos>)
    requires FillInProgress(ord, start, zero, blocked)
    requires start in zero ==> Neighbours(start) <= blocked + Elems(ord)
    ensures IsFloodOrder(ord, start, zero, blocked)
  {
  }

  /** The earlier zero cell that reached ord[k]. */
  lemma SupportOf(ord: seq<Pos>, zero: set<Pos>, k: int) returns (m: int)
    requires Supported(ord, zero) && 0 < k < |ord|
    ensures 0 <= m < k && ord[m] in zero && ord[k] in Neighbours(ord[m])
  {
    var p := ord[k];
    m :| 0 <= m < k && ord[m] in zero && p in Neighbours(ord[m]);
  }

  /** Everything a fill in progress has revealed lies on the board. */
  lemma FillOnBoard(ord: seq<Pos>, start: Pos, zero: set<Pos>, blocked: set<Pos>)
    requires FillInProgress(ord, start, zero, blocked)
    ensures Elems(ord) <= AllPos()
  {
    forall k | 0 <= k < |ord| ensures ord[k] in AllPos() {
      if k == 0 {
        InBoundsInAllPos(start);
      } else {
        var m := SupportOf(ord, zero, k);
      }
    }
  }

  /** The 3x3 scan around start has got to offset (i, j), row by row: every
      neighbour at an earlier offset is in covered. */
  ghost predicate ScannedTo(start: Pos, i: int, j: int, covered: set<Pos>) {
    forall q :: q in Neighbours(start) && (q.0 - start.0 < i || (q.0 - start.0 == i && q.1 - start.1 < j)) ==>
      q in covered
  }

  /** Nothing is owed before the first offset. */
  lemma ScanBegins(start: Pos, covered: set<Pos>)
    ensures ScannedTo(start, -1, -1, covered)
  {
  }

  /** Visiting offset (i, j) of the block around (r, c), the cell (nr, nc),
      moves the scan to the next column, provided that cell, when on the
      board, is covered once sub is appended to ord. */
  lemma ScanVisits(r: int, c: int, i: int, j: int, nr: int, nc: int, blocked: set<Pos>, ord: seq<Pos>, sub: seq<Pos>)
    requires nr == r + i && nc == c + j
    requires ScannedTo((r, c), i, j, blocked + Elems(ord))
    requires InBounds((nr, nc)) ==> (nr, nc) in blocked + Elems(ord + sub)
    ensures ScannedTo((r, c), i, j + 1, blocked + Elems(ord + sub))
  {
    var covered := blocked + Elems(ord + sub);
    forall q | q in Neighbours((r, c)) && (q.0 - r < i || (q.0 - r == i && q.1 - c < j + 1))
      ensures q in covered
    {
      if q.0 - r == i && q.1 - c == j {
        assert q == (nr, nc);
      } else if q !in blocked {
        var k :| 0 <= k < |ord| && ord[k] == q;
        assert (ord + sub)[k] == q;
      }
    }
  }

  /** After the last column of a row the scan moves to the next row. */
  lemma ScanRowDone(start: Pos, i: int, covered: set<Pos>)
    requires ScannedTo(start, i, 2, covered)
    ensures ScannedTo(start, i + 1, -1, covered)
  {
  }

  /** After the last row every neighbour is covered. */
  lemma ScanEnds(start: Pos, covered: set<Pos>)
    requires ScannedTo(start, 2, -1, covered)
    ensures Neighbours(start) <= covered
  {
  }

  /** The revealed region lies inside every closed set that contains start:
      together with closedness, it is the least such set. */
  lemma FloodOrderLeast(ord: seq<Pos>, start: Pos, zero: set<Pos>, blocked: set<Pos>, s: set<Pos>)
    requires IsFloodOrder(ord, start, zero, blocked)
    requires InBounds(start) && start !in blocked ==> start in s
    requires Closed(s, zero, blocked)
    ensures Elems(ord) <= s
  {
    PrefixInside(ord, start, zero, blocked, s, |ord|);
  }

  lemma {:induction false} PrefixInside(ord: seq<Pos>, start: Pos, zero: set<Pos>, blocked: set<Pos>,
                                        s: set<Pos>, n: nat)
    requires IsFloodOrder(ord, start, zero, blocked)
    requires InBounds(start) && start !in blocked ==> start in s
    requires Closed(s, zero, blocked)
    requires n <= |ord|
    ensures forall k :: 0 <= k < n ==> ord[k] in s
  {
    if n > 0 {
      PrefixInside(ord, start, zero, blocked, s, n - 1);
      if n - 1 > 0 {
        var m := SupportOf(ord, zero, n - 1);
        assert ord[m] in s;
      }
    }
  }

  /** Any two fills from the same start over the same board reveal the same
      cells, so a flood order pins the revealed region down exactly. */
  lemma FloodRegionUnique(ord1: seq<Pos>, ord2: seq<Pos>, start: Pos, zero: set<Pos>, blocked: set<Pos>)
    requires IsFloodOrder(ord1, start, zero, blocked)
    requires IsFloodOrder(ord2, start, zero, blocked)
    ensures Elems(ord1) == Elems(ord2)
  {
    FloodOrderLeast(ord1, start, zero, blocked, Elems(ord2));
    FloodOrderLeast(ord2, start, zero, blocked, Elems(ord1));
  }

  /** No zero cell that is not a mine has a mine beside it. */
  ghost predicate ZeroCellsBorderNoMines(zero: set<Pos>, mines: set<Pos>) {
    forall p, q :: p in zero && p !in mines && q in Neighbours(p) ==> q !in mines
  }

  /** A fill from a cell that is not a mine never reveals a mine. */
  lemma FloodOrderAvoidsMines(ord: seq<Pos>, start: Pos, zero: set<Pos>, blocked: set<Pos>,
                              mines: set<Pos>)
    requires IsFloodOrder(ord, start, zero, blocked)
    requires start !in mines
    requires ZeroCellsBorderNoMines(zero, mines)
    ensures Elems(ord) !! mines
  {
    PrefixAvoidsMines(ord, start, zero, blocked, mines, |ord|);
  }

  lemma {:induction false} PrefixAvoidsMines(ord: seq<Pos>, start: Pos, zero: set<Pos>, blocked: set<Pos>,
                                             mines: set<Pos>, n: nat)
    requires IsFloodOrder(ord, start, zero, blocked)
    requires start !in mines
    requires ZeroCellsBorderNoMines(zero, mines)
    requires n <= |ord|
    ensures forall k :: 0 <= k < n ==> ord[k] !in mines
  {
    if n > 0 {
      PrefixAvoidsMines(ord, start, zero, blocked, mines, n - 1);
      if n - 1 > 0 {
        var m := SupportOf(ord, zero, n - 1);
        assert ord[m] !in mines;
      }
    }
  }
}
