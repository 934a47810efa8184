/** The board object: the grid, whose turn it is, the move history and the
    click selection, with the operations that read and change them in place. */
module Game {
  import opened Chess
  import opened Rules
  import opened History

  /** What a click led to: the source returns nothing and shows a dialog on a
      probe hit; here the probe's answer and the failures are returned. */
  datatype Click = Ignored | Selected | Deselected | Rejected | Moved(checkmate: bool) | Failed(fault: Fault)

  /** The colour whose king isCheckmate(white) looks for. */
  function Side(white: bool): (color: Color)
    ensures color == White <==> white
  {
    if white then White else Black
  }

  /** isCorrectTurn: the piece belongs to the side to move. */
  function IsCorrectTurn(whiteTurn: bool, p: Piece): (ok: bool)
    ensures ok <==> p.color == Side(whiteTurn)
  {
    (whiteTurn && p.color == White) || (!whiteTurn && p.color == Black)
  }

  class Board {
    var grid: array2<Cell>
    /** The grid's contents as a value. */
    ghost var cells: Grid
    var whiteTurn: bool
    var history: seq<Move>
    var selected: bool
    var selRow: int
    var selCol: int

    ghost predicate Valid()
      reads this, grid
    {
      grid.Length0 == Size && grid.Length1 == Size &&
      IsGrid(cells) && (forall r, c :: InBounds(r, c) ==> cells[r][c] == grid[r, c]) &&
      (selected ==> InBounds(selRow, selCol)) &&
      forall i :: 0 <= i < |history| ==> history[i].InBoard()
    }

    /** A new game: the starting position, White to move, nothing selected, no history. */
    constructor ()
      ensures Valid() && fresh(grid)
      ensures cells == InitialGrid()
      ensures whiteTurn && !selected && history == []
    {
      grid := new Cell[Size, Size]((r, c) requires InBounds(r, c) => InitialCell(r, c));
      whiteTurn := true;
      history := [];
      selected := false;
      selRow, selCol := 0, 0;
      cells := InitialGrid();
    }

    /** straightMove: scans from the source toward the target, one square at a time. */
    method StraightMove(sr: int, sc: int, tr: int, tc: int) returns (clear: bool)
      requires Valid() && InBounds(sr, sc) && InBounds(tr, tc)
      ensures clear == StraightClear(cells, sr, sc, tr, tc)
    {
      if sr != tr && sc != tc {
        return false;
      }
      var dr, dc := Compare(tr, sr), Compare(tc, sc);
      var r, c := sr + dr, sc + dc;
      ghost var k := 1;
      ghost var n: int := Dist(sr, sc, tr, tc);
      while r != tr || c != tc
        invariant r == Along(sr, tr, k) && c == Along(sc, tc, k)
        invariant 1 <= k && (n == 0 || k <= n)
        invariant forall j :: 0 < j < k ==> cells[Along(sr, tr, j)][Along(sc, tc, j)] == None
        decreases n - k
      {
        if grid[r, c].Some? {
          return false;
        }
        r, c := r + dr, c + dc;
        k := k + 1;
      }
      return true;
    }

    /** diagonalMove: scans from the source toward the target until the target row. */
    method DiagonalMove(sr: int, sc: int, tr: int, tc: int) returns (clear: bool)
      requires Valid() && InBounds(sr, sc) && InBounds(tr, tc)
      ensures clear == DiagonalClear(cells, sr, sc, tr, tc)
    {
      if Abs(tr - sr) != Abs(tc - sc) {
        return false;
      }
      var dr, dc := Compare(tr, sr), Compare(tc, sc);
      var r, c := sr + dr, sc + dc;
      ghost var k := 1;
      ghost var n: int := Dist(sr, sc, tr, tc);
      while r != tr
        invariant r == Along(sr, tr, k) && c == Along(sc, tc, k)
        invariant 1 <= k && (n == 0 || k <= n)
        invariant forall j :: 0 < j < k ==> cells[Along(sr, tr, j)][Along(sc, tc, j)] == None
        decreases n - k
      {
        if grid[r, c].Some? {
          return false;
        }
        r, c := r + dr, c + dc;
        k := k + 1;
      }
      return true;
    }

    /** isLegalMove: the source square must hold a piece (the source reads its letters). */
    method IsLegalMove(sr: int, sc: int, tr: int, tc: int) returns (legal: bool)
      requires Valid() && InBounds(sr, sc) && InBounds(tr, tc) && grid[sr, sc].Some?
      ensures legal == Legal(cells, sr, sc, tr, tc)
    {
      var piece := grid[sr, sc].value;
      var target := grid[tr, tc];
      if Holds(target, piece.color) {
        return false;
      }
      var dr, dc := tr - sr, tc - sc;
      match piece.kind
      case Pawn =>
        legal := PawnMove(piece.color, target, sr, sc, tr, tc);
      case Rook =>
        legal := StraightMove(sr, sc, tr, tc);
      case Bishop =>
        legal := DiagonalMove(sr, sc, tr, tc);
      case Queen =>
        legal := StraightMove(sr, sc, tr, tc);
        if !legal {
          legal := DiagonalMove(sr, sc, tr, tc);
        }
      case Knight =>
        legal := KnightJump(dr, dc);
      case King =>
        legal := KingStep(dr, dc);
    }

    /** makeMove: pushes the record, then moves the piece; no legality check. */
    method MakeMove(sr: int, sc: int, tr: int, tc: int)
      requires Valid() && InBounds(sr, sc) && InBounds(tr, tc)
      modifies this`history, this`cells, grid
      ensures Valid()
      ensures cells == Apply(old(cells), sr, sc, tr, tc)
      ensures history == old(history) + [Record(old(cells), sr, sc, tr, tc)]
    {
      history := history + [Move(sr, sc, tr, tc, grid[tr, tc])];
      grid[tr, tc] := grid[sr, sc];
      grid[sr, sc] := None;
      cells := Apply(cells, sr, sc, tr, tc);
    }

    /** undoMove: with an empty history nothing changes; otherwise the last
        move is popped and reversed, and the turn passes back. */
    method UndoMove()
      requires Valid()
      modifies this`history, this`whiteTurn, this`cells, grid
      ensures Valid()
      ensures old(history) == [] ==>
                history == [] && whiteTurn == old(whiteTurn) && cells == old(cells)
      ensures old(history) != [] ==>
                history == old(history)[..|old(history)| - 1] &&
                cells == Revert(old(cells), old(history)[|old(history)| - 1]) &&
                whiteTurn == !old(whiteTurn)
    {
      if |history| == 0 {
        return;
      }
      var m := history[|history| - 1];
      history := history[..|history| - 1];
      grid[m.sr, m.sc] := grid[m.tr, m.tc];
      grid[m.tr, m.tc] := m.captured;
      whiteTurn := !whiteTurn;
      cells := Revert(cells, m);
    }

    /** isCheckmate: finds the last king of the side in the scan, then asks
        whether any enemy piece may legally move onto it. ScanMatchesProbe
        equates the result with the probe. */
    method IsCheckmate(white: bool) returns (res: Result<bool>)
      requires Valid()
      ensures res == ScanResult(cells, Side(white))
    {
      var color := Side(white);
      var kingR, kingC := FindKing(color);
      res := ScanForAttacker(color, kingR, kingC);
    }

    /** The first half of isCheckmate: the king square starts at (-1, -1) and
        is overwritten by every king of `color` met in row-major order. */
    method FindKing(color: Color) returns (kingR: int, kingC: int)
      requires Valid()
      ensures (kingR, kingC) == KingSquare(cells, color, Size, 0)
    {
      kingR, kingC := -1, -1;
      var r := 0;
      while r < Size
        invariant 0 <= r <= Size
        invariant (kingR, kingC) == KingSquare(cells, color, r, 0)
      {
        var c := 0;
        while c < Size
          invariant 0 <= c <= Size
          invariant (kingR, kingC) == KingSquare(cells, color, r, c)
        {
          if grid[r, c] == KingOf(color) {
            kingR, kingC := r, c;
          }
          c := c + 1;
        }
        r := r + 1;
      }
    }

    /** The second half of isCheckmate: the first enemy piece, in row-major
        order, that may move onto (kingR, kingC) answers true; with the king
        square never found, the first enemy piece indexes outside the board,
        reported as KingNotFound. */
    method ScanForAttacker(color: Color, kingR: int, kingC: int) returns (res: Result<bool>)
      requires Valid()
      ensures res == ScanFrom(cells, color, kingR, kingC, 0, 0)
    {
      var r := 0;
      while r < Size
        invariant 0 <= r <= Size
        invariant ScanFrom(cells, color, kingR, kingC, r, 0) == ScanFrom(cells, color, kingR, kingC, 0, 0)
      {
        var c := 0;
        while c < Size
          invariant 0 <= c <= Size
          invariant ScanFrom(cells, color, kingR, kingC, r, c) == ScanFrom(cells, color, kingR, kingC, 0, 0)
        {
          if grid[r, c].Some? && grid[r, c].value.color != color {
            if !InBounds(kingR, kingC) {
              return Failure(KingNotFound);
            }
            var legal := IsLegalMove(r, c, kingR, kingC);
            if legal {
              return Success(true);
            }
          }
          c := c + 1;
        }
        r := r + 1;
      }
      return Success(false);
    }

    /** handleClick at (r, c). With no selection, a click on a piece of the side
        to move selects it and any other click does nothing. With a selection, a
        click on the selected square clears it; a click elsewhere plays the move
        when it is legal, passes the turn and runs the probe for the side now to
        move, and clears the selection unless the source would have thrown. */
    method HandleClick(r: int, c: int) returns (outcome: Click)
      requires Valid() && InBounds(r, c)
      modifies this`selected, this`selRow, this`selCol, this`whiteTurn, this`history, this`cells, grid
      ensures Valid()
      ensures !old(selected) ==>
                cells == old(cells) && history == old(history) && whiteTurn == old(whiteTurn) &&
                if old(cells)[r][c].Some? && IsCorrectTurn(old(whiteTurn), old(cells)[r][c].value)
                then outcome == Selected && selected && selRow == r && selCol == c
                else outcome == Ignored && !selected && selRow == old(selRow) && selCol == old(selCol)
      ensures old(selected) && (r, c) == (old(selRow), old(selCol)) ==>
                outcome == Deselected && !selected &&
                cells == old(cells) && history == old(history) && whiteTurn == old(whiteTurn)
      ensures old(selected) && (r, c) != (old(selRow), old(selCol)) && old(cells)[old(selRow)][old(selCol)].None? ==>
                outcome == Failed(EmptySelection) && selected && selRow == old(selRow) && selCol == old(selCol) &&
                cells == old(cells) && history == old(history) && whiteTurn == old(whiteTurn)
      ensures old(selected) && (r, c) != (old(selRow), old(selCol)) && old(cells)[old(selRow)][old(selCol)].Some? &&
              !Legal(old(cells), old(selRow), old(selCol), r, c) ==>
                outcome == Rejected && !selected &&
                cells == old(cells) && history == old(history) && whiteTurn == old(whiteTurn)
      ensures old(selected) && (r, c) != (old(selRow), old(selCol)) && old(cells)[old(selRow)][old(selCol)].Some? &&
              Legal(old(cells), old(selRow), old(selCol), r, c) ==>
                cells == Apply(old(cells), old(selRow), old(selCol), r, c) &&
                history == old(history) + [Record(old(cells), old(selRow), old(selCol), r, c)] &&
                whiteTurn == !old(whiteTurn) &&
                match Probe(cells, Side(whiteTurn))
                case Success(mate) => outcome == Moved(mate) && !selected
                case Failure(fault) => outcome == Failed(fault) && selected && selRow == old(selRow) && selCol == old(selCol)
    {
      if !selected {
        var cell := grid[r, c];
        if cell.Some? && IsCorrectTurn(whiteTurn, cell.value) {
          selected, selRow, selCol := true, r, c;
          outcome := Selected;
        } else {
          outcome := Ignored;
        }
        return;
      }
      if r == selRow && c == selCol {
        selected := false;
        return Deselected;
      }
      if grid[selRow, selCol].None? {
        return Failed(EmptySelection);
      }
      var legal := IsLegalMove(selRow, selCol, r, c);
      if legal {
        MakeMove(selRow, selCol, r, c);
        whiteTurn := !whiteTurn;
        var probe := IsCheckmate(whiteTurn);
        ScanMatchesProbe(cells, Side(whiteTurn));
        if probe.Failure? {
          return Failed(probe.error);
        }
        outcome := Moved(probe.value);
      } else {
        outcome := Rejected;
      }
      selected := false;
    }

    /** A legal move entered by a click, then undone, leaves the grid, the
        turn and the history as they were. */
    method ClickThenUndo(r: int, c: int) returns (outcome: Click)
      requires Valid() && InBounds(r, c) && selected && (r, c) != (selRow, selCol)
      requires grid[selRow, selCol].Some? && Legal(cells, selRow, selCol, r, c)
      modifies this`selected, this`selRow, this`selCol, this`whiteTurn, this`history, this`cells, grid
      ensures Valid()
      ensures cells == old(cells) && whiteTurn == old(whiteTurn) && history == old(history)
    {
      ghost var g, sr, sc := cells, selRow, selCol;
      outcome := HandleClick(r, c);
      UndoMove();
      RoundTrip(g, sr, sc, r, c);
    }
  }
}
