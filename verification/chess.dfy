/** Pieces, board squares and the 8x8 grid as a value.
    Row 0 is Black's back rank, row 7 is White's; White moves toward row 0. */
module Chess {

  datatype Color = White | Black

  datatype Kind = Pawn | Knight | Bishop | Rook | Queen | King

  datatype Piece = Piece(color: Color, kind: Kind)

  datatype Option<T> = None | Some(value: T)

  /** Failures of the source that end an operation with an exception: the king
      square of the probe was never found (it is left at -1), or the selected
      square no longer holds a piece (its text is empty). */
  datatype Fault = KingNotFound | EmptySelection

  datatype Result<T> = Success(value: T) | Failure(error: Fault)

  /** The content of one square: a piece, or empty. */
  type Cell = Option<Piece>

  /** The board as a value: 8 rows of 8 cells. */
  type Grid = seq<seq<Cell>>

  const Size: nat := 8

  predicate InBounds(r: int, c: int) {
    0 <= r < Size && 0 <= c < Size
  }

  ghost predicate IsGrid(g: Grid) {
    |g| == Size && forall r :: 0 <= r < Size ==> |g[r]| == Size
  }

  /** Whether `cell` holds a piece of colour `color`. */
  predicate Holds(cell: Cell, color: Color) {
    cell.Some? && cell.value.color == color
  }

  function KingOf(color: Color): Cell {
    Some(Piece(color, King))
  }

  /** The grid `g` with the cell at (r, c) replaced by `x`. */
  function Put(g: Grid, r: int, c: int, x: Cell): (h: Grid)
    requires IsGrid(g) && InBounds(r, c)
    ensures IsGrid(h)
    ensures h[r][c] == x
    ensures forall r', c' :: InBounds(r', c') && (r', c') != (r, c) ==> h[r'][c'] == g[r'][c']
  {
    g[r := g[r][c := x]]
  }

  lemma {:induction false} GridExt(g: Grid, h: Grid)
    requires IsGrid(g) && IsGrid(h)
    requires forall r, c :: InBounds(r, c) ==> g[r][c] == h[r][c]
    ensures g == h
  {
    forall r | 0 <= r < Size
      ensures g[r] == h[r]
    {
      assert forall c :: 0 <= c < Size ==> g[r][c] == h[r][c];
    }
  }

  /** The back-rank order of pieces, file 0 to file 7. */
  function BackRank(c: int): (k: Kind)
    requires 0 <= c < Size
    ensures k == King <==> c == 4
    ensures k == Queen <==> c == 3
  {
    if c == 0 || c == 7 then Rook
    else if c == 1 || c == 6 then Knight
    else if c == 2 || c == 5 then Bishop
    else if c == 3 then Queen
    else King
  }

  /** The standard starting position that the board is created with. */
  function InitialCell(r: int, c: int): (x: Cell)
    requires InBounds(r, c)
    ensures x.Some? <==> r <= 1 || r >= 6
    ensures x.Some? ==> (x.value.color == Black <==> r <= 1)
    ensures x.Some? ==> (x.value.kind == Pawn <==> r == 1 || r == 6)
  {
    if r == 0 then Some(Piece(Black, BackRank(c)))
    else if r == 1 then Some(Piece(Black, Pawn))
    else if r == 6 then Some(Piece(White, Pawn))
    else if r == 7 then Some(Piece(White, BackRank(c)))
    else None
  }

  function InitialGrid(): (g: Grid)
    ensures IsGrid(g)
    ensures forall r, c :: InBounds(r, c) ==> g[r][c] == InitialCell(r, c)
  {
    seq(Size, r requires 0 <= r < Size => seq(Size, c requires 0 <= c < Size => InitialCell(r, c)))
  }
}
