/** The move record kept on the history stack, and what making and undoing a
    move do to the grid. */
module History {
  import opened Chess

  /** A played move: from (sr, sc) to (tr, tc), with what stood on the target before. */
  datatype Move = Move(sr: int, sc: int, tr: int, tc: int, captured: Cell) {
    predicate InBoard() {
      InBounds(sr, sc) && InBounds(tr, tc)
    }
  }

  /** The record makeMove pushes before it changes the grid. */
  function Record(g: Grid, sr: int, sc: int, tr: int, tc: int): (m: Move)
    requires IsGrid(g) && InBounds(sr, sc) && InBounds(tr, tc)
    ensures m.InBoard() && m.captured == g[tr][tc]
    ensures (m.sr, m.sc, m.tr, m.tc) == (sr, sc, tr, tc)
  {
    Move(sr, sc, tr, tc, g[tr][tc])
  }

  /** makeMove on the grid: the source piece goes to the target, the source is
      cleared, and no other cell changes. The target is written first, so a move
      onto its own square leaves that square empty. */
  function Apply(g: Grid, sr: int, sc: int, tr: int, tc: int): (h: Grid)
    requires IsGrid(g) && InBounds(sr, sc) && InBounds(tr, tc)
    ensures IsGrid(h)
    ensures h[sr][sc] == None
    ensures (sr, sc) != (tr, tc) ==> h[tr][tc] == g[sr][sc]
    ensures forall r, c :: InBounds(r, c) && (r, c) != (sr, sc) && (r, c) != (tr, tc) ==> h[r][c] == g[r][c]
  {
    Put(Put(g, tr, tc, g[sr][sc]), sr, sc, None)
  }

  /** undoMove on the grid: the piece on the target goes back to the source, and
      the target gets the captured content back. */
  function Revert(g: Grid, m: Move): (h: Grid)
    requires IsGrid(g) && m.InBoard()
    ensures IsGrid(h)
    ensures h[m.tr][m.tc] == m.captured
    ensures (m.sr, m.sc) != (m.tr, m.tc) ==> h[m.sr][m.sc] == g[m.tr][m.tc]
    ensures forall r, c :: InBounds(r, c) && (r, c) != (m.sr, m.sc) && (r, c) != (m.tr, m.tc) ==> h[r][c] == g[r][c]
  {
    Put(Put(g, m.sr, m.sc, g[m.tr][m.tc]), m.tr, m.tc, m.captured)
  }

  /** Undoing a move with the record made for it gives back the grid cell for
      cell, for any two in-board squares (a move onto its own square included). */
  lemma RoundTrip(g: Grid, sr: int, sc: int, tr: int, tc: int)
    requires IsGrid(g) && InBounds(sr, sc) && InBounds(tr, tc)
    ensures Revert(Apply(g, sr, sc, tr, tc), Record(g, sr, sc, tr, tc)) == g
  {
    var h := Revert(Apply(g, sr, sc, tr, tc), Record(g, sr, sc, tr, tc));
    GridExt(h, g);
  }
}
