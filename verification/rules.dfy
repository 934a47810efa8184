/** The move-legality rules and the one-ply checkmate probe, stated over a
    grid value. The board class checks its loops against these. */
module Rules {
  import opened Chess

  function Abs(x: int): (a: nat)
    ensures a == x || a == -x
  {
    if x < 0 then -x else x
  }

  function Max(a: int, b: int): (m: int)
    ensures m >= a && m >= b && (m == a || m == b)
  {
    if a < b then b else a
  }

  /** Java's Integer.compare: the sign of a - b. */
  function Compare(a: int, b: int): (s: int)
    ensures s == 0 <==> a == b
    ensures s == 1 <==> a > b
    ensures s == -1 <==> a < b
  {
    if a < b then -1 else if a == b then 0 else 1
  }

  function Opposite(color: Color): (o: Color)
    ensures o != color
  {
    if color == White then Black else White
  }

  /** Number of king steps from (sr, sc) to (tr, tc). */
  function Dist(sr: int, sc: int, tr: int, tc: int): nat {
    Max(Abs(tr - sr), Abs(tc - sc))
  }

  /** The coordinate k steps from s in the direction of t. */
  function Along(s: int, t: int, k: int): int {
    if s < t then s + k else if s > t then s - k else s
  }

  /** Source and target share a row, a column or a diagonal. */
  predicate OnLine(sr: int, sc: int, tr: int, tc: int) {
    sr == tr || sc == tc || Abs(tr - sr) == Abs(tc - sc)
  }

  /** Every square the scan visits strictly between source and target is empty. */
  ghost predicate PathClear(g: Grid, sr: int, sc: int, tr: int, tc: int)
    requires IsGrid(g) && InBounds(sr, sc) && InBounds(tr, tc) && OnLine(sr, sc, tr, tc)
  {
    forall k :: 0 < k < Dist(sr, sc, tr, tc) ==> g[Along(sr, tr, k)][Along(sc, tc, k)] == None
  }

  /** What straightMove accepts (a zero-length move included). */
  ghost predicate StraightClear(g: Grid, sr: int, sc: int, tr: int, tc: int)
    requires IsGrid(g) && InBounds(sr, sc) && InBounds(tr, tc)
  {
    (sr == tr || sc == tc) && PathClear(g, sr, sc, tr, tc)
  }

  /** What diagonalMove accepts (a zero-length move included). */
  ghost predicate DiagonalClear(g: Grid, sr: int, sc: int, tr: int, tc: int)
    requires IsGrid(g) && InBounds(sr, sc) && InBounds(tr, tc)
  {
    Abs(tr - sr) == Abs(tc - sc) && PathClear(g, sr, sc, tr, tc)
  }

  // An independent description of the squares between two squares of a line.

  predicate StrictlyBetween(a: int, x: int, b: int) {
    a < x < b || b < x < a
  }

  predicate BetweenStraight(sr: int, sc: int, tr: int, tc: int, r: int, c: int) {
    (sr == tr && r == sr && StrictlyBetween(sc, c, tc)) ||
    (sc == tc && c == sc && StrictlyBetween(sr, r, tr))
  }

  predicate BetweenDiagonal(sr: int, sc: int, tr: int, tc: int, r: int, c: int) {
    StrictlyBetween(sr, r, tr) && StrictlyBetween(sc, c, tc) && Abs(r - sr) == Abs(c - sc)
  }

  ghost predicate EmptyBetweenStraight(g: Grid, sr: int, sc: int, tr: int, tc: int)
    requires IsGrid(g)
  {
    forall r, c :: InBounds(r, c) && BetweenStraight(sr, sc, tr, tc, r, c) ==> g[r][c] == None
  }

  ghost predicate EmptyBetweenDiagonal(g: Grid, sr: int, sc: int, tr: int, tc: int)
    requires IsGrid(g)
  {
    forall r, c :: InBounds(r, c) && BetweenDiagonal(sr, sc, tr, tc, r, c) ==> g[r][c] == None
  }

  lemma StraightClearIff(g: Grid, sr: int, sc: int, tr: int, tc: int)
    requires IsGrid(g) && InBounds(sr, sc) && InBounds(tr, tc)
    ensures StraightClear(g, sr, sc, tr, tc) <==>
            (sr == tr || sc == tc) && EmptyBetweenStraight(g, sr, sc, tr, tc)
  {
    if sr == tr || sc == tc {
      if StraightClear(g, sr, sc, tr, tc) {
        forall r, c | InBounds(r, c) && BetweenStraight(sr, sc, tr, tc, r, c)
          ensures g[r][c] == None
        {
          var k := Abs(r - sr) + Abs(c - sc);
          assert Along(sr, tr, k) == r && Along(sc, tc, k) == c;
        }
      }
      if EmptyBetweenStraight(g, sr, sc, tr, tc) {
        forall k | 0 < k < Dist(sr, sc, tr, tc)
          ensures g[Along(sr, tr, k)][Along(sc, tc, k)] == None
        {
          assert BetweenStraight(sr, sc, tr, tc, Along(sr, tr, k), Along(sc, tc, k));
        }
      }
    }
  }

  lemma DiagonalClearIff(g: Grid, sr: int, sc: int, tr: int, tc: int)
    requires IsGrid(g) && InBounds(sr, sc) && InBounds(tr, tc)
    ensures DiagonalClear(g, sr, sc, tr, tc) <==>
            Abs(tr - sr) == Abs(tc - sc) && EmptyBetweenDiagonal(g, sr, sc, tr, tc)
  {
    if Abs(tr - sr) == Abs(tc - sc) {
      if DiagonalClear(g, sr, sc, tr, tc) {
        forall r, c | InBounds(r, c) && BetweenDiagonal(sr, sc, tr, tc, r, c)
          ensures g[r][c] == None
        {
          var k := Abs(r - sr);
          assert Along(sr, tr, k) == r && Along(sc, tc, k) == c;
        }
      }
      if EmptyBetweenDiagonal(g, sr, sc, tr, tc) {
        forall k | 0 < k < Dist(sr, sc, tr, tc)
          ensures g[Along(sr, tr, k)][Along(sc, tc, k)] == None
        {
          assert BetweenDiagonal(sr, sc, tr, tc, Along(sr, tr, k), Along(sc, tc, k));
        }
      }
    }
  }

  /** Forward direction of a pawn: White toward row 0, Black toward row 7. */
  function Direction(color: Color): (d: int)
    ensures d == -1 || d == 1
    ensures d < 0 <==> color == White
  {
    if color == White then -1 else 1
  }

  /** pawnMove: a pawn of `color` moving onto a square holding `target`. */
  function PawnMove(color: Color, target: Cell, sr: int, sc: int, tr: int, tc: int): bool {
    var dir := Direction(color);
    if sc == tc && target.None? then tr - sr == dir
    else Abs(tc - sc) == 1 && tr - sr == dir && target.Some?
  }

  /** The knight test as the source writes it: a product of the offsets. */
  function KnightJump(dr: int, dc: int): bool {
    Abs(dr * dc) == 2
  }

  /** The king test as the source writes it: Chebyshev distance one. */
  function KingStep(dr: int, dc: int): bool {
    Max(Abs(dr), Abs(dc)) == 1
  }

  /** isLegalMove: no capture of the mover's own colour, then the rule of the moving piece. */
  ghost function Legal(g: Grid, sr: int, sc: int, tr: int, tc: int): (legal: bool)
    requires IsGrid(g) && InBounds(sr, sc) && InBounds(tr, tc) && g[sr][sc].Some?
    ensures legal ==> !Holds(g[tr][tc], g[sr][sc].value.color)
    ensures legal ==> (sr, sc) != (tr, tc)
  {
    var p := g[sr][sc].value;
    var target := g[tr][tc];
    if Holds(target, p.color) then false
    else match p.kind
      case Pawn => PawnMove(p.color, target, sr, sc, tr, tc)
      case Rook => StraightClear(g, sr, sc, tr, tc)
      case Bishop => DiagonalClear(g, sr, sc, tr, tc)
      case Queen => StraightClear(g, sr, sc, tr, tc) || DiagonalClear(g, sr, sc, tr, tc)
      case Knight => KnightJump(tr - sr, tc - sc)
      case King => KingStep(tr - sr, tc - sc)
  }

  /** The knight offsets written out. */
  predicate KnightShape(dr: int, dc: int) {
    (Abs(dr) == 1 && Abs(dc) == 2) || (Abs(dr) == 2 && Abs(dc) == 1)
  }

  lemma ProductAtLeast(a: nat, b: nat)
    requires a >= 1 && b >= 1
    ensures a * b >= a && a * b >= b
  {
    assert a * b == a * (b - 1) + a;
    assert a * b == (a - 1) * b + b;
  }

  lemma KnightJumpIff(dr: int, dc: int)
    ensures KnightJump(dr, dc) <==> KnightShape(dr, dc)
  {
    var a: int, b: int := Abs(dr), Abs(dc);
    assert Abs(dr * dc) == a * b by {
      if dr < 0 && dc < 0 { assert dr * dc == a * b; }
      else if dr < 0 { assert dr * dc == -(a * b); }
      else if dc < 0 { assert dr * dc == -(a * b); }
    }
    if a == 0 || b == 0 {
    } else if a >= 3 || b >= 3 {
      ProductAtLeast(a, b);
    } else {
      assert a == 1 || a == 2;
      assert b == 1 || b == 2;
    }
  }

  /** A knight move is legal exactly for the eight knight offsets onto a
      square not held by its own colour, whatever stands in between. */
  lemma KnightLegal(g: Grid, sr: int, sc: int, tr: int, tc: int)
    requires IsGrid(g) && InBounds(sr, sc) && InBounds(tr, tc)
    requires g[sr][sc].Some? && g[sr][sc].value.kind == Knight
    ensures Legal(g, sr, sc, tr, tc) <==>
            !Holds(g[tr][tc], g[sr][sc].value.color) && KnightShape(tr - sr, tc - sc)
  {
    KnightJumpIff(tr - sr, tc - sc);
  }

  /** A king move is legal exactly onto an adjacent square not held by its own colour. */
  lemma KingLegal(g: Grid, sr: int, sc: int, tr: int, tc: int)
    requires IsGrid(g) && InBounds(sr, sc) && InBounds(tr, tc)
    requires g[sr][sc].Some? && g[sr][sc].value.kind == King
    ensures Legal(g, sr, sc, tr, tc) <==>
            !Holds(g[tr][tc], g[sr][sc].value.color) &&
            Abs(tr - sr) <= 1 && Abs(tc - sc) <= 1 && (tr, tc) != (sr, sc)
  {
  }

  /** A pawn moves one row forward: straight onto an empty square, or one
      column aside onto an enemy piece. Nothing else, so never two rows. */
  lemma PawnLegal(g: Grid, sr: int, sc: int, tr: int, tc: int)
    requires IsGrid(g) && InBounds(sr, sc) && InBounds(tr, tc)
    requires g[sr][sc].Some? && g[sr][sc].value.kind == Pawn
    ensures var color := g[sr][sc].value.color;
            Legal(g, sr, sc, tr, tc) <==>
            tr - sr == Direction(color) &&
            ((tc == sc && g[tr][tc].None?) ||
             (Abs(tc - sc) == 1 && Holds(g[tr][tc], Opposite(color))))
  {
  }

  /** A rook moves along its row or column, and every square strictly
      between is empty whatever its colour. */
  lemma RookLegal(g: Grid, sr: int, sc: int, tr: int, tc: int)
    requires IsGrid(g) && InBounds(sr, sc) && InBounds(tr, tc)
    requires g[sr][sc].Some? && g[sr][sc].value.kind == Rook
    ensures Legal(g, sr, sc, tr, tc) <==>
            !Holds(g[tr][tc], g[sr][sc].value.color) &&
            (sr == tr || sc == tc) && EmptyBetweenStraight(g, sr, sc, tr, tc)
  {
    StraightClearIff(g, sr, sc, tr, tc);
  }

  /** A bishop moves along a diagonal, and every square strictly between is empty. */
  lemma BishopLegal(g: Grid, sr: int, sc: int, tr: int, tc: int)
    requires IsGrid(g) && InBounds(sr, sc) && InBounds(tr, tc)
    requires g[sr][sc].Some? && g[sr][sc].value.kind == Bishop
    ensures Legal(g, sr, sc, tr, tc) <==>
            !Holds(g[tr][tc], g[sr][sc].value.color) &&
            Abs(tr - sr) == Abs(tc - sc) && EmptyBetweenDiagonal(g, sr, sc, tr, tc)
  {
    DiagonalClearIff(g, sr, sc, tr, tc);
  }

  /** A queen move is legal exactly when it would be for a rook or a bishop. */
  lemma QueenLegal(g: Grid, sr: int, sc: int, tr: int, tc: int)
    requires IsGrid(g) && InBounds(sr, sc) && InBounds(tr, tc)
    requires g[sr][sc].Some? && g[sr][sc].value.kind == Queen
    ensures Legal(g, sr, sc, tr, tc) <==>
            !Holds(g[tr][tc], g[sr][sc].value.color) &&
            (((sr == tr || sc == tc) && EmptyBetweenStraight(g, sr, sc, tr, tc)) ||
             (Abs(tr - sr) == Abs(tc - sc) && EmptyBetweenDiagonal(g, sr, sc, tr, tc)))
  {
    StraightClearIff(g, sr, sc, tr, tc);
    DiagonalClearIff(g, sr, sc, tr, tc);
  }

  // The checkmate probe.

  /** (r1, c1) comes before (r2, c2) in the row-by-row scan. */
  predicate Precedes(r1: int, c1: int, r2: int, c2: int) {
    r1 < r2 || (r1 == r2 && c1 < c2)
  }

  /** The last square holding the king of `color` among those the scan visits
      before (r, c); the probe keeps overwriting its king square, so the last one wins. */
  function LastKing(g: Grid, color: Color, r: int, c: int): (k: Option<(int, int)>)
    requires IsGrid(g) && 0 <= r <= Size && 0 <= c <= Size && (r == Size ==> c == 0)
    ensures k.Some? ==> InBounds(k.value.0, k.value.1) && Precedes(k.value.0, k.value.1, r, c)
    ensures k.Some? ==> g[k.value.0][k.value.1] == KingOf(color)
    ensures k.Some? ==> forall r', c' ::
              (InBounds(r', c') && Precedes(r', c', r, c) && Precedes(k.value.0, k.value.1, r', c')) ==>
              g[r'][c'] != KingOf(color)
    ensures k.None? <==> forall r', c' :: InBounds(r', c') && Precedes(r', c', r, c) ==> g[r'][c'] != KingOf(color)
    decreases r, c
  {
    if c == 0 then
      if r == 0 then None else LastKing(g, color, r - 1, Size)
    else if g[r][c - 1] == KingOf(color) then Some((r, c - 1))
    else LastKing(g, color, r, c - 1)
  }

  /** The king square the scan holds after visiting the squares before (r, c):
      (-1, -1) while none was found. */
  function KingSquare(g: Grid, color: Color, r: int, c: int): (k: (int, int))
    requires IsGrid(g) && 0 <= r <= Size && 0 <= c <= Size && (r == Size ==> c == 0)
    ensures LastKing(g, color, r, c).None? <==> !InBounds(k.0, k.1)
  {
    match LastKing(g, color, r, c)
    case None => (-1, -1)
    case Some(k) => k
  }

  /** (r, c) holds a piece of the colour opposing `color`. */
  predicate Enemy(g: Grid, r: int, c: int, color: Color)
    requires IsGrid(g) && InBounds(r, c)
  {
    g[r][c].Some? && g[r][c].value.color != color
  }

  ghost predicate SomeEnemy(g: Grid, color: Color)
    requires IsGrid(g)
  {
    exists r, c :: InBounds(r, c) && Enemy(g, r, c, color)
  }

  /** Some enemy piece has a legal move onto (kr, kc). */
  ghost predicate Attacked(g: Grid, kr: int, kc: int, color: Color)
    requires IsGrid(g) && InBounds(kr, kc)
  {
    exists r, c :: InBounds(r, c) && Enemy(g, r, c, color) && Legal(g, r, c, kr, kc)
  }

  /** isCheckmate: whether an enemy piece can reach the king of `color`. With no
      such king on the board the source fails at the first enemy piece it tries. */
  ghost function Probe(g: Grid, color: Color): Result<bool>
    requires IsGrid(g)
  {
    match LastKing(g, color, Size, 0)
    case None => if SomeEnemy(g, color) then Failure(KingNotFound) else Success(false)
    case Some(k) => Success(Attacked(g, k.0, k.1, color))
  }

  /** The probe fails exactly when there is no king of `color` but some enemy
      piece, and a hit means some king square of `color` is attacked. */
  lemma ProbeOutcomes(g: Grid, color: Color)
    requires IsGrid(g)
    ensures Probe(g, color).Failure? <==>
            SomeEnemy(g, color) && forall r, c :: InBounds(r, c) ==> g[r][c] != KingOf(color)
    ensures Probe(g, color).Failure? ==> Probe(g, color).error == KingNotFound
    ensures Probe(g, color) == Success(true) ==>
            exists kr, kc :: InBounds(kr, kc) && g[kr][kc] == KingOf(color) && Attacked(g, kr, kc, color)
  {
    var k := LastKing(g, color, Size, 0);
    if k.Some? {
      assert InBounds(k.value.0, k.value.1) && g[k.value.0][k.value.1] == KingOf(color);
    }
  }

  /** The scan stops at (r, c): an enemy piece stands there and either no king
      square was found, so indexing it fails, or the piece can move onto it. */
  ghost predicate StopsAt(g: Grid, color: Color, kr: int, kc: int, r: int, c: int)
    requires IsGrid(g) && InBounds(r, c)
  {
    Enemy(g, r, c, color) && (!InBounds(kr, kc) || Legal(g, r, c, kr, kc))
  }

  /** What the probe's second scan returns when it resumes at (r, c), the king
      square being (kr, kc). */
  ghost function ScanFrom(g: Grid, color: Color, kr: int, kc: int, r: int, c: int): Result<bool>
    requires IsGrid(g) && 0 <= r <= Size && 0 <= c <= Size
    decreases Size - r, Size - c
  {
    if r == Size then Success(false)
    else if c == Size then ScanFrom(g, color, kr, kc, r + 1, 0)
    else if StopsAt(g, color, kr, kc, r, c) then
      if InBounds(kr, kc) then Success(true) else Failure(KingNotFound)
    else ScanFrom(g, color, kr, kc, r, c + 1)
  }

  /** The whole probe as the source runs it: the king search, then the scan. */
  ghost function ScanResult(g: Grid, color: Color): Result<bool>
    requires IsGrid(g)
  {
    var k := KingSquare(g, color, Size, 0);
    ScanFrom(g, color, k.0, k.1, 0, 0)
  }

  /** The scan resumed at (r, c) stops exactly when some square at or after
      (r, c) is a stopping square. */
  lemma {:induction false} ScanFromStops(g: Grid, color: Color, kr: int, kc: int, r: int, c: int)
    requires IsGrid(g) && 0 <= r <= Size && 0 <= c <= Size
    ensures ScanFrom(g, color, kr, kc, r, c) ==
            if exists r', c' :: InBounds(r', c') && !Precedes(r', c', r, c) && StopsAt(g, color, kr, kc, r', c')
            then (if InBounds(kr, kc) then Success(true) else Failure(KingNotFound))
            else Success(false)
    decreases Size - r, Size - c
  {
    if r == Size {
    } else if c == Size {
      ScanFromStops(g, color, kr, kc, r + 1, 0);
      if exists r', c' :: InBounds(r', c') && !Precedes(r', c', r, c) && StopsAt(g, color, kr, kc, r', c') {
        var r', c' :| InBounds(r', c') && !Precedes(r', c', r, c) && StopsAt(g, color, kr, kc, r', c');
        assert !Precedes(r', c', r + 1, 0);
      }
    } else if !StopsAt(g, color, kr, kc, r, c) {
      ScanFromStops(g, color, kr, kc, r, c + 1);
      if exists r', c' :: InBounds(r', c') && !Precedes(r', c', r, c) && StopsAt(g, color, kr, kc, r', c') {
        var r', c' :| InBounds(r', c') && !Precedes(r', c', r, c) && StopsAt(g, color, kr, kc, r', c');
        assert !Precedes(r', c', r, c + 1);
      }
    } else {
      assert !Precedes(r, c, r, c);
    }
  }

  /** The scan the source runs gives the probe's answer. */
  lemma ScanMatchesProbe(g: Grid, color: Color)
    requires IsGrid(g)
    ensures ScanResult(g, color) == Probe(g, color)
  {
    var k := KingSquare(g, color, Size, 0);
    ScanFromStops(g, color, k.0, k.1, 0, 0);
    if exists r', c' :: InBounds(r', c') && !Precedes(r', c', 0, 0) && StopsAt(g, color, k.0, k.1, r', c') {
      var r', c' :| InBounds(r', c') && !Precedes(r', c', 0, 0) && StopsAt(g, color, k.0, k.1, r', c');
      assert Enemy(g, r', c', color);
      if InBounds(k.0, k.1) {
        assert Attacked(g, k.0, k.1, color);
      }
    } else {
      forall r', c' | InBounds(r', c') && Enemy(g, r', c', color)
        ensures !StopsAt(g, color, k.0, k.1, r', c')
      {
        assert !Precedes(r', c', 0, 0);
      }
    }
  }

  /** With exactly one king of `color`, the probe answers whether an enemy
      piece can legally move onto that king's square. */
  lemma ProbeSingleKing(g: Grid, color: Color, kr: int, kc: int)
    requires IsGrid(g) && InBounds(kr, kc) && g[kr][kc] == KingOf(color)
    requires forall r, c :: InBounds(r, c) && g[r][c] == KingOf(color) ==> (r, c) == (kr, kc)
    ensures Probe(g, color) == Success(Attacked(g, kr, kc, color))
  {
    var k := LastKing(g, color, Size, 0);
    assert Precedes(kr, kc, Size, 0);
    assert k.Some?;
  }
}
