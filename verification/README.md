# Two-player chess board: move rules, history and the check probe

This project models the game logic of a small Swing chess program, the
`Board` panel of `src/game/Board.java`, without its user interface. The board
is an 8x8 grid of squares. Each square is empty or holds a piece of a colour
(White or Black) and a kind (pawn, knight, bishop, rook, queen, king). Row 0
is Black's back rank and row 7 is White's, so White moves toward row 0.
The board also keeps whose turn it is, a stack of played moves, and the
square the player has selected with a first click.

The model has four modules:

- `Chess` (`chess.dfy`): colours, kinds, pieces, the grid as a value, and the
  starting position.
- `Rules` (`rules.dfy`): the legality test as a function of the grid. It
  comes with one lemma per piece that states the rule in plain geometric
  terms. It also holds the specification of the check probe.
- `History` (`history.dfy`): the move record kept on the history stack, what
  making a move and undoing it do to the grid, and the round trip between
  them.
- `Game` (`board.dfy`): the `Board` class. Its cells live in a mutable
  `array2`, and its ghost field `cells` holds the same contents as a value.
  The path scans, the legality test, make, undo, the two loops of the probe
  and the click handler are imperative methods. Each one is proved against
  the functions of `Rules` and `History`.

The rules are those of the program, not those of chess. A pawn only ever
moves one row: it steps straight onto an empty square, or steps one column
aside onto an occupied square. It never moves two rows. There is no castling,
en passant, promotion or check restriction. A king may be captured like any
other piece. The "checkmate" probe only asks whether some enemy piece has a
legal move onto the king's square. The probe keeps the last king of the side
in row-by-row order. If that side has no king and some enemy piece stands on
the board, the program indexes square (-1, -1) and fails. The model returns
this as `Failure(KingNotFound)`. When a click finds its selected square
empty, the program's legality test reads characters of an empty string and
fails. This is `Failed(EmptySelection)`. In both cases the exception leaves
the selection set. The model keeps that too.

## Model

| member | source | states |
|---|---|---|
| Chess.BackRank | src/game/Board.java:17 | The king stands on file 4 and the queen on file 3 of each back rank, and no other file holds either. |
| Chess.InitialCell | src/game/Board.java:16-25 | In the starting position, exactly rows 0, 1, 6 and 7 are occupied. Rows 0 and 1 are Black and rows 6 and 7 are White. Pawns stand on exactly rows 1 and 6. |
| Chess.InitialGrid | src/game/Board.java:16-25 | The starting grid is 8x8 and each square holds its starting piece. |
| Game.Board.constructor | src/game/Board.java:10-25 | A new board holds the starting position. White is to move, nothing is selected and the history is empty. |
| Game.IsCorrectTurn | src/game/Board.java:84-87 | A piece may be selected exactly when its colour is the side to move. |
| Game.Side | src/game/Board.java:165 | The probe for `white` looks for the White king, and otherwise for the Black king. |
| Rules.Compare | src/game/Board.java:126-127 | The step is 0 when the coordinates are equal, 1 when the first is larger and -1 when it is smaller. |
| Rules.Direction | src/game/Board.java:112 | A pawn's forward step is one row: toward row 0 for White and toward row 7 for Black. |
| Rules.Legal | src/game/Board.java:89-109 | A legal move never lands on a square held by the mover's own colour. So a move onto its own square is never legal. |
| Rules.PawnLegal | src/game/Board.java:111-121 | A pawn move is legal exactly when it is one row forward, either straight onto an empty square or one column aside onto an enemy piece. |
| Rules.KnightJumpIff | src/game/Board.java:105 | The product test on the offsets holds exactly for the eight knight offsets (1,2) and (2,1) with any signs. |
| Rules.KnightLegal | src/game/Board.java:105 | A knight move is legal exactly onto a knight offset not held by its own colour. Pieces in between are ignored. |
| Rules.KingLegal | src/game/Board.java:106 | A king move is legal exactly onto one of the eight adjacent squares, when its own colour does not hold it. |
| Rules.StraightClearIff | src/game/Board.java:123-136 | The straight-path test holds exactly when source and target share a row or a column and every square strictly between is empty. |
| Rules.RookLegal | src/game/Board.java:102 | A rook move is legal exactly along a row or column with every square strictly between empty, onto a square not held by its own colour. |
| Rules.DiagonalClearIff | src/game/Board.java:138-151 | The diagonal-path test holds exactly when source and target lie on one diagonal and every square strictly between is empty. |
| Rules.BishopLegal | src/game/Board.java:103 | A bishop move is legal exactly along a diagonal with every square strictly between empty, onto a square not held by its own colour. |
| Rules.QueenLegal | src/game/Board.java:104 | A queen move is legal exactly when it would be legal for a rook or for a bishop. |
| Game.Board.StraightMove | src/game/Board.java:123-136 | The square-by-square scan answers the straight-path test on the current grid. |
| Game.Board.DiagonalMove | src/game/Board.java:138-151 | The scan that stops at the target row answers the diagonal-path test on the current grid. |
| Game.Board.IsLegalMove | src/game/Board.java:89-109 | On a square holding a piece, the method's answer is the legality of the move on the current grid. |
| History.Record | src/game/Board.java:154 | The pushed record keeps the move's four coordinates and what stood on the target before the move. |
| History.Apply | src/game/Board.java:153-157 | After a move, the source is empty and the target holds the moved piece when the two squares differ. No other square changes. |
| Game.Board.MakeMove | src/game/Board.java:153-161 | The grid becomes the applied move. The history gains the move's record on top. The turn and the selection do not change. |
| History.Revert | src/game/Board.java:187-189 | Undo puts the captured content back on the target and the target's piece back on the source. No other square changes. |
| Game.Board.UndoMove | src/game/Board.java:184-195 | With an empty history nothing changes. Otherwise the top record is popped, the grid is reverted with it and the turn passes back. |
| History.RoundTrip | src/game/Board.java:184-195 | Reverting an applied move with its own record gives back the grid before the move. This holds for any two squares on the board. |
| Game.Board.ClickThenUndo | src/game/Board.java:70-72 | A legal move played by a click and then undone leaves the grid, the turn and the history as they were. |
| Rules.LastKing | src/game/Board.java:164-172 | The king square found so far is a king of the side that comes before the scan position, and no later such king comes before it. With none found, no king of the side comes before it. |
| Rules.KingSquare | src/game/Board.java:164-172 | The king square held after the first loop lies off the board exactly when no king of the side was met. |
| Game.Board.FindKing | src/game/Board.java:164-172 | The first loop ends on the king square of the search: the last king of the side in row-by-row order, or (-1, -1) when there is none. |
| Rules.ScanFromStops | src/game/Board.java:174-181 | The second loop, resumed at any square, stops exactly when some enemy piece at or after that square can move onto the king square. It fails instead when no king square was found. |
| Game.Board.ScanForAttacker | src/game/Board.java:174-181 | The second loop returns what the resumable scan gives from the first square. |
| Game.Board.IsCheckmate | src/game/Board.java:163-182 | The probe method returns the king search followed by the attacker scan, on the current grid. |
| Rules.ScanMatchesProbe | src/game/Board.java:163-182 | The two loops compute the probe: whether some enemy piece can legally reach the last king of the side. With no king, the result is a failure if there is an enemy piece and false otherwise. |
| Rules.ProbeOutcomes | src/game/Board.java:163-182 | The probe fails exactly when the side has no king but the enemy has a piece. A true answer means some king of the side is attacked. |
| Rules.ProbeSingleKing | src/game/Board.java:163-182 | With exactly one king of the side on the board, the probe answers whether some enemy piece can legally move onto it. |
| Game.Board.HandleClick | src/game/Board.java:52-82 | This is the click state machine. With no selection, a click selects a piece of the side to move and is otherwise ignored. A click on the selected square deselects it. A click elsewhere either plays a legal move or rejects it. A played move pushes its record, flips the turn and reports the probe for the side now to move. Every branch states what happens to the grid, the history, the turn and the selection. |

## Left out

- The Swing interface is not modelled: the buttons and their texts, the square colours, the yellow highlight, `resetColors` and the layout. A button is identified by its coordinates, so comparing with the selected button becomes comparing coordinates.
- The checkmate dialog is not shown. `HandleClick` returns the probe's answer as `Moved(checkmate)` instead.
- `src/game/ChessGame.java` only opens the window and is not part of this model.
- The history is a `seq<Move>` with its top at the end, in place of `java.util.Stack`.
- Squares hold a colour and a kind in place of two-letter strings. A letter outside the six piece kinds cannot be written in the model. So the fallthrough `return false` of the piece switch (line 108) has no counterpart.
- Exceptions are not modelled as control flow. The two failures the code can reach become results: `Failure(KingNotFound)` from the probe and `Failed(...)` from a click. The selection is left set, as after the exception.
- `undoMove` does not clear the selection and does not check that the selected square still holds a piece. The model follows the code here. A later click can then report `Failed(EmptySelection)`.
