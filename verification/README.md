# Chess rules engine — a Dafny model

This project models the rules core of a small terminal chess program written
in Ruby. It covers three files.

- `lib/chess_piece.rb`: the pieces, their translation tables and the
  `valid_move?` / `valid_eat?` / `valid_castle?` questions. A pawn's
  `valid_eat?` has side effects: it sets or clears the pawn's en-passant flags
  and can lower its step limit.
- `lib/chess_board.rb`: the 8x8 board and its operations:
  - `free_path?` and `free_check_path?`;
  - `has_check?`, `check?`, `checkmate?` and `can_block?`;
  - `move`, `king_move` and `castle`;
  - `fill_en_passant` and `eat_en_passant`;
  - the initial layout.
- `lib/chess_game.rb`: the move parser and the checks `get_move` applies
  before it accepts a move. Also `move_piece`, `only_king?`,
  `check_stalemate`, `announce_check` and `other_player`.

## Modelling choices

- **Board.** It is a flat sequence of 64 cells, row-major, in the order the
  Ruby loops visit the nested arrays (`ChessBoard.Idx`). A piece is
  identified by the cell that holds it.
- **State threading.** A pawn's `valid_eat?` mutates the pawn, so every
  query that asks pieces returns the board it leaves behind. `Evolved` is
  the relation between a board and the board after such questions:
  - the occupancy is unchanged;
  - a non-pawn is unchanged;
  - a pawn may only lose its en-passant flags, have its step limit narrowed
    to 1, or have its "ate en passant" flag rewritten.
- **Truthiness.** Ruby's truthy and falsy answers become datatypes:
  - `PathResult`, `Outcome` and `Answer`;
  - `Option` for "path or false".
- **Out-of-range indexing.** `get_piece` reads out-of-range columns the way
  Ruby arrays do: column -1 reads column 7, and column 8 reads `nil`. This
  is `Geometry.RubyIndex`, used by `fill_en_passant`.
- **Quirks modelled literally.** Where the code and its evident intent
  differ, the model follows the code:
  - **`trans[1] = -2`.** In `move` this is an assignment, not a comparison
    (`lib/chess_board.rb:99`). It is always truthy for a pawn, so
    `fill_en_passant` always runs. It also overwrites the column of the
    pawn's own translation entry (`Moves.Retarget`).
  - **`has_moved`.** No operation ever sets it, so castling is never refused
    because a piece has moved.
  - **Kingside castling.** It moves the king but does not update the king's
    stored position (`Moves.KingsideLeavesPositionStale`).
  - **Queenside castling from column 3.** A king that stepped onto column 3
    can castle two columns left. The corner piece is written onto `from`,
    which is then emptied, so the corner piece disappears and the king
    lands on column 2 (`Moves.CastleFromRookSquareErasesCorner`).
  - **`checkmate?` without a king.** It falls out of the loop and returns the
    board array, which is truthy (`Analysis.Checkmate`).
  - **`check_stalemate`.** It is never called by `play`, but it is modelled
    (`Game.Stalemate`).
- **Preconditions for crashes.** Paths on which the Ruby program raises
  `NoMethodError` or walks off the ray are excluded by preconditions. The
  predicates that express them:
  - `Aimed`: every piece the scan asks answers with a translation whose ray
    reaches the target;
  - `CastleDefined`: the castling corner holds a piece;
  - `MoveDefined`: the moving square is occupied.

## Model

| member | source | states |
|---|---|---|
| Geometry.Add | lib/chess_piece.rb:20-22 | `sum_pos` adds componentwise: the result minus the vector is the start again |
| Geometry.RayIndex | lib/chess_board.rb:161-167 | the first multiplier in the range that lands on the target, and that no smaller multiplier does; `None` exactly when none in the range does |
| Geometry.RubyIndex | lib/chess_board.rb:10-12 | Ruby array indexing: a negative index counts from the end, and anything beyond either end reads nothing |
| Pieces.NewPiece | lib/chess_piece.rb:85-92 | a new piece has the given kind, colour and square, has not moved, and has every en-passant flag clear |
| Pieces.TranslationTables | lib/chess_piece.rb:117-163 | the move tables are exactly: the unit steps for king and queen, the orthogonal steps for the rook, the diagonal steps for the bishop and the knight jumps for the knight. The step limits are 1, 8 or 2, and only pawns have capture tables |
| Pieces.PawnTables | lib/chess_piece.rb:165-181 | a pawn moves one row forward for its colour, captures on the two forward diagonals, and starts with step limit 2 |
| Pieces.FirstReach | lib/chess_piece.rb:102-110 | the first translation that reaches the target within the step limit, and no earlier one does; `None` exactly when none does |
| Pieces.ValidMoveSpec | lib/chess_piece.rb:102-110 | `valid_move?` answers exactly when some translation times some multiplier from 0 to the limit lands on the target |
| Pieces.ValidMoveOwnSquare | lib/chess_piece.rb:104-106 | multiplier 0 lets any piece "reach" its own square with its first translation |
| Pieces.ValidCastle | lib/chess_piece.rb:126-131 | a castle target is exactly two columns left or right on the king's row |
| Pieces.ValidEat | lib/chess_piece.rb:196-214 | asking `valid_eat?` never changes a piece's kind, colour, square, moved flag or tables, and an answer is an entry of the asked piece's tables |
| Pieces.ValidEatOfNonPawn | lib/chess_piece.rb:112-114 | for every piece but a pawn, `valid_eat?` is `valid_move?` and changes nothing |
| Pieces.EatScan | lib/chess_piece.rb:198-207 | a capture answer is either the live en-passant vector or a diagonal onto an enemy piece; if the en-passant vector is in the table, the scan answers |
| Pieces.EatScanExact | lib/chess_piece.rb:198-207 | the scan answers exactly when some entry from the start index on is the en-passant vector or a diagonal onto an enemy piece on the target; it answers the first such entry, and flags en passant exactly when that entry is the en-passant vector |
| Pieces.PawnCaptureComplete | lib/chess_piece.rb:196-207 | a pawn without a live en-passant vector whose capture entry lands on an enemy piece on the target answers with a capture entry, the first one that does, and its only change is a cleared "ate en passant" flag |
| Pieces.EnPassantIgnoresTarget | lib/chess_piece.rb:196-203 | a pawn whose en-passant flag matches its first capture entry answers that entry whatever the target, and marks that it ate en passant |
| Pieces.FiringAlwaysAnswers | lib/chess_piece.rb:198-203 | a pawn with a live en-passant vector always answers, and keeps its flags |
| Pieces.PawnCaptureSound | lib/chess_piece.rb:204-206 | an ordinary pawn capture lands on the target, which holds a piece of the other colour |
| Pieces.PawnFallback | lib/chess_piece.rb:208-213 | when a pawn falls back to a plain move, both flags are cleared; it answers exactly when `valid_move?` does, and then its step limit drops to 1 |
| Pieces.PawnAnswerNarrows | lib/chess_piece.rb:208-213 | a pawn on its double step that finds no capture answers the two-square advance, and its step limit drops to 1; asked the same question again, it no longer answers |
| Pieces.ValidEatMonotone | lib/chess_piece.rb:196-214 | after earlier questions, a piece answers only if it answered before, with the same vector |
| Pieces.DeadFlagsIgnored | lib/chess_piece.rb:183-203 | an en-passant vector that is no longer in the capture table has no effect on the scan |
| ChessBoard.ColorAt | lib/chess_board.rb:183-187 | `get_piece_color` is a colour exactly on an occupied square, and it is that piece's colour |
| ChessBoard.InitialLayout | lib/chess_board.rb:208-267 | the initial board is well formed. Rows 1-2 and 7-8 are full and the rest empty. White holds the lower two rows. Pawns fill the second and seventh rows, and the back rank is R N B Q K B N R. Every piece is new and stands on its own square |
| ChessBoard.FreePath | lib/chess_board.rb:155-168 | `true` exactly when from = to, and `false` exactly when a square strictly between is occupied. Otherwise it gives the walked squares: they start at `from`, follow the ray, stay on the board, exclude `to`, and are empty after the first |
| ChessBoard.FreePathOccupancy | lib/chess_board.rb:155-168 | `free_path?` depends only on which squares are occupied |
| ChessBoard.HasCheck | lib/chess_board.rb:108-124 | `has_check?` answers the reference first attacker's path on the board as given, although it asks pieces (and so changes them) as it goes. Its path squares are on the board and not the target |
| ChessBoard.HasCheckIsFirstAttack | lib/chess_board.rb:111-123 | the stateful scan agrees with the stateless reference from every starting cell |
| ChessBoard.FirstAttackNone | lib/chess_board.rb:111-123 | the reference finds no attacker exactly when no cell attacks the square |
| ChessBoard.FirstAttackSome | lib/chess_board.rb:120 | a path the reference answers is the path of some attacking cell |
| ChessBoard.FirstAttackMonotone | lib/chess_board.rb:116 | attacks only disappear as pieces are asked: an attack on the evolved board was already there |
| ChessBoard.NoAttackIsStable | lib/chess_board.rb:108-124 | a square `has_check?` finds unattacked stays unattacked after any further questions |
| Analysis.FirstKing | lib/chess_board.rb:147-151 | the first cell in scanning order holding a king whose square shows the player's colour; `None` exactly when there is none |
| Analysis.Check | lib/chess_board.rb:144-153 | `check?` is false without a king; otherwise it is `has_check?` on the first such king's stored square |
| Analysis.NoCheckIsStable | lib/chess_board.rb:144-153 | once `check?` finds no check, it finds none after any further questions |
| Analysis.Checkmate | lib/chess_board.rb:59-72 | `checkmate?` is truthy when the player has no king, because the loop falls through to the board itself |
| Analysis.CheckmateUnlessEscapeAttacked | lib/chess_board.rb:64-69 | when `checkmate?` says no, the king exists and one of its in-board escape squares within reach is attacked |
| Analysis.FirstEscapeAttacked | lib/chess_board.rb:64-69 | if the first escape the block looks at is attacked, `none?` is false |
| Analysis.CheckmateFirstEscape | lib/chess_board.rb:64-69 | if the first in-board escape of the player's king is attacked, `checkmate?` is false |
| Analysis.BlockedBy | lib/chess_board.rb:131-139 | the path squares a given cell's piece can reach with a free path: only such squares, and every one of them |
| Analysis.BlockersOf | lib/chess_board.rb:132-139 | one sweep of the board for a path square records the square against exactly the pieces that reach it, each asked as it stood when the sweep began |
| Analysis.CanBlock | lib/chess_board.rb:126-142 | `can_block?` is nil exactly without a path. Every key is one of the player's pieces, with a non-empty list of path squares. For every non-pawn, the list is exactly the path squares it can reach |
| Analysis.BlocksMonotone | lib/chess_board.rb:136 | a piece that reaches a square after other questions reached it before them: asking only narrows a pawn's answers |
| Analysis.CanBlockSound | lib/chess_board.rb:131-139 | every square `can_block?` lists for a piece, pawns included, is a path square that piece, as it stood before the call, reaches along a free path |
| Analysis.BlockedByFrame | lib/chess_board.rb:136 | what a non-pawn can block does not change as other pieces are asked |
| Moves.FillEnPassant | lib/chess_board.rb:74-79 | the pawn to the right of `to` gets the left flag and the one to its left the right flag, with Ruby's wrap at column -1 and `nil` at column 8; nothing else changes |
| Moves.FillEnPassantEdges | lib/chess_board.rb:75-76 | landing on column 0 flags a pawn on column 7 of that row; landing on column 7 flags nothing to the right |
| Moves.EatEnPassant | lib/chess_board.rb:81-87 | `from` and the square on `from`'s row in `to`'s column end empty; a diagonal capture lands the piece on `to` with its position updated; nothing else changes |
| Moves.Retarget | lib/chess_board.rb:99 | the assignment overwrites the column of the answered translation with -2 and leaves every other entry and field alone |
| Moves.CheckWalk | lib/chess_board.rb:176-180 | `free_check_path?` says true only if `to` is empty, and it always does when every walked square is empty and unattacked. It says false only if some walked square, on the board as given, is occupied or attacked |
| Moves.FreeCheckPath | lib/chess_board.rb:170-181 | `free_check_path?` is true when the two squares coincide, and in every case it only asks questions of the board |
| Moves.CastleChecksOnlyDestination | lib/chess_board.rb:22 | with the castling step of two columns the walk looks at the king's destination alone: true exactly when that square is empty and unattacked |
| Moves.Castle | lib/chess_board.rb:14-41 | a refused castle only evolves the board; an accepted one had an unmoved king, a castle target, and an empty destination on the king's row |
| Moves.CastleExactly | lib/chess_board.rb:14-41 | for a king on its recorded square, the castle is accepted exactly when the king has not moved, the target is a castle target, the destination is empty and unattacked, and the corner holds a piece that has not moved |
| Moves.CastleLayout | lib/chess_board.rb:20-38 | after castling, the king sits on column 6 or 2 and the corner and origin are empty. Unless the king started on the corner piece's landing square, the corner piece sits on column 5 or 3 with its position updated. Every other square is unchanged apart from the questions' effects |
| Moves.CastleFromRookSquareErasesCorner | lib/chess_board.rb:33-38 | a queenside castle from column 3 to column 1 writes the corner piece onto the origin and then empties it: origin and corner end empty, no other square gains a piece, and the king lands on column 2 instead of on the target |
| Moves.KingsideLeavesPositionStale | lib/chess_board.rb:24-28 | after a kingside castle the king on column 6 still records its old square |
| Moves.KingMove | lib/chess_board.rb:43-57 | a king move is a castle, or else it is refused exactly when there is no matching translation. It raises "in check" only for an attacked destination, and an unattacked reachable destination is always accepted: the king moves with its position updated and nothing else moves |
| Moves.KingMoveCheckExactly | lib/chess_board.rb:43-51 | on a board keeping the invariant, a king's one-square step is never a castle target, so castling leaves the board alone, and `king_move` raises "in check" exactly when the king reaches the destination and the destination is attacked |
| Moves.Move | lib/chess_board.rb:89-106 | same colour on both squares is refused. A king goes through `king_move`. Any other piece moves exactly when it answers and no square strictly between is occupied. A non-pawn then relocates, nothing else changing. A pawn leaving its row ends as `PawnAdvanced` states |
| Moves.PawnAdvanceSpec | lib/chess_board.rb:99-105 | a pawn lands with its retargeted table and flags its new neighbours. When it ate en passant onto an empty square, the pawn beside it is removed. Nothing else changes |
| Moves.MoveFrame | lib/chess_board.rb:97 | the path test on the board after asking the mover is the path test on the board before |
| Moves.InitialInvariant | lib/chess_board.rb:208-267 | the initial board satisfies the invariant (no piece has moved, kings keep their one-square table, pawn tables point forward) and every piece records its own square |
| Moves.MoveKeepsInvariant | lib/chess_board.rb:89-106 | every move, accepted or not, keeps the invariant |
| Moves.PawnMoveChangesRow | lib/chess_board.rb:96-97 | under the invariant, a pawn that moves always changes row, so the description of the pawn result always applies |
| Moves.MoveKeepsPlaced | lib/chess_board.rb:102-104 | every move except a castle keeps each piece's recorded square equal to the square it stands on |
| Game.Tokens | lib/chess_game.rb:42 | splitting on whitespace gives only non-empty words without whitespace |
| Game.TokensJoin | lib/chess_game.rb:42 | splitting a space-joined list of words gives the words back |
| Game.ParseSquareOnBoard | lib/chess_game.rb:44-47 | a token parses to a square on the board exactly when it starts with a file letter a-h and a rank digit 1-8, and formatting that square gives those two characters back |
| Game.ParseFormat | lib/chess_game.rb:41-49 | parsing a formatted square gives the square back |
| Game.ParseMoveFormat | lib/chess_game.rb:41-49 | parsing "from to" written in the prompt's format gives the two squares back |
| Game.PromptExample | lib/chess_game.rb:15 | the prompt's example "a2 a4" parses to a2 and a4 |
| Game.GetMove | lib/chess_game.rb:14-38 | the answer is a bad format exactly when the line is not two on-board squares, and "not your piece" exactly when it is but the first square is not the player's. Out of check, such a move is accepted. In check, an accepted move lands on the attack path. For a non-pawn it is accepted exactly when `can_block?` lists the destination |
| Game.MovePiece | lib/chess_game.rb:57-64 | a move that is carried out was well formed and started from the player's piece. It did not land on the player's own piece, and in check it lands on the attack path |
| Game.OtherPlayer | lib/chess_game.rb:97-99 | the other player is never the player |
| Game.OtherPlayerInvolution | lib/chess_game.rb:97-99 | the other player of the other player is the player |
| Game.OnlyKing | lib/chess_game.rb:66-75 | true exactly when every piece whose square shows the player's colour is a king |
| Game.OnlyKingWhenPlaced | lib/chess_game.rb:66-75 | when every piece records its own square, this is "every piece of the player's colour is a king" |
| Game.OnlyKingEvolved | lib/chess_game.rb:66-75 | the answer does not change as pieces are asked questions |
| Game.Stalemate | lib/chess_game.rb:77-83 | stalemate exactly when there is no check, `checkmate?` holds on the board `check?` left, and only the king remains |
| Game.AnnounceCheck | lib/chess_game.rb:85-95 | silent exactly when `check?` finds no check. It announces checkmate exactly when `check?` finds a check and `checkmate?`, asked on the board `check?` left, agrees; the winner is the other player. A check that is not mate leaves some attacked escape square for the king |

## Left out

- Input and output are not modelled: the prompt, `gets`, `puts`, `display`,
  the symbol table `piece_s`, the welcome text, `exit` and the messages of
  the raised errors. `get_move` and `move_piece` take the input line as a
  parameter, and their `retry` loops become one answer per line.
- The game loop `play` and its alternation of players are not modelled beyond
  `Game.OtherPlayer`.
- `white?`/`black?` on symbols are replaced by the `Color` field of a piece;
  `alive?` is never used and is not modelled.
- Inputs on which the Ruby program crashes or walks off a ray are excluded by
  preconditions:
  - a move from an empty square;
  - a castle whose corner is empty;
  - a piece whose answered translation does not reach its target, which is
    possible only for a pawn's en-passant vector (`Aimed`).
- Moves.Move: the pawn result is stated only when the pawn changes row.
  `Moves.PawnMoveChangesRow` shows this always holds on boards that satisfy
  the invariant.
- Analysis.CanBlock: the list of blocking squares is exact only for
  non-pawns. A pawn can stop answering once it has been asked
  (`Pieces.PawnAnswerNarrows`), so for pawns only soundness is stated
  (`Analysis.CanBlockSound`): a listed square is reachable, but a reachable
  square may be missing from a later sweep.
- Game.GetMove: acceptance in check is characterised exactly only for a
  non-pawn moving piece. For a pawn it states only that an accepted move
  lands on the attack path.
- Analysis.Checkmate: the contract states the no-king case and soundness
  (`Analysis.CheckmateUnlessEscapeAttacked`). Completeness is stated only for
  the first in-board escape (`Analysis.CheckmateFirstEscape`). Later escapes
  are examined on a board the earlier questions changed.
- Analysis.Check: `check?` is shown to repeat its answer only when it finds
  no check (`Analysis.NoCheckIsStable`). A found attack may vanish: a pawn
  that answered with its two-square advance has its step limit narrowed to
  1 and no longer reaches the same square (`Pieces.PawnAnswerNarrows`).
- Game.OnlyKing: `only_king?` calls `@board.board` (`lib/chess_game.rb:67`),
  which `ChessBoard` does not define, so in the Ruby program it always
  raises `NoMethodError`. The model states the loop the method evidently
  intends instead, and `Game.OnlyKingWhenPlaced`, `Game.OnlyKingEvolved` and
  `Game.Stalemate` build on that intended version. Only `check_stalemate`
  calls it, and `play` never calls `check_stalemate`, so the crash never
  shows in a game.
- Moves.CheckWalk: true implies only that `to` is empty; the other squares'
  safety is stated in the other direction.
- Moves.MoveKeepsPlaced: stated for non-castling moves only, because a
  kingside castle leaves the king's recorded square stale.
