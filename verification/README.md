# Checkers rule engine — a Dafny model

This project models the rule engine of an 8×8 forced-capture checkers game
(PetarJanosevic/Checkers, Java). The human plays black and the computer plays
red. It covers the following parts:

- **Board store** (`FieldManager`, `Piece`): the grid of optional piece
  references, the pieces themselves (a map from ids to immutable piece
  records, standing in for Java object references), the two ordered side
  lists and the derived list of red kings.
- **Move validation** (`MoveValidation`): the short-circuiting checks in
  their fixed order. The process-wide `hasEaten` flag is an explicit part of
  the state (`Game(field, hasEaten)`). Every check takes the flag and returns
  it next to its answer (`Verdict(ok, hasEaten)`), so the flag is set and
  cleared exactly where the code sets and clears it.
- **Human turn** (`HumanPlayer`): a click on a target square with an optional
  selected piece. The answer code is 0 (nothing happened), 1 (the capture
  chain continues) or 2 (the turn is over).
- **Computer turn** (`ComputerPlayer`): the greedy engine. It refreshes the
  kings list, then tries four priority levels over fixed direction tables:
  king captures, captures by any red piece, forward steps, king steps. Each
  level is scanned in list order, then table order. A capture goes on
  recursively: king captures are probed again, then the same piece continues
  from its landing square. The recursion is bounded by the number of occupied
  cells, because every capture step empties the jumped cell.
- **Scan order** (`Scan`): the search order shared by both computer searches,
  stated once over a table of probe results.
- **Scene rules** (`SceneManager`): the win checks, the selection rule, the
  dispatch on the human's answer code and the end-turn button.

A Java `NullPointerException` that the rules can reach is an explicit outcome,
`Result.NullPointer`. It arises when a move reads an empty source square.
`List.remove(Object)` drops the first element equal under `Piece.equals`; it
is `RemoveEqual`.

## Model

| member | source | states |
|---|---|---|
| Pieces.NewPiece | src/checkers/core/gui/Piece.java:28-35 | a new piece carries exactly the given row, column and colour and is not a king |
| Pieces.SetRow | src/checkers/core/gui/Piece.java:41-43 | only the row changes; column, colour and rank are kept |
| Pieces.SetCol | src/checkers/core/gui/Piece.java:49-51 | only the column changes; row, colour and rank are kept |
| Pieces.SetColor | src/checkers/core/gui/Piece.java:57-59 | only the colour changes |
| Pieces.MakeKing | src/checkers/core/gui/Piece.java:80-83 | the piece becomes a king and keeps its square and colour |
| Pieces.SettersPlacePiece | src/checkers/core/gui/Piece.java:41-51 | setting row and column commute and place the piece on the new square without touching colour or rank |
| Pieces.MakeKingIsPermanent | src/checkers/core/gui/Piece.java:76-83 | promotion is idempotent and no setter takes the crown away |
| Pieces.Equals | src/checkers/core/gui/Piece.java:85-95 | two pieces are equal exactly when they are the same record: row, column, colour and rank all agree |
| Pieces.EqualsIsStructural | src/checkers/core/gui/Piece.java:85-95 | `equals` holds exactly for records equal in row, column, colour and rank; it is reflexive, symmetric and transitive |
| FieldManager.GetBoardPiece | src/checkers/core/board/FieldManager.java:55-58 | a present result is a known piece referenced at that cell, standing at that cell's coordinates on a coherent board; the result is empty exactly when no piece is referenced there |
| FieldManager.MovePiece | src/checkers/core/board/FieldManager.java:60-67 | the piece from `from` now stores `to` as its coordinates and `to` references it; `from` is empty; every other cell and all three lists are unchanged; the occupied count never grows and stays the same when the target was empty; coherence is kept |
| FieldManager.MovedPieceCoherent | src/checkers/core/board/FieldManager.java:60-67 | moving board reference and coordinates together keeps every reference at its piece's coordinates |
| FieldManager.RemovePiece | src/checkers/core/board/FieldManager.java:69-72 | exactly the given cell is emptied; pieces and side lists are untouched; the occupied count drops by the cell's occupancy |
| FieldManager.Crown | src/checkers/core/gui/Piece.java:80-83 | in the store, only the crowned piece's record changes, and only by promotion |
| FieldManager.SetBlackPieces | src/checkers/core/board/FieldManager.java:79-82 | the black list is replaced and nothing else changes |
| FieldManager.SetRedPieces | src/checkers/core/board/FieldManager.java:89-92 | the red list is replaced and nothing else changes |
| FieldManager.SetBoard | src/checkers/core/board/FieldManager.java:110-113 | the grid is replaced and nothing else changes |
| FieldManager.KingsOf | src/checkers/core/board/FieldManager.java:97 | every listed id is a known king, and the filter is no longer than its input |
| FieldManager.KingsOfFilters | src/checkers/core/board/FieldManager.java:94-98 | the filter keeps every king of the red list, as often as it occurs and in list order, and drops every non-king |
| FieldManager.UpdateRedKingPieces | src/checkers/core/board/FieldManager.java:94-98 | the red-kings list becomes the kings of the red list; board, pieces and both side lists are unchanged |
| FieldManager.RemoveEqual | src/checkers/core/logic/HumanPlayer.java:62 | the result lists only known pieces and holds no id more often than the input |
| FieldManager.RemoveEqualKeepsUnmatched | src/checkers/core/logic/HumanPlayer.java:62 | with no element equal to the target, the list is unchanged |
| FieldManager.RemoveEqualDropsFirstMatch | src/checkers/core/logic/ComputerPlayer.java:81 | when `i` is the first index equal to the target, exactly element `i` is removed |
| FieldManager.RemoveEqualShortens | src/checkers/core/logic/ComputerPlayer.java:81 | with some element equal to the target, the list loses exactly one element |
| FieldManager.RemoveEqualRemovesTarget | src/checkers/core/logic/HumanPlayer.java:61-64 | the captured piece's own first occurrence is removed when no other listed piece is equal to it |
| FieldManager.DistinctOnBoardPiecesDiffer | src/checkers/core/gui/Piece.java:85-95 | two different pieces on a coherent board are never equal |
| FieldManager.OnBoardRemovalTakesTarget | src/checkers/core/logic/HumanPlayer.java:61-64 | when every listed piece stands on a coherent board, removal by equality takes out exactly the captured piece's own first entry |
| FieldManager.PlaceCell | src/checkers/core/board/FieldManager.java:36-41 | a dark cell receives a new piece with the next free id, appended to the side list; a light cell stays empty; no other cell changes |
| FieldManager.PlaceRow | src/checkers/core/board/FieldManager.java:36-42 | every dark cell of the row gets a new piece of the colour; four pieces are added in row-major order; other rows are unchanged |
| FieldManager.PlaceRows | src/checkers/core/board/FieldManager.java:35-43 | every dark cell of the row range is filled and every other cell is unchanged; 4 pieces per row are listed in row-major order, each at its own cell |
| FieldManager.InitializePieces | src/checkers/core/board/FieldManager.java:32-53 | red stands on the dark squares of rows 0-2 and black on those of rows 5-7, all other cells are empty, each side lists 12 non-king pieces in row-major order at their own cells, and the board is coherent |
| MoveValidation.IsMoveDiagonal | src/checkers/core/logic/MoveValidation.java:47-49 | a move is diagonal exactly when the row change equals the column change or its negation; a diagonal move that keeps its row keeps its column |
| MoveValidation.IsDestinationSquareEmpty | src/checkers/core/logic/MoveValidation.java:51-53 | the target is empty exactly when its cell holds no reference, that is, when no piece stands there |
| MoveValidation.IsMoveInCorrectDirection | src/checkers/core/logic/MoveValidation.java:55-62 | a king may move either way; a red man only to a higher row, a black man only to a lower row; only a king may keep its row |
| MoveValidation.IsCaptureValid | src/checkers/core/logic/MoveValidation.java:73-82 | the answer is "an opposing piece stands on the integer midpoint"; the flag is raised exactly when the answer is yes and never lowered |
| MoveValidation.IsMoveTooBig | src/checkers/core/logic/MoveValidation.java:64-71 | a move is too big exactly when it is longer than one square and not a capture; the flag is raised exactly for long captures |
| MoveValidation.IsValidMove | src/checkers/core/logic/MoveValidation.java:20-45 | accepted exactly when diagonal, onto an empty cell, in an allowed direction, and a capture if long or if a capture is pending; a rejected move leaves the flag as it was; the flag is never lowered; an accepted move with the flag up is a capture |
| MoveValidation.NoSimpleMoveAfterCapture | src/checkers/core/logic/MoveValidation.java:39-42 | with a capture pending, a one-square step by a piece on a dark-squares-only coherent board is always rejected |
| MoveValidation.LongJumpAccepted | src/checkers/core/logic/MoveValidation.java:64-82 | there is no cap at two squares: a four-square diagonal move over an opposing midpoint piece is accepted and raises the flag |
| HumanPlayer.Code | src/checkers/core/logic/HumanPlayer.java:20-40 | the answer code is in 0..2; 0 means no move and 1 means the capture continues |
| HumanPlayer.KingTransition | src/checkers/core/logic/HumanPlayer.java:69-73 | the piece is a king afterwards exactly when it landed on row 0 or already was one; every other piece and the board are unchanged |
| HumanPlayer.RemoveCaptured | src/checkers/core/logic/HumanPlayer.java:58-64 | the midpoint cell is empty afterwards; an occupant is dropped from the red list by equality; every other cell and the black list are unchanged |
| HumanPlayer.HumanEatingProcess | src/checkers/core/logic/HumanPlayer.java:57-67 | fails exactly when the selected piece's own square is empty after the removal; otherwise the black list is kept, the red list loses the captured piece, colours are kept, and a piece leaves the board when the midpoint was occupied |
| HumanPlayer.CompleteStep | src/checkers/core/logic/HumanPlayer.java:36-39 | answers 2 with the flag lowered; fails exactly when the piece's square is empty; both side lists are kept and the occupied count never grows |
| HumanPlayer.CaptureStep | src/checkers/core/logic/HumanPlayer.java:31-34 | answers 1 with the flag raised after the eating process; the black list is kept |
| HumanPlayer.HandleCaptureSubsequentSteps | src/checkers/core/logic/HumanPlayer.java:43-55 | an illegal move answers 0 with the game unchanged; a legal move is played (or fails on an empty square), answering 1 when a capture is pending or the move is long and 2 otherwise; with the flag up the answer is never 2; an answer of 1 means a legal capture |
| HumanPlayer.HandleMoveClick | src/checkers/core/logic/HumanPlayer.java:20-40 | with no selection or an illegal move the answer is 0 and the game is unchanged; a legal move never answers 0; an answer of 2 means a short move with no capture pending, the flag lowered and the red list kept; an answer of 1 means a capture with the flag raised; the black list is never touched |
| HumanPlayer.HumanCaptureEffect | src/checkers/core/logic/HumanPlayer.java:31-34 | a legal capture answers 1 with the flag raised; the jumped cell is emptied and the first red-list piece equal to the jumped one is dropped; the black list is kept; the piece lands on the target with updated coordinates, crowned on row 0; its start square is empty; exactly one cell empties |
| HumanPlayer.HumanStepEffect | src/checkers/core/logic/HumanPlayer.java:36-39 | a legal short move with no capture pending answers 2 with the flag lowered; the piece moves to the target, crowned on row 0; both lists and the piece count are unchanged |
| HumanPlayer.HumanCaptureShrinksRedList | src/checkers/core/logic/HumanPlayer.java:61-64 | a capture of a listed red piece shortens the red list by exactly one and leaves the black list unchanged |
| ComputerPlayer.IsOutOfBounds | src/checkers/core/logic/ComputerPlayer.java:109-111 | the hard-coded bounds reject exactly the cells off the 8×8 board |
| ComputerPlayer.KingTransition | src/checkers/core/logic/ComputerPlayer.java:113-118 | the piece is a king afterwards exactly when it landed on row 7 or already was one, and then the kings list is the kings of the red list; otherwise nothing changes |
| ComputerPlayer.RemoveCaptured | src/checkers/core/logic/ComputerPlayer.java:78-82 | the midpoint cell is emptied and an occupant is dropped from the black list by equality; the red list and every other cell are unchanged; the occupied count drops by the cell's occupancy |
| ComputerPlayer.MoveAndCrown | src/checkers/core/logic/ComputerPlayer.java:83-84 | the move keeps the black list, never raises the occupied count and keeps it when the target was empty; `id` is a king afterwards exactly when the move ended on row 7 or it already was one; the kings list is then the kings of the red list, and otherwise unchanged |
| ComputerPlayer.CaptureMove | src/checkers/core/logic/ComputerPlayer.java:77-84 | fails exactly when the remembered start square is empty after the removal; otherwise the red list is kept, the black list only shrinks and the occupied count drops by the jumped cell; the capturing piece is a king exactly when it landed on row 7 or already was one, and the kings list is then refreshed to the kings of the red list, and otherwise unchanged |
| ComputerPlayer.EatingProcess | src/checkers/core/logic/ComputerPlayer.java:77-87 | a completed capture chain strictly lowers the occupied count, keeps the red list and colours, only shrinks the black list, and ends with the flag lowered |
| ComputerPlayer.TakeCapture | src/checkers/core/logic/ComputerPlayer.java:54-56 | playing a found capture answers true, removes at least one piece and ends with the flag lowered |
| ComputerPlayer.FirstCapture | src/checkers/core/logic/ComputerPlayer.java:45-61 | what the capture search finds is an in-bounds valid move that raised the flag |
| ComputerPlayer.EatingMove | src/checkers/core/logic/ComputerPlayer.java:45-61 | with no capture candidate the answer is false and the game is exactly unchanged; otherwise the answer is true, a piece is removed and the flag is lowered, or the chain fails |
| ComputerPlayer.ConsecutiveEatingMove | src/checkers/core/logic/ComputerPlayer.java:63-75 | with the flag lowered nothing happens; otherwise the chain ends with the flag lowered, the red list kept and the black list only shrunk |
| ComputerPlayer.ConsecutiveLoop | src/checkers/core/logic/ComputerPlayer.java:66-73 | the loop keeps the red list and colours, only shrinks the black list and the occupied count, and never raises a lowered flag |
| ComputerPlayer.CaptureAndGoOn | src/checkers/core/logic/ComputerPlayer.java:70-72 | the capture branch fails when its eating process fails; otherwise it ends with the flag lowered |
| ComputerPlayer.TakeStep | src/checkers/core/logic/ComputerPlayer.java:98-102 | fails exactly when the piece's square is empty; otherwise the piece stands on the target with updated coordinates, the flag is lowered, both lists and the occupied count are unchanged; the piece is a king exactly when it landed on row 7 or already was one, and the kings list is then refreshed to the kings of the red list, and otherwise unchanged |
| ComputerPlayer.FirstStep | src/checkers/core/logic/ComputerPlayer.java:89-107 | what the step search finds is an in-bounds valid move |
| ComputerPlayer.StepFlag | src/checkers/core/logic/ComputerPlayer.java:98 | the validation of the chosen step leaves the flag raised exactly when it was raised or the move is long |
| ComputerPlayer.RegularMove | src/checkers/core/logic/ComputerPlayer.java:89-107 | with no step candidate the answer is false and the game is exactly unchanged; otherwise a step is played with the flag lowered; no piece is ever removed |
| ComputerPlayer.Refreshed | src/checkers/core/logic/ComputerPlayer.java:28 | only the kings list is refreshed, to the kings of the red list |
| ComputerPlayer.Captures | src/checkers/core/logic/ComputerPlayer.java:33-38 | when a capture is open a piece is removed and the flag lowered (or the chain fails); when none is open the game is unchanged |
| ComputerPlayer.Steps | src/checkers/core/logic/ComputerPlayer.java:39-42 | no piece is removed and the black list is kept; when a step is open it is played with the flag lowered; otherwise the game is unchanged |
| ComputerPlayer.ComputerMove | src/checkers/core/logic/ComputerPlayer.java:26-43 | the red list and colours are kept and crowns are never lost; with a capture open the turn removes a piece; without one nothing is removed and the black list is kept; with no move at all only the kings list is refreshed; a lowered flag stays lowered |
| ComputerPlayer.FirstCaptureIsFirst | src/checkers/core/logic/ComputerPlayer.java:46-58 | no capture candidate comes before the one found, in list order then table order |
| ComputerPlayer.FirstStepIsFirst | src/checkers/core/logic/ComputerPlayer.java:90-104 | no step candidate comes before the one found |
| ComputerPlayer.EatingMoveTakesFirst | src/checkers/core/logic/ComputerPlayer.java:45-61 | the first candidate in scan order is the capture played |
| ComputerPlayer.RegularMoveTakesFirst | src/checkers/core/logic/ComputerPlayer.java:89-107 | the first candidate in scan order is the step played, validated with the flag as it stood |
| ComputerPlayer.CaptureMoveEffect | src/checkers/core/logic/ComputerPlayer.java:77-83 | from the piece's own square, a capture empties the jumped cell and the start cell, drops the jumped piece from the black list, puts the piece on the target with updated coordinates, and keeps the red list |
| ComputerPlayer.EatingProcessUnfold | src/checkers/core/logic/ComputerPlayer.java:83-86 | after the capture step, the king re-probe runs first and the continuation runs on the game the re-probe leaves |
| ComputerPlayer.EatingProcessContinuesWithPiece | src/checkers/core/logic/ComputerPlayer.java:85-86 | when no king capture is open after a capture, the same piece continues from its landing square with the flag the capture raised |
| ComputerPlayer.EatingProcessYieldsToKing | src/checkers/core/logic/ComputerPlayer.java:85-86 | when a king captures in the re-probe, the chain's result is the king chain's, and the piece that captured first does not continue |
| ComputerPlayer.ConsecutiveLoopAtCandidate | src/checkers/core/logic/ComputerPlayer.java:69-71 | at a capture candidate the loop captures from the square it was given, not from the piece's current square, with the flag raised |
| ComputerPlayer.StaleCaptureFails | src/checkers/core/board/FieldManager.java:62-63 | that capture fails with a null dereference when the remembered square is empty |
| ComputerPlayer.ComputerMoveByCaptures | src/checkers/core/logic/ComputerPlayer.java:33-38 | a capture level that plays or fails ends the turn with its outcome |
| ComputerPlayer.ComputerMoveBySteps | src/checkers/core/logic/ComputerPlayer.java:39-42 | with no capture open, the step levels decide the turn |
| ComputerPlayer.ComputerMoveKingCaptureFirst | src/checkers/core/logic/ComputerPlayer.java:33-35 | the first king capture in scan order is the move played |
| ComputerPlayer.ComputerMoveCaptureSecond | src/checkers/core/logic/ComputerPlayer.java:36-38 | with no king capture open, the first forward capture by a red piece is the move played |
| ComputerPlayer.ComputerMoveStepThird | src/checkers/core/logic/ComputerPlayer.java:39-41 | with no capture open, the first forward step by a red piece is the move played |
| ComputerPlayer.ComputerMoveKingStepLast | src/checkers/core/logic/ComputerPlayer.java:42 | only when no other level plays does a king step, the first in scan order |
| Scan.FirstHit | src/checkers/core/logic/ComputerPlayer.java:46-58 | a result is a hit at or after the starting position |
| Scan.FirstHitNone | src/checkers/core/logic/ComputerPlayer.java:46-60 | the search finds nothing exactly when no hit remains |
| Scan.FirstHitIsFirst | src/checkers/core/logic/ComputerPlayer.java:46-58 | no hit lies between the start and what the search finds |
| Scan.FirstHitFinds | src/checkers/core/logic/ComputerPlayer.java:46-58 | a hit with no hit before it is exactly what the search finds |
| SceneManager.CheckIfHumanWon | src/checkers/core/gui/SceneManager.java:241-244 | the human has won exactly when the red list is empty |
| SceneManager.CheckIfComputerWon | src/checkers/core/gui/SceneManager.java:246-249 | the computer has won exactly when the black list is empty |
| SceneManager.CheckGameOver | src/checkers/core/gui/SceneManager.java:235-239 | the game is over exactly when either side list is empty |
| SceneManager.HandlePieceClick | src/checkers/core/gui/SceneManager.java:222-233 | a black piece becomes the selection exactly when no capture is pending; any other click leaves the scene unchanged; the game is never touched |
| SceneManager.MoveClick | src/checkers/core/gui/SceneManager.java:199-220 | the human's answer decides: a failure fails, answer 2 hands the resulting game to the computer (`ComputerReply`), and answers 0 and 1 keep the selection with the human's resulting game; with no selection or an illegal move nothing changes; the selection is dropped only when the computer has played, which leaves the flag lowered; a kept selection means the black list is untouched |
| SceneManager.ComputerReply | src/checkers/core/gui/SceneManager.java:210-216 | the game afterwards is exactly the computer move's result, failing exactly when the computer move fails; no piece is selected, the red list is kept, the black list only shrinks, and a lowered flag stays lowered |
| SceneManager.EndTurn | src/checkers/core/gui/SceneManager.java:94-103 | without a selection the button dereferences null; otherwise the computer moves on the game with the flag lowered (`ComputerReply`), the selection is dropped, the flag stays lowered, the red list (and so the human's win status) is kept, and the black list only shrinks |

## Left out

- The JavaFX user interface: scene, grid, circles, highlighting, button and text visibility, and board redraws. `Piece.setCircle` and the fill colour of `makeKing` are cosmetic.
- The service registry and start-up code (`Container`, `Cache`, the `*Service` interfaces, `Starter`). `BaseData` appears only as the constant board size 8. The computer's bounds check hard-codes 7, so the size is not generalised.
- `hashCode` and `toString`.
- Leakage of the static flag between unit tests: the model's flag is part of the state, so it has no process-wide lifetime.
- The `piecesSize` parameters of `eatingMove` and `regularMove`: they always equal the list's length, which the loop does not change, so the list alone is passed.
- The red-kings list starts as `null` in the code; the model starts it as the empty list. `computerMove` always refreshes it before reading it.
- The unit-test scenarios are not restated as concrete lemmas. Their claims appear as the general contracts above, for example the initial board in `InitializePieces`.
- Termination of the capture chain is measured by the number of occupied cells, not the number of black pieces. Each capture step empties the jumped cell, which validation guarantees is occupied.
- FieldManager.MovePiece: it requires an occupied source square, because the code dereferences it. The callers check that square first and return `NullPointer` when it is empty. With `to` equal to `from` the piece is erased from the board, as in the code; the contract states only that `from` is empty then.
- Standard checkers limits a capture to a jump of exactly two squares. The code has no such cap (`LongJumpAccepted`), and the model follows the code.
- In standard checkers a capture chain continues until the capturing piece has no capture left. The code keeps probing from the remembered square after an inner capture, which can dereference null (`ConsecutiveLoopAtCandidate` and `StaleCaptureFails`). It also stops the original piece once a king has captured in the re-probe (`EatingProcessYieldsToKing`). The model follows the code. The null dereference is the explicit outcome `NullPointer` and is not repaired.
- ComputerPlayer.StaleCaptureFails: the stale-origin failure is stated in two steps, `ConsecutiveLoopAtCandidate` and this lemma, which chain directly. No single lemma states the composition.
- The state the Java code leaves behind when it throws is not modelled: a `NullPointer` outcome carries no game. On the stale-origin path of the computer, the code has already raised the flag in validation (ComputerPlayer.java:70), dropped the jumped black piece from the black list (line 81) and emptied its cell (line 82) before `movePiece` throws. On the human path the jumped red piece is likewise already gone from the red list and the board (HumanPlayer.java:61-64). The exception ends the handler but not the game, so later clicks would see that partial state; the model does not follow the game past the failure.
- FieldManager.KingsOf: the ordering and multiplicity of the filter are stated by `KingsOfFilters` rather than in the function's own contract.
- ComputerPlayer.FirstCapture and ComputerPlayer.FirstStep: that nothing comes before the found candidate is stated by `FirstCaptureIsFirst` and `FirstStepIsFirst` rather than in the functions' own contracts.
