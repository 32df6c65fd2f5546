/** The move rules shared by both players. The static `hasEaten` flag of the
    Java code is an explicit part of the game state: every check receives the
    flag and returns it, possibly raised, next to its boolean answer. */
module MoveValidation {
  import opened Wrappers
  import opened Pieces
  import opened FieldManager

  /** The whole mutable rule state: the board store and the pending-capture flag. */
  datatype Game = Game(field: Field, hasEaten: bool)

  /** A check's boolean answer together with the flag as the check leaves it. */
  datatype Verdict = Verdict(ok: bool, hasEaten: bool)

  function Abs(x: int): (a: nat)
    ensures a == x || a == -x
  {
    if x < 0 then -x else x
  }

  /** The captured square of a jump: the integer midpoint of start and end.
      Coordinates are never negative here, so this agrees with Java's `/`. */
  function MidRow(p: Piece, endRow: int): int { (endRow + p.row) / 2 }

  function MidCol(p: Piece, endCol: int): int { (endCol + p.col) / 2 }

  /** A move of more than one square along either axis. */
  predicate IsBig(p: Piece, endRow: int, endCol: int)
  {
    Abs(endRow - p.row) > 1 || Abs(endCol - p.col) > 1
  }

  /** The midpoint cell holds a piece of the other colour. */
  predicate CaptureAt(f: Field, p: Piece, endRow: int, endCol: int)
    requires WellFormed(f) && InRange(p.row, p.col) && InRange(endRow, endCol)
  {
    var cell := f.board[MidRow(p, endRow)][MidCol(p, endCol)];
    cell.Some? && f.pieces[cell.value].color != p.color
  }

  /** isMoveDiagonal: the row distance equals the column distance. */
  function IsMoveDiagonal(endRow: int, endCol: int, startRow: int, startCol: int): (b: bool)
    ensures b <==> endRow - startRow == endCol - startCol || endRow - startRow == startCol - endCol
    ensures b && endRow == startRow ==> endCol == startCol
  {
    Abs(endRow - startRow) == Abs(endCol - startCol)
  }

  /** isDestinationSquareEmpty: no piece on the target cell. */
  function IsDestinationSquareEmpty(f: Field, row: int, col: int): (b: bool)
    requires WellFormed(f) && InRange(row, col)
    ensures b <==> f.board[row][col].None?
    ensures b <==> forall id :: id in f.pieces ==> !OnBoardAt(f, id, row, col)
  {
    GetBoardPiece(f, row, col).None?
  }

  /** isMoveInCorrectDirection: a red man moves down (increasing row), a black
      man moves up, a king either way. */
  function IsMoveInCorrectDirection(p: Piece, endRow: int, startRow: int): (b: bool)
    ensures p.isKing ==> b
    ensures !p.isKing && p.color == Red ==> (b <==> endRow > startRow)
    ensures !p.isKing && p.color == Black ==> (b <==> endRow < startRow)
    ensures b && endRow == startRow ==> p.isKing
  {
    if !p.isKing then
      (p.color == Red && endRow > startRow) || (p.color == Black && endRow < startRow)
    else
      true
  }

  /** isCaptureValid: the answer is CaptureAt, and the flag is raised exactly
      when the answer is yes; it is never lowered. */
  function IsCaptureValid(f: Field, p: Piece, endRow: int, endCol: int, hasEaten: bool): (v: Verdict)
    requires WellFormed(f) && InRange(p.row, p.col) && InRange(endRow, endCol)
    ensures v.ok == CaptureAt(f, p, endRow, endCol)
    ensures v.hasEaten == (hasEaten || v.ok)
  {
    var captured := GetBoardPiece(f, MidRow(p, endRow), MidCol(p, endCol));
    if captured.None? || f.pieces[captured.value].color == p.color then
      Verdict(false, hasEaten)
    else
      Verdict(true, true)
  }

  /** isMoveTooBig: a one-square move is never too big; a longer one is too big
      unless it is a valid capture (which raises the flag). No cap on the
      distance exists. */
  function IsMoveTooBig(f: Field, p: Piece, endRow: int, endCol: int, hasEaten: bool): (v: Verdict)
    requires WellFormed(f) && InRange(p.row, p.col) && InRange(endRow, endCol)
    ensures v.ok <==> IsBig(p, endRow, endCol) && !CaptureAt(f, p, endRow, endCol)
    ensures v.hasEaten == (hasEaten || (IsBig(p, endRow, endCol) && CaptureAt(f, p, endRow, endCol)))
  {
    if Abs(endRow - p.row) > 1 || Abs(endCol - p.col) > 1 then
      var capture := IsCaptureValid(f, p, endRow, endCol, hasEaten);
      Verdict(!capture.ok, capture.hasEaten)
    else
      Verdict(false, hasEaten)
  }

  /** The rule as a single declarative statement: diagonal, onto an empty
      cell, in an allowed direction, and a capture whenever the move is long
      or a capture is pending. */
  predicate Legal(f: Field, p: Piece, endRow: int, endCol: int, hasEaten: bool)
    requires WellFormed(f) && InRange(p.row, p.col) && InRange(endRow, endCol)
  {
    && IsMoveDiagonal(endRow, endCol, p.row, p.col)
    && f.board[endRow][endCol].None?
    && IsMoveInCorrectDirection(p, endRow, p.row)
    && ((hasEaten || IsBig(p, endRow, endCol)) ==> CaptureAt(f, p, endRow, endCol))
  }

  /** isValidMove: the five checks in their fixed order, each failure ending
      the evaluation. The answer is exactly Legal; a rejected move leaves the
      flag as it was; an accepted move raises it exactly when it is long, and
      a move accepted with the flag up is always a capture. */
  function IsValidMove(f: Field, p: Piece, endRow: int, endCol: int, hasEaten: bool): (v: Verdict)
    requires WellFormed(f) && InRange(p.row, p.col) && InRange(endRow, endCol)
    ensures v.ok == Legal(f, p, endRow, endCol, hasEaten)
    ensures !v.ok ==> v.hasEaten == hasEaten
    ensures v.hasEaten == (hasEaten || (v.ok && IsBig(p, endRow, endCol)))
    ensures v.ok && v.hasEaten ==> CaptureAt(f, p, endRow, endCol)
  {
    var startRow := p.row;
    var startCol := p.col;
    if !IsMoveDiagonal(endRow, endCol, startRow, startCol) then
      Verdict(false, hasEaten)
    else if !IsDestinationSquareEmpty(f, endRow, endCol) then
      Verdict(false, hasEaten)
    else if !IsMoveInCorrectDirection(p, endRow, startRow) then
      Verdict(false, hasEaten)
    else
      var tooBig := IsMoveTooBig(f, p, endRow, endCol, hasEaten);
      if tooBig.ok then
        Verdict(false, tooBig.hasEaten)
      else if tooBig.hasEaten then
        var capture := IsCaptureValid(f, p, endRow, endCol, tooBig.hasEaten);
        Verdict(capture.ok, capture.hasEaten)
      else
        Verdict(true, tooBig.hasEaten)
  }

  /** Every piece stands on a dark square, as it does from the initial
      position onwards. */
  ghost predicate DarkSquaresOnly(f: Field)
    requires WellFormed(f)
  {
    forall r, c :: InRange(r, c) && f.board[r][c].Some? ==> (r + c) % 2 == 1
  }

  /** With a capture pending, a one-square step is rejected: its computed
      midpoint is the piece itself, the empty target, or a light square. */
  lemma NoSimpleMoveAfterCapture(f: Field, id: PieceId, endRow: int, endCol: int)
    requires WellFormed(f) && Coherent(f) && DarkSquaresOnly(f)
    requires OnBoard(f, id) && InRange(endRow, endCol)
    requires !IsBig(f.pieces[id], endRow, endCol)
    ensures !IsValidMove(f, f.pieces[id], endRow, endCol, true).ok
  {
    var p := f.pieces[id];
    if (endRow, endCol) != (p.row, p.col) && IsMoveDiagonal(endRow, endCol, p.row, p.col) {
      var mr, mc := MidRow(p, endRow), MidCol(p, endCol);
      assert endRow == p.row + 1 || endRow == p.row - 1;
      assert endCol == p.col + 1 || endCol == p.col - 1;
      assert mr == (if endRow < p.row then endRow else p.row);
      assert mc == (if endCol < p.col then endCol else p.col);
      if (mr, mc) != (p.row, p.col) && (mr, mc) != (endRow, endCol) {
        assert (mr, mc) == (endRow, p.col) || (mr, mc) == (p.row, endCol);
        assert f.board[mr][mc].None?;
      }
    }
  }

  /** The code has no upper bound on a jump: a four-square diagonal move whose
      midpoint holds an opposing piece is accepted and raises the flag. */
  lemma LongJumpAccepted(f: Field, p: Piece)
    requires WellFormed(f) && p == Piece(7, 0, Black, false)
    requires f.board[3][4].None?
    requires f.board[5][2].Some? && f.pieces[f.board[5][2].value].color == Red
    ensures IsValidMove(f, p, 3, 4, false) == Verdict(true, true)
  {
  }
}
