/** The human side (black): a click on an empty square with a selected piece
    attempts a move. The answer code tells the scene whether the capture
    chain continues (1), the turn is over (2) or nothing happened (0). */
module HumanPlayer {
  import opened Wrappers
  import opened Pieces
  import opened FieldManager
  import opened MoveValidation

  datatype MoveResult = NoMove | CaptureContinues | TurnComplete

  /** The integer code handed back to the scene. */
  function Code(m: MoveResult): (code: int)
    ensures 0 <= code <= 2
    ensures code == 0 <==> m == NoMove
    ensures code == 1 <==> m == CaptureContinues
  {
    match m
    case NoMove => 0
    case CaptureContinues => 1
    case TurnComplete => 2
  }

  /** Every piece keeps its colour. */
  ghost predicate SameColors(f: Field, f': Field)
  {
    && f'.pieces.Keys == f.pieces.Keys
    && forall k :: k in f.pieces ==> f'.pieces[k].color == f.pieces[k].color
  }

  /** kingTransition: a piece whose move ended on row 0 is crowned; the
      crown is kept, nothing else about the piece or the board changes. */
  function KingTransition(f: Field, row: int, id: PieceId): (r: Field)
    requires WellFormed(f) && id in f.pieces
    ensures WellFormed(r)
    ensures r.pieces.Keys == f.pieces.Keys
    ensures r.pieces[id].isKing <==> (row == 0 || f.pieces[id].isKing)
    ensures forall k :: k in f.pieces ==>
      Equals(r.pieces[k], if k == id && row == 0 then MakeKing(f.pieces[k]) else f.pieces[k])
    ensures r.board == f.board && r.black == f.black && r.red == f.red && r.redKings == f.redKings
    ensures SameColors(f, r)
    ensures Coherent(f) ==> Coherent(r)
  {
    if row == 0 then Crown(f, id) else f
  }

  /** The field after the piece at the midpoint of `p`'s jump to (row, col) is
      dropped from the red list (by equality) and from the board; unchanged
      when the midpoint is empty. */
  function RemoveCaptured(f: Field, p: Piece, row: int, col: int): (r: Field)
    requires WellFormed(f) && InRange(p.row, p.col) && InRange(row, col)
    ensures WellFormed(r) && r.pieces == f.pieces && r.black == f.black && r.redKings == f.redKings
    ensures var cell := f.board[MidRow(p, row)][MidCol(p, col)];
      && r.board[MidRow(p, row)][MidCol(p, col)] == None
      && (cell.Some? ==> r.red == RemoveEqual(f.red, f.pieces, f.pieces[cell.value]))
      && (cell.None? ==> r.red == f.red)
    ensures forall r', c' :: InRange(r', c') && (r', c') != (MidRow(p, row), MidCol(p, col)) ==>
      r.board[r'][c'] == f.board[r'][c']
    ensures Count(r.board) == Count(f.board) - Occupied(f.board[MidRow(p, row)][MidCol(p, col)])
    ensures Coherent(f) ==> Coherent(r)
  {
    var mr, mc := MidRow(p, row), MidCol(p, col);
    var captured := GetBoardPiece(f, mr, mc);
    if captured.Some? then
      RemovePiece(SetRedPieces(f, RemoveEqual(f.red, f.pieces, f.pieces[captured.value])), mr, mc)
    else
      f
  }

  /** humanEatingProcess: remove the jumped piece, move the selected piece,
      crown it on row 0. Moving reads the selected piece's own square, so the
      step fails with a null dereference when that square is empty. */
  function HumanEatingProcess(f: Field, row: int, col: int, id: PieceId): (r: Result<Field>)
    requires WellFormed(f) && id in f.pieces && InRange(row, col)
    ensures r.NullPointer? <==>
      RemoveCaptured(f, f.pieces[id], row, col).board[f.pieces[id].row][f.pieces[id].col].None?
    ensures r.Ok? ==> WellFormed(r.value) && r.value.pieces.Keys == f.pieces.Keys
    ensures r.Ok? ==> r.value.black == f.black && r.value.redKings == f.redKings
    ensures r.Ok? ==> r.value.red == RemoveCaptured(f, f.pieces[id], row, col).red
    ensures r.Ok? ==> SameColors(f, r.value)
    ensures r.Ok? ==> Count(r.value.board) < Count(f.board) || f.board[MidRow(f.pieces[id], row)][MidCol(f.pieces[id], col)].None?
    ensures r.Ok? && Coherent(f) ==> Coherent(r.value)
  {
    var p := f.pieces[id];
    var f1 := RemoveCaptured(f, p, row, col);
    if f1.board[p.row][p.col].None? then
      NullPointer
    else
      Ok(KingTransition(MovePiece(f1, row, col, p.row, p.col), row, id))
  }

  /** The plain step that ends the turn: move, crown on row 0, lower the flag. */
  function CompleteStep(g: Game, row: int, col: int, id: PieceId): (r: Result<(MoveResult, Game)>)
    requires WellFormed(g.field) && id in g.field.pieces && InRange(row, col)
    ensures r.NullPointer? <==> g.field.board[g.field.pieces[id].row][g.field.pieces[id].col].None?
    ensures r.Ok? ==> r.value.0 == TurnComplete && !r.value.1.hasEaten
    ensures r.Ok? ==> WellFormed(r.value.1.field) && r.value.1.field.pieces.Keys == g.field.pieces.Keys
    ensures r.Ok? ==> r.value.1.field.black == g.field.black && r.value.1.field.red == g.field.red
    ensures r.Ok? ==> r.value.1.field.redKings == g.field.redKings && SameColors(g.field, r.value.1.field)
    ensures r.Ok? ==> Count(r.value.1.field.board) <= Count(g.field.board)
    ensures r.Ok? && Coherent(g.field) ==> Coherent(r.value.1.field)
  {
    var p := g.field.pieces[id];
    if g.field.board[p.row][p.col].None? then
      NullPointer
    else
      Ok((TurnComplete, Game(KingTransition(MovePiece(g.field, row, col, p.row, p.col), row, id), false)))
  }

  /** The capture step that keeps the turn: the flag stays raised. */
  function CaptureStep(g: Game, row: int, col: int, id: PieceId): (r: Result<(MoveResult, Game)>)
    requires WellFormed(g.field) && id in g.field.pieces && InRange(row, col)
    ensures r.Ok? ==> r.value.0 == CaptureContinues && r.value.1.hasEaten
    ensures r.Ok? ==> WellFormed(r.value.1.field) && r.value.1.field.pieces.Keys == g.field.pieces.Keys
    ensures r.Ok? ==> r.value.1.field.black == g.field.black && r.value.1.field.redKings == g.field.redKings
    ensures r.Ok? ==> SameColors(g.field, r.value.1.field)
    ensures r.Ok? && Coherent(g.field) ==> Coherent(r.value.1.field)
    ensures r.NullPointer? <==> HumanEatingProcess(g.field, row, col, id).NullPointer?
    ensures r.Ok? ==> r.value.1.field == HumanEatingProcess(g.field, row, col, id).value
  {
    match HumanEatingProcess(g.field, row, col, id)
    case NullPointer => NullPointer
    case Ok(f') => Ok((CaptureContinues, Game(f', true)))
  }

  /** handleCaptureSubsequentSteps: the move after a capture. Because a raised
      flag is never lowered by validation, the answer is 0 or 1 and never 2. */
  function HandleCaptureSubsequentSteps(g: Game, row: int, col: int, id: PieceId): (r: Result<(MoveResult, Game)>)
    requires WellFormed(g.field) && id in g.field.pieces && InRange(row, col)
    ensures !Legal(g.field, g.field.pieces[id], row, col, g.hasEaten) ==> r == Ok((NoMove, g))
    ensures g.hasEaten ==> r.Ok? ==> r.value.0 != TurnComplete
    ensures r.Ok? && r.value.0 == CaptureContinues ==>
      Legal(g.field, g.field.pieces[id], row, col, g.hasEaten) && CaptureAt(g.field, g.field.pieces[id], row, col)
    ensures Legal(g.field, g.field.pieces[id], row, col, g.hasEaten) ==>
      r.NullPointer? || r.value.0 == (if g.hasEaten || IsBig(g.field.pieces[id], row, col) then CaptureContinues else TurnComplete)
  {
    var v := IsValidMove(g.field, g.field.pieces[id], row, col, g.hasEaten);
    if v.hasEaten && v.ok then
      CaptureStep(g, row, col, id)
    else if v.ok then
      CompleteStep(g, row, col, id)
    else
      Ok((NoMove, g.(hasEaten := v.hasEaten)))
  }

  /** handleMoveClick. With no selection, or a move that breaks the rules, the
      answer is 0 and the game is untouched. A legal long move is a capture
      (answer 1, flag raised); a legal short move with no capture pending
      ends the turn (answer 2, flag lowered). The black list is never
      touched. */
  function HandleMoveClick(g: Game, row: int, col: int, selected: Option<PieceId>): (r: Result<(MoveResult, Game)>)
    requires WellFormed(g.field) && InRange(row, col)
    requires selected.Some? ==> selected.value in g.field.pieces
    ensures selected.None? ==> r == Ok((NoMove, g))
    ensures selected.Some? && !Legal(g.field, g.field.pieces[selected.value], row, col, g.hasEaten) ==>
      r == Ok((NoMove, g))
    ensures selected.Some? && Legal(g.field, g.field.pieces[selected.value], row, col, g.hasEaten) ==>
      r.Ok? ==> r.value.0 != NoMove
    ensures r.Ok? && r.value.0 == TurnComplete ==>
      && selected.Some? && !g.hasEaten && !r.value.1.hasEaten
      && !IsBig(g.field.pieces[selected.value], row, col)
      && r.value.1.field.red == g.field.red
    ensures r.Ok? && r.value.0 == CaptureContinues ==>
      && selected.Some? && r.value.1.hasEaten
      && CaptureAt(g.field, g.field.pieces[selected.value], row, col)
    ensures r.Ok? ==> WellFormed(r.value.1.field) && r.value.1.field.pieces.Keys == g.field.pieces.Keys
    ensures r.Ok? ==> SameColors(g.field, r.value.1.field)
    ensures r.Ok? ==> r.value.1.field.black == g.field.black
    ensures r.Ok? && Coherent(g.field) ==> Coherent(r.value.1.field)
  {
    if g.hasEaten && selected.Some? then
      HandleCaptureSubsequentSteps(g, row, col, selected.value)
    else if selected.None? then
      Ok((NoMove, g))
    else
      var id := selected.value;
      var v := IsValidMove(g.field, g.field.pieces[id], row, col, g.hasEaten);
      if !v.ok then
        Ok((NoMove, g.(hasEaten := v.hasEaten)))
      else if v.hasEaten then
        CaptureStep(g, row, col, id)
      else
        CompleteStep(g, row, col, id)
  }

  /** A legal capture by a selected piece that stands on its own square: the
      answer is 1 with the flag raised; the jumped piece leaves the board and
      the red list (by equality); the selected piece lands on the target with
      its coordinates updated, crowned on row 0; exactly one cell empties. */
  lemma HumanCaptureEffect(g: Game, row: int, col: int, id: PieceId)
    requires WellFormed(g.field) && Coherent(g.field) && OnBoard(g.field, id) && InRange(row, col)
    requires Legal(g.field, g.field.pieces[id], row, col, g.hasEaten)
    requires g.hasEaten || IsBig(g.field.pieces[id], row, col)
    ensures var f, p := g.field, g.field.pieces[id];
      var mr, mc := MidRow(p, row), MidCol(p, col);
      var r := HandleMoveClick(g, row, col, Some(id));
      && r.Ok? && r.value.0 == CaptureContinues && r.value.1.hasEaten
      && r.value.1.field.board[mr][mc] == None
      && r.value.1.field.board[p.row][p.col] == None
      && r.value.1.field.board[row][col] == Some(id)
      && r.value.1.field.pieces[id] == Piece(row, col, p.color, p.isKing || row == 0)
      && r.value.1.field.red == RemoveEqual(f.red, f.pieces, f.pieces[f.board[mr][mc].value])
      && r.value.1.field.black == f.black
      && Count(r.value.1.field.board) == Count(f.board) - 1
  {
    var f, p := g.field, g.field.pieces[id];
    var mr, mc := MidRow(p, row), MidCol(p, col);
    var v := IsValidMove(f, p, row, col, g.hasEaten);
    assert v.ok && v.hasEaten;
    assert f.pieces[f.board[mr][mc].value].color != p.color;
    assert (mr, mc) != (p.row, p.col);
    assert (mr, mc) != (row, col);
    var f1 := RemoveCaptured(f, p, row, col);
    assert f1.board[p.row][p.col] == Some(id);
    assert (row, col) != (p.row, p.col);
    var f2 := MovePiece(f1, row, col, p.row, p.col);
    assert Count(f2.board) == Count(f1.board);
  }

  /** A legal one-square move with no capture pending: the answer is 2 with
      the flag lowered; the piece moves from its square to the target, is
      crowned on row 0, and no piece is removed anywhere. */
  lemma HumanStepEffect(g: Game, row: int, col: int, id: PieceId)
    requires WellFormed(g.field) && Coherent(g.field) && OnBoard(g.field, id) && InRange(row, col)
    requires !g.hasEaten && Legal(g.field, g.field.pieces[id], row, col, false)
    requires !IsBig(g.field.pieces[id], row, col)
    ensures var f, p := g.field, g.field.pieces[id];
      var r := HandleMoveClick(g, row, col, Some(id));
      && r.Ok? && r.value.0 == TurnComplete && !r.value.1.hasEaten
      && r.value.1.field.board[p.row][p.col] == None
      && r.value.1.field.board[row][col] == Some(id)
      && r.value.1.field.pieces[id] == Piece(row, col, p.color, p.isKing || row == 0)
      && r.value.1.field.red == f.red && r.value.1.field.black == f.black
      && Count(r.value.1.field.board) == Count(f.board)
  {
    var f, p := g.field, g.field.pieces[id];
    assert (row, col) != (p.row, p.col);
  }

  /** The human path never shortens the black list, and a capture shortens
      the red list by exactly one when the jumped piece is listed there. */
  lemma HumanCaptureShrinksRedList(g: Game, row: int, col: int, id: PieceId)
    requires WellFormed(g.field) && Coherent(g.field) && OnBoard(g.field, id) && InRange(row, col)
    requires Legal(g.field, g.field.pieces[id], row, col, g.hasEaten)
    requires g.hasEaten || IsBig(g.field.pieces[id], row, col)
    requires g.field.board[MidRow(g.field.pieces[id], row)][MidCol(g.field.pieces[id], col)].value in g.field.red
    ensures var r := HandleMoveClick(g, row, col, Some(id));
      r.Ok? && |r.value.1.field.red| == |g.field.red| - 1 && r.value.1.field.black == g.field.black
  {
    var f, p := g.field, g.field.pieces[id];
    var captured := f.board[MidRow(p, row)][MidCol(p, col)].value;
    HumanCaptureEffect(g, row, col, id);
    var k :| 0 <= k < |f.red| && f.red[k] == captured;
    RemoveEqualShortens(f.red, f.pieces, f.pieces[captured], k);
  }
}
