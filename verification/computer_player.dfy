/** The computer side (red): a greedy engine over fixed direction tables.
    Four priority levels are tried in order (king captures, captures by any
    red piece, forward steps, king steps) and the first legal candidate, in
    list order then table order, is played. After a capture the chain goes
    on: king captures are probed again, then the same piece continues from
    the square it jumped to. */
module ComputerPlayer {
  import opened Wrappers
  import opened Pieces
  import opened FieldManager
  import opened MoveValidation
  import opened Scan

  type Direction = (int, int)

  const RegularDirections: seq<Direction> := [(1, -1), (1, 1)]
  const RegularEatingDirections: seq<Direction> := [(2, -2), (2, 2)]
  const KingDirections: seq<Direction> := [(1, -1), (1, 1), (-1, -1), (-1, 1)]
  const KingEatingDirections: seq<Direction> := [(2, -2), (2, 2), (-2, -2), (-2, 2)]

  /** isOutOfBounds: the hard-coded bounds 0..7 are exactly the board. */
  function IsOutOfBounds(row: int, col: int): (b: bool)
    ensures b <==> !InRange(row, col)
  {
    col > 7 || col < 0 || row > 7 || row < 0
  }

  /** kingTransition: a piece whose move ended on the last row is crowned and
      the red-kings list is refreshed. */
  function KingTransition(f: Field, id: PieceId, row: int): (r: Field)
    requires WellFormed(f) && id in f.pieces
    ensures WellFormed(r) && r.pieces.Keys == f.pieces.Keys
    ensures r.pieces[id].isKing <==> (row == SquareNumber - 1 || f.pieces[id].isKing)
    ensures forall k :: k in f.pieces && k != id ==> r.pieces[k] == f.pieces[k]
    ensures r.pieces[id].row == f.pieces[id].row && r.pieces[id].col == f.pieces[id].col
    ensures r.pieces[id].color == f.pieces[id].color
    ensures r.board == f.board && r.black == f.black && r.red == f.red
    ensures row == SquareNumber - 1 ==> r.redKings == KingsOf(r.red, r.pieces)
    ensures row != SquareNumber - 1 ==> r.redKings == f.redKings
    ensures Evolves(f, r)
    ensures Coherent(f) ==> Coherent(r)
  {
    if row == SquareNumber - 1 then
      UpdateRedKingPieces(Crown(f, id))
    else
      f
  }

  /** movePiece followed by kingTransition, as both the capture step and the
      regular step of the computer play them: the occupant of `from` moves,
      and `id` is crowned, with the kings list refreshed, when the move ends
      on the last row. */
  function MoveAndCrown(f: Field, id: PieceId, fromRow: int, fromCol: int, row: int, col: int): (r: Field)
    requires WellFormed(f) && id in f.pieces && InRange(fromRow, fromCol) && InRange(row, col)
    requires f.board[fromRow][fromCol].Some?
    ensures Evolves(f, r) && r.black == f.black
    ensures Coherent(f) ==> Coherent(r)
    ensures (row, col) != (fromRow, fromCol) && f.board[row][col].None? ==> Count(r.board) == Count(f.board)
    ensures r.pieces[id].isKing <==> (row == SquareNumber - 1 || f.pieces[id].isKing)
    ensures row == SquareNumber - 1 ==> r.redKings == KingsOf(r.red, r.pieces)
    ensures row != SquareNumber - 1 ==> r.redKings == f.redKings
  {
    var f1 := MovePiece(f, row, col, fromRow, fromCol);
    MovePieceEvolves(f, row, col, fromRow, fromCol);
    var f2 := KingTransition(f1, id, row);
    EvolvesTransitive(f, f1, f2);
    f2
  }

  /** What the computer's turn may do to the board store: the piece set, the
      red list and every piece's colour stay; crowns are never lost; the black
      list and the number of occupied cells can only shrink. */
  ghost predicate Evolves(f: Field, f': Field)
  {
    && WellFormed(f')
    && f'.pieces.Keys == f.pieces.Keys
    && f'.red == f.red
    && multiset(f'.black) <= multiset(f.black)
    && Count(f'.board) <= Count(f.board)
    && (forall id :: id in f.pieces && id in f'.pieces ==>
          f'.pieces[id].color == f.pieces[id].color && (f.pieces[id].isKing ==> f'.pieces[id].isKing))
  }

  lemma EvolvesTransitive(f: Field, f': Field, f'': Field)
    requires Evolves(f, f') && Evolves(f', f'')
    ensures Evolves(f, f'')
  {
  }

  lemma MovePieceEvolves(f: Field, toRow: int, toCol: int, fromRow: int, fromCol: int)
    requires WellFormed(f) && InRange(toRow, toCol) && InRange(fromRow, fromCol)
    requires f.board[fromRow][fromCol].Some?
    ensures Evolves(f, MovePiece(f, toRow, toCol, fromRow, fromCol))
  {
  }

  /** The target of piece `id` in direction `d`, from its current square. */
  function TargetRow(f: Field, id: PieceId, d: Direction): int
    requires id in f.pieces
  {
    f.pieces[id].row + d.0
  }

  function TargetCol(f: Field, id: PieceId, d: Direction): int
    requires id in f.pieces
  {
    f.pieces[id].col + d.1
  }

  /** The capture test of eatingMove and consecutiveEatingMove: in bounds,
      valid, and the flag raised afterwards. */
  predicate CaptureCandidate(g: Game, id: PieceId, row: int, col: int)
    requires WellFormed(g.field) && id in g.field.pieces
  {
    && !IsOutOfBounds(row, col)
    && var v := IsValidMove(g.field, g.field.pieces[id], row, col, g.hasEaten);
       v.ok && v.hasEaten
  }

  /** The test of regularMove: in bounds and valid. */
  predicate StepCandidate(g: Game, id: PieceId, row: int, col: int)
    requires WellFormed(g.field) && id in g.field.pieces
  {
    && !IsOutOfBounds(row, col)
    && IsValidMove(g.field, g.field.pieces[id], row, col, g.hasEaten).ok
  }

  /** A capture candidate is an accepted capture that raises the flag. */
  lemma CandidateCaptures(g: Game, id: PieceId, row: int, col: int)
    requires WellFormed(g.field) && id in g.field.pieces && CaptureCandidate(g, id, row, col)
    ensures InRange(row, col) && CaptureAt(g.field, g.field.pieces[id], row, col)
    ensures IsValidMove(g.field, g.field.pieces[id], row, col, g.hasEaten) == Verdict(true, true)
  {
  }

  /** The field after the capture part of eatingProcess: the piece at the
      midpoint of `id`'s jump is dropped from the black list (by equality)
      and from the board. */
  function RemoveCaptured(f: Field, id: PieceId, row: int, col: int): (r: Field)
    requires WellFormed(f) && id in f.pieces && InRange(row, col)
    ensures WellFormed(r) && r.pieces == f.pieces && r.red == f.red && r.redKings == f.redKings
    ensures var mr, mc := MidRow(f.pieces[id], row), MidCol(f.pieces[id], col);
      && r.board[mr][mc] == None
      && (f.board[mr][mc].Some? ==> r.black == RemoveEqual(f.black, f.pieces, f.pieces[f.board[mr][mc].value]))
      && (f.board[mr][mc].None? ==> r.black == f.black)
      && Count(r.board) == Count(f.board) - Occupied(f.board[mr][mc])
      && (forall r', c' :: InRange(r', c') && (r', c') != (mr, mc) ==> r.board[r'][c'] == f.board[r'][c'])
    ensures Evolves(f, r)
    ensures Coherent(f) ==> Coherent(r)
  {
    var mr, mc := MidRow(f.pieces[id], row), MidCol(f.pieces[id], col);
    var captured := GetBoardPiece(f, mr, mc);
    var f1 := if captured.Some? then SetBlackPieces(f, RemoveEqual(f.black, f.pieces, f.pieces[captured.value])) else f;
    RemovePiece(f1, mr, mc)
  }

  /** The first part of eatingProcess: capture, then move the occupant of
      (startRow, startCol) to the target and crown `id` on the last row. The
      start square is the one the caller remembered; when it is empty the
      move dereferences null. */
  function CaptureMove(f: Field, id: PieceId, startRow: int, startCol: int, row: int, col: int): (r: Result<Field>)
    requires WellFormed(f) && id in f.pieces && InRange(startRow, startCol) && InRange(row, col)
    ensures r.NullPointer? <==> RemoveCaptured(f, id, row, col).board[startRow][startCol].None?
    ensures r.Ok? ==> Evolves(f, r.value)
    ensures r.Ok? ==> Count(r.value.board) <= Count(f.board) - Occupied(f.board[MidRow(f.pieces[id], row)][MidCol(f.pieces[id], col)])
    ensures r.Ok? && Coherent(f) ==> Coherent(r.value)
    ensures r.Ok? ==> (r.value.pieces[id].isKing <==> (row == SquareNumber - 1 || f.pieces[id].isKing))
    ensures r.Ok? && row == SquareNumber - 1 ==> r.value.redKings == KingsOf(r.value.red, r.value.pieces)
    ensures r.Ok? && row != SquareNumber - 1 ==> r.value.redKings == f.redKings
  {
    var f1 := RemoveCaptured(f, id, row, col);
    if f1.board[startRow][startCol].None? then
      NullPointer
    else
      var f2 := MoveAndCrown(f1, id, startRow, startCol, row, col);
      EvolvesTransitive(f, f1, f2);
      Ok(f2)
  }

  /** eatingProcess: one capture, then the king captures are probed again
      (their outcome is ignored), then the same piece continues with its own
      table from the square it jumped to. Each call removes a piece from the
      board, which bounds the chain. */
  function EatingProcess(g: Game, id: PieceId, startRow: int, startCol: int, row: int, col: int, dirs: seq<Direction>): (r: Result<Game>)
    requires WellFormed(g.field) && id in g.field.pieces && InRange(startRow, startCol) && InRange(row, col)
    requires CaptureAt(g.field, g.field.pieces[id], row, col)
    ensures r.Ok? ==> Evolves(g.field, r.value.field) && Count(r.value.field.board) < Count(g.field.board)
    ensures r.Ok? && Coherent(g.field) ==> Coherent(r.value.field)
    ensures r.Ok? ==> !r.value.hasEaten
    decreases Count(g.field.board), 1, 0, 0
  {
    var moved := CaptureMove(g.field, id, startRow, startCol, row, col);
    if moved.NullPointer? then
      NullPointer
    else
      var f1 := moved.value;
      assert Count(f1.board) < Count(g.field.board);
      var probe := EatingMove(Game(f1, g.hasEaten), f1.redKings, KingEatingDirections);
      if probe.NullPointer? then
        NullPointer
      else
        var g2 := probe.value.1;
        EvolvesTransitive(g.field, f1, g2.field);
        var r := ConsecutiveEatingMove(g2, id, row, col, dirs);
        if r.Ok? then EvolvesTransitive(g.field, g2.field, r.value.field); r else r
  }

  /** The branch of eatingMove that plays a found capture. */
  function TakeCapture(g: Game, id: PieceId, dirs: seq<Direction>, d: Direction): (r: Result<(bool, Game)>)
    requires WellFormed(g.field) && id in g.field.pieces
    requires CaptureCandidate(g, id, TargetRow(g.field, id, d), TargetCol(g.field, id, d))
    ensures r.Ok? ==> r.value.0 && Evolves(g.field, r.value.1.field) && !r.value.1.hasEaten
    ensures r.Ok? ==> Count(r.value.1.field.board) < Count(g.field.board)
    ensures r.Ok? && Coherent(g.field) ==> Coherent(r.value.1.field)
    decreases Count(g.field.board), 2, 0, 0
  {
    var p := g.field.pieces[id];
    CandidateCaptures(g, id, p.row + d.0, p.col + d.1);
    var v := IsValidMove(g.field, p, p.row + d.0, p.col + d.1, g.hasEaten);
    match EatingProcess(g.(hasEaten := v.hasEaten), id, p.row, p.col, p.row + d.0, p.col + d.1, dirs)
    case NullPointer => NullPointer
    case Ok(g') => Ok((true, g'))
  }

  /** The probe of eatingMove at scan position (a, b): piece `ids[a]` tried
      in direction `dirs[b]`. */
  predicate CaptureProbe(g: Game, ids: seq<PieceId>, dirs: seq<Direction>, a: nat, b: nat)
    requires WellFormed(g.field) && IdsIn(ids, g.field.pieces) && a < |ids| && b < |dirs|
  {
    CaptureCandidate(g, ids[a], TargetRow(g.field, ids[a], dirs[b]), TargetCol(g.field, ids[a], dirs[b]))
  }

  /** The probe results of eatingMove, one row per piece of `ids`, one
      column per direction of `dirs`. */
  function CaptureTable(g: Game, ids: seq<PieceId>, dirs: seq<Direction>): (t: seq<seq<bool>>)
    requires WellFormed(g.field) && IdsIn(ids, g.field.pieces)
    ensures |t| == |ids| && Rect(t, |dirs|)
  {
    seq(|ids|, x requires 0 <= x < |ids| => seq(|dirs|, y requires 0 <= y < |dirs| => CaptureProbe(g, ids, dirs, x, y)))
  }

  /** Each entry of the table is the probe at its position. */
  lemma CaptureTableEntry(g: Game, ids: seq<PieceId>, dirs: seq<Direction>, a: nat, b: nat)
    requires WellFormed(g.field) && IdsIn(ids, g.field.pieces) && a < |ids| && b < |dirs|
    ensures CaptureTable(g, ids, dirs)[a][b] == CaptureProbe(g, ids, dirs, a, b)
  {
  }

  /** No capture candidate anywhere in the scan. */
  predicate NoCapture(g: Game, ids: seq<PieceId>, dirs: seq<Direction>)
    requires WellFormed(g.field) && IdsIn(ids, g.field.pieces)
  {
    NoneFrom(CaptureTable(g, ids, dirs), |dirs|, 0, 0)
  }

  /** No capture candidate from scan position (0, 0) up to, not including, (a, b). */
  predicate NoCaptureBefore(g: Game, ids: seq<PieceId>, dirs: seq<Direction>, a: nat, b: nat)
    requires WellFormed(g.field) && IdsIn(ids, g.field.pieces)
  {
    NoneBetween(CaptureTable(g, ids, dirs), |dirs|, 0, 0, a, b)
  }

  /** The search of eatingMove: the first capture candidate in list order,
      then table order. */
  function FirstCapture(g: Game, ids: seq<PieceId>, dirs: seq<Direction>): (r: Option<(nat, nat)>)
    requires WellFormed(g.field) && IdsIn(ids, g.field.pieces)
    ensures r.Some? ==> r.value.0 < |ids| && r.value.1 < |dirs| && CaptureProbe(g, ids, dirs, r.value.0, r.value.1)
  {
    FirstHit(CaptureTable(g, ids, dirs), |dirs|, 0, 0)
  }

  /** eatingMove: play the first capture candidate of the scan and answer
      true, or answer false and leave the game exactly as it was. A probe
      that is not a candidate leaves the flag as it was (the contract of
      IsValidMove), so the search runs on the unchanged game. */
  function EatingMove(g: Game, ids: seq<PieceId>, dirs: seq<Direction>): (r: Result<(bool, Game)>)
    requires WellFormed(g.field) && IdsIn(ids, g.field.pieces)
    ensures r.Ok? ==> Evolves(g.field, r.value.1.field)
    ensures r.Ok? && r.value.0 ==> Count(r.value.1.field.board) < Count(g.field.board)
    ensures r.Ok? && Coherent(g.field) ==> Coherent(r.value.1.field)
    ensures NoCapture(g, ids, dirs) ==> r == Ok((false, g))
    ensures !NoCapture(g, ids, dirs) ==> r.NullPointer? || (r.value.0 && !r.value.1.hasEaten)
    decreases Count(g.field.board), 3, 0, 0
  {
    FirstHitNone(CaptureTable(g, ids, dirs), |dirs|, 0, 0);
    match FirstCapture(g, ids, dirs)
    case None => Ok((false, g))
    case Some((a, b)) => TakeCapture(g, ids[a], dirs, dirs[b])
  }

  /** consecutiveEatingMove: only after a capture (flag raised) — lower the
      flag and scan the table from the landing square. */
  function ConsecutiveEatingMove(g: Game, id: PieceId, row: int, col: int, dirs: seq<Direction>): (r: Result<Game>)
    requires WellFormed(g.field) && id in g.field.pieces && InRange(row, col)
    ensures !g.hasEaten ==> r == Ok(g)
    ensures r.Ok? ==> Evolves(g.field, r.value.field) && !r.value.hasEaten
    ensures r.Ok? && Coherent(g.field) ==> Coherent(r.value.field)
    decreases Count(g.field.board), 3, 0, 0
  {
    if g.hasEaten then ConsecutiveLoop(g.(hasEaten := false), id, row, col, dirs, 0) else Ok(g)
  }

  /** The loop of consecutiveEatingMove. It does not stop after a capture:
      later directions are still tried from the remembered (row, col), while
      the piece itself has moved on; the capture step then moves whatever
      stands on that remembered square, or dereferences null when it is
      empty. */
  function ConsecutiveLoop(g: Game, id: PieceId, row: int, col: int, dirs: seq<Direction>, k: nat): (r: Result<Game>)
    requires WellFormed(g.field) && id in g.field.pieces && InRange(row, col) && k <= |dirs|
    ensures r.Ok? ==> Evolves(g.field, r.value.field)
    ensures r.Ok? && !g.hasEaten ==> !r.value.hasEaten
    ensures r.Ok? && Coherent(g.field) ==> Coherent(r.value.field)
    decreases Count(g.field.board), 2, |dirs| - k, 1
  {
    if k == |dirs| then
      Ok(g)
    else
      var nextRow, nextCol := row + dirs[k].0, col + dirs[k].1;
      if IsOutOfBounds(nextRow, nextCol) then
        ConsecutiveLoop(g, id, row, col, dirs, k + 1)
      else
        var v := IsValidMove(g.field, g.field.pieces[id], nextRow, nextCol, g.hasEaten);
        if v.ok && v.hasEaten then
          CaptureAndGoOn(g.(hasEaten := v.hasEaten), id, row, col, nextRow, nextCol, dirs, k)
        else
          ConsecutiveLoop(g.(hasEaten := v.hasEaten), id, row, col, dirs, k + 1)
  }

  /** The capture branch of the loop of consecutiveEatingMove: capture from
      the remembered square, then try the next direction. */
  function CaptureAndGoOn(g: Game, id: PieceId, row: int, col: int, nextRow: int, nextCol: int, dirs: seq<Direction>, k: nat): (r: Result<Game>)
    requires WellFormed(g.field) && id in g.field.pieces && InRange(row, col) && InRange(nextRow, nextCol) && k < |dirs|
    requires CaptureAt(g.field, g.field.pieces[id], nextRow, nextCol)
    ensures r.Ok? ==> Evolves(g.field, r.value.field) && !r.value.hasEaten
    ensures r.Ok? && Coherent(g.field) ==> Coherent(r.value.field)
    ensures EatingProcess(g, id, row, col, nextRow, nextCol, dirs).NullPointer? ==> r.NullPointer?
    decreases Count(g.field.board), 2, |dirs| - k, 0
  {
    match EatingProcess(g, id, row, col, nextRow, nextCol, dirs)
    case NullPointer => NullPointer
    case Ok(g') =>
      var r := ConsecutiveLoop(g', id, row, col, dirs, k + 1);
      if r.Ok? then EvolvesTransitive(g.field, g'.field, r.value.field); r else r
  }

  /** The branch of regularMove that plays a found step: move from the
      piece's square, crown on the last row, lower the flag. */
  function TakeStep(g: Game, id: PieceId, d: Direction): (r: Result<(bool, Game)>)
    requires WellFormed(g.field) && id in g.field.pieces
    requires StepCandidate(g, id, TargetRow(g.field, id, d), TargetCol(g.field, id, d))
    ensures r.NullPointer? <==> g.field.board[g.field.pieces[id].row][g.field.pieces[id].col].None?
    ensures r.Ok? ==> r.value.0 && !r.value.1.hasEaten && Evolves(g.field, r.value.1.field)
    ensures r.Ok? ==> r.value.1.field.black == g.field.black && Count(r.value.1.field.board) == Count(g.field.board)
    ensures r.Ok? && Coherent(g.field) ==> Coherent(r.value.1.field)
    ensures r.Ok? && OnBoard(g.field, id) ==>
      var row, col := TargetRow(g.field, id, d), TargetCol(g.field, id, d);
      && r.value.1.field.board[row][col] == Some(id)
      && r.value.1.field.pieces[id].row == row && r.value.1.field.pieces[id].col == col
    ensures r.Ok? ==> var row := TargetRow(g.field, id, d);
      && (r.value.1.field.pieces[id].isKing <==> (row == SquareNumber - 1 || g.field.pieces[id].isKing))
      && (row == SquareNumber - 1 ==> r.value.1.field.redKings == KingsOf(r.value.1.field.red, r.value.1.field.pieces))
      && (row != SquareNumber - 1 ==> r.value.1.field.redKings == g.field.redKings)
  {
    var p := g.field.pieces[id];
    var row, col := p.row + d.0, p.col + d.1;
    if g.field.board[p.row][p.col].None? then
      NullPointer
    else
      assert g.field.board[row][col].None? && (row, col) != (p.row, p.col);
      Ok((true, Game(MoveAndCrown(g.field, id, p.row, p.col, row, col), false)))
  }

  /** The probe of regularMove at scan position (a, b). */
  predicate StepProbe(g: Game, ids: seq<PieceId>, dirs: seq<Direction>, a: nat, b: nat)
    requires WellFormed(g.field) && IdsIn(ids, g.field.pieces) && a < |ids| && b < |dirs|
  {
    StepCandidate(g, ids[a], TargetRow(g.field, ids[a], dirs[b]), TargetCol(g.field, ids[a], dirs[b]))
  }

  /** The probe results of regularMove. */
  function StepTable(g: Game, ids: seq<PieceId>, dirs: seq<Direction>): (t: seq<seq<bool>>)
    requires WellFormed(g.field) && IdsIn(ids, g.field.pieces)
    ensures |t| == |ids| && Rect(t, |dirs|)
  {
    seq(|ids|, x requires 0 <= x < |ids| => seq(|dirs|, y requires 0 <= y < |dirs| => StepProbe(g, ids, dirs, x, y)))
  }

  /** Each entry of the table is the probe at its position. */
  lemma StepTableEntry(g: Game, ids: seq<PieceId>, dirs: seq<Direction>, a: nat, b: nat)
    requires WellFormed(g.field) && IdsIn(ids, g.field.pieces) && a < |ids| && b < |dirs|
    ensures StepTable(g, ids, dirs)[a][b] == StepProbe(g, ids, dirs, a, b)
  {
  }

  /** No step candidate anywhere in the scan. */
  predicate NoStep(g: Game, ids: seq<PieceId>, dirs: seq<Direction>)
    requires WellFormed(g.field) && IdsIn(ids, g.field.pieces)
  {
    NoneFrom(StepTable(g, ids, dirs), |dirs|, 0, 0)
  }

  /** No step candidate from scan position (0, 0) up to, not including, (a, b). */
  predicate NoStepBefore(g: Game, ids: seq<PieceId>, dirs: seq<Direction>, a: nat, b: nat)
    requires WellFormed(g.field) && IdsIn(ids, g.field.pieces)
  {
    NoneBetween(StepTable(g, ids, dirs), |dirs|, 0, 0, a, b)
  }

  /** The search of regularMove, in the same order as FirstCapture. */
  function FirstStep(g: Game, ids: seq<PieceId>, dirs: seq<Direction>): (r: Option<(nat, nat)>)
    requires WellFormed(g.field) && IdsIn(ids, g.field.pieces)
    ensures r.Some? ==> r.value.0 < |ids| && r.value.1 < |dirs| && StepProbe(g, ids, dirs, r.value.0, r.value.1)
  {
    FirstHit(StepTable(g, ids, dirs), |dirs|, 0, 0)
  }

  /** The flag as the validation of the step to (a, b) leaves it. */
  function StepFlag(g: Game, ids: seq<PieceId>, dirs: seq<Direction>, a: nat, b: nat): (flag: bool)
    requires WellFormed(g.field) && IdsIn(ids, g.field.pieces) && a < |ids| && b < |dirs|
    requires StepProbe(g, ids, dirs, a, b)
    ensures flag == (g.hasEaten || IsBig(g.field.pieces[ids[a]], TargetRow(g.field, ids[a], dirs[b]), TargetCol(g.field, ids[a], dirs[b])))
  {
    IsValidMove(g.field, g.field.pieces[ids[a]], TargetRow(g.field, ids[a], dirs[b]), TargetCol(g.field, ids[a], dirs[b]), g.hasEaten).hasEaten
  }

  /** regularMove: play the first valid in-bounds step of the scan and answer
      true, or answer false and leave the game exactly as it was. No piece
      is ever removed and a played step lowers the flag. */
  function RegularMove(g: Game, ids: seq<PieceId>, dirs: seq<Direction>): (r: Result<(bool, Game)>)
    requires WellFormed(g.field) && IdsIn(ids, g.field.pieces)
    ensures r.Ok? ==> Evolves(g.field, r.value.1.field)
    ensures r.Ok? ==> r.value.1.field.black == g.field.black && Count(r.value.1.field.board) == Count(g.field.board)
    ensures r.Ok? && Coherent(g.field) ==> Coherent(r.value.1.field)
    ensures NoStep(g, ids, dirs) ==> r == Ok((false, g))
    ensures !NoStep(g, ids, dirs) ==> r.NullPointer? || (r.value.0 && !r.value.1.hasEaten)
  {
    FirstHitNone(StepTable(g, ids, dirs), |dirs|, 0, 0);
    match FirstStep(g, ids, dirs)
    case None => Ok((false, g))
    case Some((a, b)) => TakeStep(g.(hasEaten := StepFlag(g, ids, dirs, a, b)), ids[a], dirs[b])
  }

  /** The game after the red-kings refresh that opens computerMove. */
  function Refreshed(g: Game): (g': Game)
    requires WellFormed(g.field)
    ensures WellFormed(g'.field) && g'.hasEaten == g.hasEaten
    ensures g'.field.redKings == KingsOf(g.field.red, g.field.pieces)
    ensures Evolves(g.field, g'.field)
  {
    Game(UpdateRedKingPieces(g.field), g.hasEaten)
  }

  /** Some capture is open to the computer after the kings refresh: a king
      capture or a forward capture by any red piece. */
  predicate CaptureAvailable(g0: Game)
    requires WellFormed(g0.field) && IdsIn(g0.field.redKings, g0.field.pieces) && IdsIn(g0.field.red, g0.field.pieces)
  {
    || !NoCapture(g0, g0.field.redKings, KingEatingDirections)
    || !NoCapture(g0, g0.field.red, RegularEatingDirections)
  }

  /** Some step is open to the computer: a forward step by any red piece or
      a king step. */
  predicate StepAvailable(g0: Game)
    requires WellFormed(g0.field) && IdsIn(g0.field.redKings, g0.field.pieces) && IdsIn(g0.field.red, g0.field.pieces)
  {
    || !NoStep(g0, g0.field.red, RegularDirections)
    || !NoStep(g0, g0.field.redKings, KingDirections)
  }

  /** The two capture levels of computerMove: king captures, then forward
      captures by any red piece. With a capture open one is played (or the
      chain dereferences null); with none open the game is left as it was. */
  function Captures(g0: Game): (r: Result<(bool, Game)>)
    requires WellFormed(g0.field) && IdsIn(g0.field.redKings, g0.field.pieces) && IdsIn(g0.field.red, g0.field.pieces)
    ensures r.Ok? ==> Evolves(g0.field, r.value.1.field)
    ensures r.Ok? && Coherent(g0.field) ==> Coherent(r.value.1.field)
    ensures CaptureAvailable(g0) ==>
      r.NullPointer? || (r.value.0 && !r.value.1.hasEaten && Count(r.value.1.field.board) < Count(g0.field.board))
    ensures !CaptureAvailable(g0) ==> r == Ok((false, g0))
  {
    var t1 := EatingMove(g0, g0.field.redKings, KingEatingDirections);
    if t1.NullPointer? || t1.value.0 then t1
    else EatingMove(g0, g0.field.red, RegularEatingDirections)
  }

  /** The two step levels of computerMove: forward steps by any red piece,
      then king steps. No piece is removed. */
  function Steps(g0: Game): (r: Result<(bool, Game)>)
    requires WellFormed(g0.field) && IdsIn(g0.field.redKings, g0.field.pieces) && IdsIn(g0.field.red, g0.field.pieces)
    ensures r.Ok? ==> Evolves(g0.field, r.value.1.field)
    ensures r.Ok? ==> r.value.1.field.black == g0.field.black && Count(r.value.1.field.board) == Count(g0.field.board)
    ensures r.Ok? && Coherent(g0.field) ==> Coherent(r.value.1.field)
    ensures StepAvailable(g0) ==> r.NullPointer? || (r.value.0 && !r.value.1.hasEaten)
    ensures !StepAvailable(g0) ==> r == Ok((false, g0))
  {
    var t3 := RegularMove(g0, g0.field.red, RegularDirections);
    if t3.NullPointer? || t3.value.0 then t3
    else RegularMove(g0, g0.field.redKings, KingDirections)
  }

  /** computerMove: refresh the kings list, then king captures, captures by
      any red piece, forward steps, king steps; the first level that plays
      ends the turn. The red list is never changed and the black list only
      loses pieces. Captures are compulsory: when one is open the turn
      removes a piece; when none is open nothing is removed; when nothing at
      all is open only the kings list is refreshed. */
  function ComputerMove(g: Game): (r: Result<Game>)
    requires WellFormed(g.field)
    ensures r.Ok? ==> Evolves(g.field, r.value.field)
    ensures r.Ok? && Coherent(g.field) ==> Coherent(r.value.field)
    ensures r.Ok? && CaptureAvailable(Refreshed(g)) ==> Count(r.value.field.board) < Count(g.field.board)
    ensures r.Ok? && !CaptureAvailable(Refreshed(g)) ==>
      Count(r.value.field.board) == Count(g.field.board) && r.value.field.black == g.field.black
    ensures !CaptureAvailable(Refreshed(g)) && !StepAvailable(Refreshed(g)) ==> r == Ok(Refreshed(g))
    ensures r.Ok? && !g.hasEaten ==> !r.value.hasEaten
  {
    var g0 := Refreshed(g);
    var c := Captures(g0);
    if c.NullPointer? then NullPointer
    else if c.value.0 then EvolvesTransitive(g.field, g0.field, c.value.1.field); Ok(c.value.1)
    else
      var s := Steps(g0);
      if s.NullPointer? then NullPointer
      else EvolvesTransitive(g.field, g0.field, s.value.1.field); Ok(s.value.1)
  }

  /** What the capture search finds is a candidate with none before it. */
  lemma FirstCaptureIsFirst(g: Game, ids: seq<PieceId>, dirs: seq<Direction>)
    requires WellFormed(g.field) && IdsIn(ids, g.field.pieces)
    requires FirstCapture(g, ids, dirs).Some?
    ensures NoCaptureBefore(g, ids, dirs, FirstCapture(g, ids, dirs).value.0, FirstCapture(g, ids, dirs).value.1)
  {
    FirstHitIsFirst(CaptureTable(g, ids, dirs), |dirs|, 0, 0);
  }

  /** What the step search finds is a candidate with none before it. */
  lemma FirstStepIsFirst(g: Game, ids: seq<PieceId>, dirs: seq<Direction>)
    requires WellFormed(g.field) && IdsIn(ids, g.field.pieces)
    requires FirstStep(g, ids, dirs).Some?
    ensures NoStepBefore(g, ids, dirs, FirstStep(g, ids, dirs).value.0, FirstStep(g, ids, dirs).value.1)
  {
    FirstHitIsFirst(StepTable(g, ids, dirs), |dirs|, 0, 0);
  }

  /** eatingMove plays the first capture candidate in list order, then table
      order. */
  lemma EatingMoveTakesFirst(g: Game, ids: seq<PieceId>, dirs: seq<Direction>, a: nat, b: nat)
    requires WellFormed(g.field) && IdsIn(ids, g.field.pieces) && a < |ids| && b < |dirs|
    requires CaptureProbe(g, ids, dirs, a, b) && NoCaptureBefore(g, ids, dirs, a, b)
    ensures EatingMove(g, ids, dirs) == TakeCapture(g, ids[a], dirs, dirs[b])
  {
    CaptureTableEntry(g, ids, dirs, a, b);
    FirstHitFinds(CaptureTable(g, ids, dirs), |dirs|, 0, 0, a, b);
  }

  /** regularMove plays the first step candidate in list order, then table
      order, validated with the flag as it stood. */
  lemma RegularMoveTakesFirst(g: Game, ids: seq<PieceId>, dirs: seq<Direction>, a: nat, b: nat)
    requires WellFormed(g.field) && IdsIn(ids, g.field.pieces) && a < |ids| && b < |dirs|
    requires StepProbe(g, ids, dirs, a, b) && NoStepBefore(g, ids, dirs, a, b)
    ensures RegularMove(g, ids, dirs) == TakeStep(g.(hasEaten := StepFlag(g, ids, dirs, a, b)), ids[a], dirs[b])
  {
    StepTableEntry(g, ids, dirs, a, b);
    FirstHitFinds(StepTable(g, ids, dirs), |dirs|, 0, 0, a, b);
  }

  /** The capture step of eatingProcess when the remembered start square is
      the piece's own square: the jumped piece leaves the board and the black
      list, the piece lands on the target, and its start square is left
      empty. */
  lemma CaptureMoveEffect(f: Field, id: PieceId, row: int, col: int)
    requires WellFormed(f) && Coherent(f) && OnBoard(f, id) && InRange(row, col)
    requires CaptureAt(f, f.pieces[id], row, col) && f.board[row][col].None?
    ensures var p := f.pieces[id];
      var mr, mc := MidRow(p, row), MidCol(p, col);
      var r := CaptureMove(f, id, p.row, p.col, row, col);
      && r.Ok?
      && r.value.board[p.row][p.col] == None
      && r.value.board[mr][mc] == None
      && r.value.board[row][col] == Some(id)
      && r.value.pieces[id].row == row && r.value.pieces[id].col == col
      && r.value.black == RemoveEqual(f.black, f.pieces, f.pieces[f.board[mr][mc].value])
      && r.value.red == f.red
  {
    var p := f.pieces[id];
    var mr, mc := MidRow(p, row), MidCol(p, col);
    assert (mr, mc) != (p.row, p.col);
    assert (mr, mc) != (row, col);
    var f1 := RemoveCaptured(f, id, row, col);
    assert f1.board[p.row][p.col] == Some(id);
  }

  /** eatingProcess after a successful capture step: the king re-probe on
      the new field, then the continuation on whatever the probe left. */
  lemma EatingProcessUnfold(g: Game, id: PieceId, startRow: int, startCol: int, row: int, col: int, dirs: seq<Direction>)
    requires WellFormed(g.field) && id in g.field.pieces && InRange(startRow, startCol) && InRange(row, col)
    requires CaptureAt(g.field, g.field.pieces[id], row, col)
    requires CaptureMove(g.field, id, startRow, startCol, row, col).Ok?
    ensures var g1 := Game(CaptureMove(g.field, id, startRow, startCol, row, col).value, g.hasEaten);
      var probe := EatingMove(g1, g1.field.redKings, KingEatingDirections);
      && (probe.NullPointer? ==> EatingProcess(g, id, startRow, startCol, row, col, dirs).NullPointer?)
      && (probe.Ok? ==> EatingProcess(g, id, startRow, startCol, row, col, dirs) == ConsecutiveEatingMove(probe.value.1, id, row, col, dirs))
  {
  }

  /** When the king re-probe after a capture finds nothing, the same piece
      continues from its landing square with the flag the capture raised. */
  lemma EatingProcessContinuesWithPiece(g: Game, id: PieceId, startRow: int, startCol: int, row: int, col: int, dirs: seq<Direction>)
    requires WellFormed(g.field) && id in g.field.pieces && InRange(startRow, startCol) && InRange(row, col)
    requires CaptureAt(g.field, g.field.pieces[id], row, col)
    requires CaptureMove(g.field, id, startRow, startCol, row, col).Ok?
    requires var f1 := CaptureMove(g.field, id, startRow, startCol, row, col).value;
      NoCapture(Game(f1, g.hasEaten), f1.redKings, KingEatingDirections)
    ensures var f1 := CaptureMove(g.field, id, startRow, startCol, row, col).value;
      EatingProcess(g, id, startRow, startCol, row, col, dirs) == ConsecutiveEatingMove(Game(f1, g.hasEaten), id, row, col, dirs)
  {
    EatingProcessUnfold(g, id, startRow, startCol, row, col, dirs);
  }

  /** When a king captures in the re-probe after a capture, that chain ends
      with the flag lowered, so the piece that captured first does not
      continue: the turn's result is the king chain's. */
  lemma EatingProcessYieldsToKing(g: Game, id: PieceId, startRow: int, startCol: int, row: int, col: int, dirs: seq<Direction>)
    requires WellFormed(g.field) && id in g.field.pieces && InRange(startRow, startCol) && InRange(row, col)
    requires CaptureAt(g.field, g.field.pieces[id], row, col)
    requires CaptureMove(g.field, id, startRow, startCol, row, col).Ok?
    requires var f1 := CaptureMove(g.field, id, startRow, startCol, row, col).value;
      !NoCapture(Game(f1, g.hasEaten), f1.redKings, KingEatingDirections)
    ensures var f1 := CaptureMove(g.field, id, startRow, startCol, row, col).value;
      var probe := EatingMove(Game(f1, g.hasEaten), f1.redKings, KingEatingDirections);
      && (probe.NullPointer? ==> EatingProcess(g, id, startRow, startCol, row, col, dirs).NullPointer?)
      && (probe.Ok? ==> probe.value.0 && EatingProcess(g, id, startRow, startCol, row, col, dirs) == Ok(probe.value.1))
  {
    EatingProcessUnfold(g, id, startRow, startCol, row, col, dirs);
  }

  /** At a capture candidate the loop takes its capture branch with the
      flag raised, capturing from the square it was given. */
  lemma ConsecutiveLoopAtCandidate(g: Game, id: PieceId, row: int, col: int, dirs: seq<Direction>, k: nat)
    requires WellFormed(g.field) && id in g.field.pieces && InRange(row, col) && k < |dirs|
    requires CaptureCandidate(g, id, row + dirs[k].0, col + dirs[k].1)
    ensures InRange(row + dirs[k].0, col + dirs[k].1)
    ensures CaptureAt(g.field, g.field.pieces[id], row + dirs[k].0, col + dirs[k].1)
    ensures ConsecutiveLoop(g, id, row, col, dirs, k) ==
      CaptureAndGoOn(Game(g.field, true), id, row, col, row + dirs[k].0, col + dirs[k].1, dirs, k)
  {
    CandidateCaptures(g, id, row + dirs[k].0, col + dirs[k].1);
  }

  /** consecutiveEatingMove keeps probing from the square it was given after
      a capture has moved the piece away. When that square is empty and a
      later direction is still a capture candidate for the moved piece (see
      ConsecutiveLoopAtCandidate), the capture step reads the emptied square
      and dereferences null. */
  lemma StaleCaptureFails(g: Game, id: PieceId, row: int, col: int, nr: int, nc: int, dirs: seq<Direction>, k: nat)
    requires WellFormed(g.field) && id in g.field.pieces && InRange(row, col) && InRange(nr, nc) && k < |dirs|
    requires CaptureAt(g.field, g.field.pieces[id], nr, nc)
    requires g.field.board[row][col].None?
    ensures CaptureAndGoOn(Game(g.field, true), id, row, col, nr, nc, dirs, k).NullPointer?
  {
    assert RemoveCaptured(g.field, id, nr, nc).board[row][col].None?;
  }


  /** A capture level that plays, or fails, decides the turn. */
  lemma ComputerMoveByCaptures(g: Game)
    requires WellFormed(g.field)
    ensures var g0 := Refreshed(g); var c := Captures(g0);
      && (c.NullPointer? ==> ComputerMove(g).NullPointer?)
      && (c.Ok? && c.value.0 ==> ComputerMove(g) == Ok(c.value.1))
  {
  }

  /** With no capture open, the step levels decide the turn. */
  lemma ComputerMoveBySteps(g: Game)
    requires WellFormed(g.field) && !CaptureAvailable(Refreshed(g))
    ensures var g0 := Refreshed(g); var s := Steps(g0);
      && (s.NullPointer? ==> ComputerMove(g).NullPointer?)
      && (s.Ok? ==> ComputerMove(g) == Ok(s.value.1))
  {
    var g0 := Refreshed(g);
    assert Captures(g0) == Ok((false, g0));
  }

  /** First priority: the first king capture (list order, then table order)
      is the move played. */
  lemma ComputerMoveKingCaptureFirst(g: Game, a: nat, b: nat)
    requires WellFormed(g.field)
    requires var g0 := Refreshed(g); var kings := g0.field.redKings;
      && a < |kings| && b < |KingEatingDirections|
      && CaptureProbe(g0, kings, KingEatingDirections, a, b)
      && NoCaptureBefore(g0, kings, KingEatingDirections, a, b)
    ensures var g0 := Refreshed(g);
      var t := TakeCapture(g0, g0.field.redKings[a], KingEatingDirections, KingEatingDirections[b]);
      (t.NullPointer? ==> ComputerMove(g).NullPointer?) && (t.Ok? ==> ComputerMove(g) == Ok(t.value.1))
  {
    var g0 := Refreshed(g);
    EatingMoveTakesFirst(g0, g0.field.redKings, KingEatingDirections, a, b);
    ComputerMoveByCaptures(g);
  }

  /** Second priority: with no king capture available, the first forward
      capture by a red piece is the move played. */
  lemma ComputerMoveCaptureSecond(g: Game, a: nat, b: nat)
    requires WellFormed(g.field)
    requires var g0 := Refreshed(g); var red := g0.field.red;
      && NoCapture(g0, g0.field.redKings, KingEatingDirections)
      && a < |red| && b < |RegularEatingDirections|
      && CaptureProbe(g0, red, RegularEatingDirections, a, b)
      && NoCaptureBefore(g0, red, RegularEatingDirections, a, b)
    ensures var g0 := Refreshed(g);
      var t := TakeCapture(g0, g0.field.red[a], RegularEatingDirections, RegularEatingDirections[b]);
      (t.NullPointer? ==> ComputerMove(g).NullPointer?) && (t.Ok? ==> ComputerMove(g) == Ok(t.value.1))
  {
    var g0 := Refreshed(g);
    EatingMoveTakesFirst(g0, g0.field.red, RegularEatingDirections, a, b);
    assert EatingMove(g0, g0.field.redKings, KingEatingDirections) == Ok((false, g0));
    assert Captures(g0) == EatingMove(g0, g0.field.red, RegularEatingDirections);
    ComputerMoveByCaptures(g);
  }

  /** Third priority: with no capture available at all, the first forward
      step by a red piece is the move played. */
  lemma ComputerMoveStepThird(g: Game, a: nat, b: nat)
    requires WellFormed(g.field)
    requires var g0 := Refreshed(g); var red := g0.field.red;
      && NoCapture(g0, g0.field.redKings, KingEatingDirections)
      && NoCapture(g0, red, RegularEatingDirections)
      && a < |red| && b < |RegularDirections|
      && StepProbe(g0, red, RegularDirections, a, b)
      && NoStepBefore(g0, red, RegularDirections, a, b)
    ensures var g0 := Refreshed(g); var red := g0.field.red;
      var t := TakeStep(g0.(hasEaten := StepFlag(g0, red, RegularDirections, a, b)), red[a], RegularDirections[b]);
      (t.NullPointer? ==> ComputerMove(g).NullPointer?) && (t.Ok? ==> ComputerMove(g) == Ok(t.value.1))
  {
    var g0 := Refreshed(g);
    RegularMoveTakesFirst(g0, g0.field.red, RegularDirections, a, b);
    StepTableEntry(g0, g0.field.red, RegularDirections, a, b);
    assert Steps(g0) == RegularMove(g0, g0.field.red, RegularDirections);
    ComputerMoveBySteps(g);
  }

  /** Last priority: only when no other level plays does a king step
      backwards or forwards, the first one found being played. */
  lemma ComputerMoveKingStepLast(g: Game, a: nat, b: nat)
    requires WellFormed(g.field)
    requires var g0 := Refreshed(g); var kings := g0.field.redKings;
      && NoCapture(g0, kings, KingEatingDirections)
      && NoCapture(g0, g0.field.red, RegularEatingDirections)
      && NoStep(g0, g0.field.red, RegularDirections)
      && a < |kings| && b < |KingDirections|
      && StepProbe(g0, kings, KingDirections, a, b)
      && NoStepBefore(g0, kings, KingDirections, a, b)
    ensures var g0 := Refreshed(g); var kings := g0.field.redKings;
      var t := TakeStep(g0.(hasEaten := StepFlag(g0, kings, KingDirections, a, b)), kings[a], KingDirections[b]);
      (t.NullPointer? ==> ComputerMove(g).NullPointer?) && (t.Ok? ==> ComputerMove(g) == Ok(t.value.1))
  {
    var g0 := Refreshed(g);
    RegularMoveTakesFirst(g0, g0.field.redKings, KingDirections, a, b);
    assert RegularMove(g0, g0.field.red, RegularDirections) == Ok((false, g0));
    assert Steps(g0) == RegularMove(g0, g0.field.redKings, KingDirections);
    ComputerMoveBySteps(g);
  }
}
