/** The board store: an 8x8 grid of optional piece references, the pieces
    themselves (keyed by id, standing in for the Java object references), the
    two ordered side lists and the derived list of red kings. */
module FieldManager {
  import opened Wrappers
  import opened Pieces

  /** The board dimension; the only configuration value that affects the rules. */
  const SquareNumber: int := 8

  type PieceId = nat

  type Board = seq<seq<Option<PieceId>>>

  datatype Field = Field(
    pieces: map<PieceId, Piece>,
    board: Board,
    black: seq<PieceId>,
    red: seq<PieceId>,
    redKings: seq<PieceId>)

  predicate InRange(row: int, col: int)
  {
    0 <= row < SquareNumber && 0 <= col < SquareNumber
  }

  predicate IsSquare(b: Board)
  {
    |b| == SquareNumber && forall r :: 0 <= r < |b| ==> |b[r]| == SquareNumber
  }

  predicate IdsIn(ids: seq<PieceId>, pieces: map<PieceId, Piece>)
  {
    forall k :: 0 <= k < |ids| ==> ids[k] in pieces
  }

  /** Structural sanity: the grid is 8x8, every piece stores in-range
      coordinates, and every reference on the board or in a list denotes a piece. */
  ghost predicate WellFormed(f: Field)
  {
    && IsSquare(f.board)
    && (forall id :: id in f.pieces ==> InRange(f.pieces[id].row, f.pieces[id].col))
    && (forall r, c :: InRange(r, c) && f.board[r][c].Some? ==> f.board[r][c].value in f.pieces)
    && IdsIn(f.black, f.pieces)
    && IdsIn(f.red, f.pieces)
    && IdsIn(f.redKings, f.pieces)
  }

  /** A piece's stored coordinates equal the cell that holds it. */
  ghost predicate Coherent(f: Field)
    requires WellFormed(f)
  {
    forall r, c :: InRange(r, c) && f.board[r][c].Some? ==>
      f.pieces[f.board[r][c].value].row == r && f.pieces[f.board[r][c].value].col == c
  }

  /** The piece `id` sits on the board at its own stored coordinates. */
  predicate OnBoard(f: Field, id: PieceId)
    requires WellFormed(f)
  {
    id in f.pieces && f.board[f.pieces[id].row][f.pieces[id].col] == Some(id)
  }

  function Occupied(cell: Option<PieceId>): nat
  {
    if cell.Some? then 1 else 0
  }

  function CountRow(cells: seq<Option<PieceId>>): nat
  {
    if |cells| == 0 then 0 else Occupied(cells[0]) + CountRow(cells[1..])
  }

  /** Number of occupied cells on the board. */
  function Count(b: Board): nat
  {
    if |b| == 0 then 0 else CountRow(b[0]) + Count(b[1..])
  }

  function SetCell(b: Board, row: int, col: int, v: Option<PieceId>): (b': Board)
    requires IsSquare(b) && InRange(row, col)
    ensures IsSquare(b')
    ensures b'[row][col] == v
    ensures forall r, c :: InRange(r, c) && (r != row || c != col) ==> b'[r][c] == b[r][c]
    ensures Count(b') == Count(b) - Occupied(b[row][col]) + Occupied(v)
  {
    CountSetCell(b, row, col, v);
    b[row := b[row][col := v]]
  }

  lemma {:induction false} CountRowUpdate(cells: seq<Option<PieceId>>, i: nat, v: Option<PieceId>)
    requires i < |cells|
    ensures CountRow(cells[i := v]) == CountRow(cells) - Occupied(cells[i]) + Occupied(v)
    decreases i
  {
    if i == 0 {
      assert cells[i := v][1..] == cells[1..];
    } else {
      assert cells[i := v][1..] == cells[1..][i - 1 := v];
      CountRowUpdate(cells[1..], i - 1, v);
    }
  }

  lemma {:induction false} CountUpdate(b: Board, i: nat, row: seq<Option<PieceId>>)
    requires i < |b|
    ensures Count(b[i := row]) == Count(b) - CountRow(b[i]) + CountRow(row)
    decreases i
  {
    if i == 0 {
      assert b[i := row][1..] == b[1..];
    } else {
      assert b[i := row][1..] == b[1..][i - 1 := row];
      CountUpdate(b[1..], i - 1, row);
    }
  }

  lemma CountSetCell(b: Board, row: int, col: int, v: Option<PieceId>)
    requires IsSquare(b) && InRange(row, col)
    ensures Count(b[row := b[row][col := v]]) == Count(b) - Occupied(b[row][col]) + Occupied(v)
  {
    CountRowUpdate(b[row], col, v);
    CountUpdate(b, row, b[row][col := v]);
  }

  /** getBoardPiece: the piece standing at a cell, and none exactly when no
      piece stands there; indices must be in range. */
  function GetBoardPiece(f: Field, row: int, col: int): (r: Option<PieceId>)
    requires WellFormed(f) && InRange(row, col)
    ensures r.Some? ==> r.value in f.pieces
    ensures r.Some? && Coherent(f) ==> f.pieces[r.value].row == row && f.pieces[r.value].col == col
    ensures r.Some? ==> OnBoardAt(f, r.value, row, col)
    ensures r.None? <==> forall id :: id in f.pieces ==> !OnBoardAt(f, id, row, col)
  {
    f.board[row][col]
  }

  predicate OnBoardAt(f: Field, id: PieceId, row: int, col: int)
    requires WellFormed(f) && InRange(row, col)
  {
    f.board[row][col] == Some(id)
  }

  /** movePiece(to, from): the piece referenced at `from` moves to `to` and its
      stored coordinates follow; `from` is then cleared. Java dereferences the
      source cell, so it must be occupied. */
  function MovePiece(f: Field, toRow: int, toCol: int, fromRow: int, fromCol: int): (r: Field)
    requires WellFormed(f) && InRange(toRow, toCol) && InRange(fromRow, fromCol)
    requires f.board[fromRow][fromCol].Some?
    ensures WellFormed(r)
    ensures var id := f.board[fromRow][fromCol].value;
      && r.pieces == f.pieces[id := f.pieces[id].(row := toRow, col := toCol)]
      && r.board[fromRow][fromCol] == None
      && ((toRow, toCol) != (fromRow, fromCol) ==> r.board[toRow][toCol] == Some(id))
    ensures forall r', c' :: InRange(r', c') && (r', c') != (toRow, toCol) && (r', c') != (fromRow, fromCol) ==>
      r.board[r'][c'] == f.board[r'][c']
    ensures r.black == f.black && r.red == f.red && r.redKings == f.redKings
    ensures Count(r.board) <= Count(f.board)
    ensures (toRow, toCol) != (fromRow, fromCol) && f.board[toRow][toCol].None? ==> Count(r.board) == Count(f.board)
    ensures Coherent(f) ==> Coherent(r)
  {
    var id := f.board[fromRow][fromCol].value;
    var moved := SetCol(SetRow(f.pieces[id], toRow), toCol);
    var b1 := SetCell(f.board, toRow, toCol, f.board[fromRow][fromCol]);
    var b2 := SetCell(b1, fromRow, fromCol, None);
    var r := f.(pieces := f.pieces[id := moved], board := b2);
    MovedPieceCoherent(f, r, id, toRow, toCol, fromRow, fromCol);
    r
  }

  /** Moving the piece at `from` to `to` (board and coordinates together)
      keeps every board reference at its piece's coordinates. */
  lemma MovedPieceCoherent(f: Field, r: Field, id: PieceId, toRow: int, toCol: int, fromRow: int, fromCol: int)
    requires WellFormed(f) && WellFormed(r) && InRange(toRow, toCol) && InRange(fromRow, fromCol)
    requires f.board[fromRow][fromCol] == Some(id)
    requires r.pieces == f.pieces[id := f.pieces[id].(row := toRow, col := toCol)]
    requires r.board[fromRow][fromCol] == None
    requires (toRow, toCol) != (fromRow, fromCol) ==> r.board[toRow][toCol] == Some(id)
    requires forall r', c' :: InRange(r', c') && (r', c') != (toRow, toCol) && (r', c') != (fromRow, fromCol) ==>
      r.board[r'][c'] == f.board[r'][c']
    ensures Coherent(f) ==> Coherent(r)
  {
    if Coherent(f) {
      forall r', c' | InRange(r', c') && r.board[r'][c'].Some?
        ensures r.pieces[r.board[r'][c'].value].row == r' && r.pieces[r.board[r'][c'].value].col == c'
      {
        if (r', c') != (toRow, toCol) && (r', c') != (fromRow, fromCol) {
          var k := f.board[r'][c'].value;
          assert k != id;
        }
      }
    }
  }

  /** removePiece: clears exactly one cell; the side lists are not touched. */
  function RemovePiece(f: Field, row: int, col: int): (r: Field)
    requires WellFormed(f) && InRange(row, col)
    ensures WellFormed(r)
    ensures r.board[row][col] == None
    ensures forall r', c' :: InRange(r', c') && (r', c') != (row, col) ==> r.board[r'][c'] == f.board[r'][c']
    ensures r.pieces == f.pieces
    ensures r.black == f.black && r.red == f.red && r.redKings == f.redKings
    ensures Count(r.board) == Count(f.board) - Occupied(f.board[row][col])
    ensures Coherent(f) ==> Coherent(r)
  {
    f.(board := SetCell(f.board, row, col, None))
  }

  /** makeKing applied to the piece object `id`: only that piece's rank
      changes. */
  function Crown(f: Field, id: PieceId): (r: Field)
    requires WellFormed(f) && id in f.pieces
    ensures WellFormed(r)
    ensures r.pieces == f.pieces[id := MakeKing(f.pieces[id])]
    ensures r.board == f.board && r.black == f.black && r.red == f.red && r.redKings == f.redKings
    ensures Coherent(f) ==> Coherent(r)
  {
    f.(pieces := f.pieces[id := MakeKing(f.pieces[id])])
  }

  function SetBlackPieces(f: Field, blackPieces: seq<PieceId>): (r: Field)
    ensures r.black == blackPieces
    ensures r.pieces == f.pieces && r.board == f.board && r.red == f.red && r.redKings == f.redKings
  {
    f.(black := blackPieces)
  }

  function SetRedPieces(f: Field, redPieces: seq<PieceId>): (r: Field)
    ensures r.red == redPieces
    ensures r.pieces == f.pieces && r.board == f.board && r.black == f.black && r.redKings == f.redKings
  {
    f.(red := redPieces)
  }

  /** setBoard: the grid is replaced wholesale (scenario injection). */
  function SetBoard(f: Field, board: Board): (r: Field)
    ensures r.board == board
    ensures r.pieces == f.pieces && r.black == f.black && r.red == f.red && r.redKings == f.redKings
  {
    f.(board := board)
  }

  /** `xs` occurs in `ys` in the same relative order. */
  predicate IsSubsequence(xs: seq<PieceId>, ys: seq<PieceId>)
    decreases |ys|
  {
    |xs| == 0 ||
    (|ys| > 0 && ((xs[0] == ys[0] && IsSubsequence(xs[1..], ys[1..])) || IsSubsequence(xs, ys[1..])))
  }

  /** The king pieces of a list, in list order (the stream filter of updateRedKingPieces). */
  function KingsOf(l: seq<PieceId>, pieces: map<PieceId, Piece>): (r: seq<PieceId>)
    requires IdsIn(l, pieces)
    ensures IdsIn(r, pieces)
    ensures forall k :: 0 <= k < |r| ==> pieces[r[k]].isKing
    ensures |r| <= |l|
  {
    if |l| == 0 then []
    else if pieces[l[0]].isKing then [l[0]] + KingsOf(l[1..], pieces)
    else KingsOf(l[1..], pieces)
  }

  /** The filter keeps every king of the list, as often as it occurs and in
      list order, and nothing else. */
  lemma {:induction false} KingsOfFilters(l: seq<PieceId>, pieces: map<PieceId, Piece>)
    requires IdsIn(l, pieces)
    ensures forall id :: multiset(KingsOf(l, pieces))[id] == if id in pieces && pieces[id].isKing then multiset(l)[id] else 0
    ensures IsSubsequence(KingsOf(l, pieces), l)
    decreases |l|
  {
    if |l| > 0 {
      var rest := KingsOf(l[1..], pieces);
      KingsOfFilters(l[1..], pieces);
      assert l == [l[0]] + l[1..];
      if pieces[l[0]].isKing {
        assert ([l[0]] + rest)[1..] == rest;
      }
    }
  }

  /** updateRedKingPieces: the red-kings list becomes the kings of the red list;
      nothing else changes. */
  function UpdateRedKingPieces(f: Field): (r: Field)
    requires WellFormed(f)
    ensures WellFormed(r)
    ensures r.redKings == KingsOf(f.red, f.pieces)
    ensures r.pieces == f.pieces && r.board == f.board && r.black == f.black && r.red == f.red
  {
    f.(redKings := KingsOf(f.red, f.pieces))
  }

  /** List.remove(Object): drops the first element whose piece equals `target`
      under Piece.equals; the list is unchanged when none does. */
  function RemoveEqual(l: seq<PieceId>, pieces: map<PieceId, Piece>, target: Piece): (r: seq<PieceId>)
    requires IdsIn(l, pieces)
    ensures IdsIn(r, pieces)
    ensures multiset(r) <= multiset(l)
  {
    if |l| == 0 then []
    else if Equals(target, pieces[l[0]]) then
      assert l == [l[0]] + l[1..];
      l[1..]
    else
      var rest := RemoveEqual(l[1..], pieces, target);
      assert l == [l[0]] + l[1..];
      [l[0]] + rest
  }

  /** No element of `l` from index `from` on equals the target. */
  predicate NoMatch(l: seq<PieceId>, pieces: map<PieceId, Piece>, target: Piece, from: nat, to: nat)
    requires IdsIn(l, pieces) && to <= |l|
  {
    forall k :: from <= k < to ==> !Equals(target, pieces[l[k]])
  }

  /** With no element equal to the target, the list is left as it was. */
  lemma {:induction false} RemoveEqualKeepsUnmatched(l: seq<PieceId>, pieces: map<PieceId, Piece>, target: Piece)
    requires IdsIn(l, pieces) && NoMatch(l, pieces, target, 0, |l|)
    ensures RemoveEqual(l, pieces, target) == l
    decreases |l|
  {
    if |l| > 0 {
      assert !Equals(target, pieces[l[0]]);
      assert forall k :: 0 <= k < |l| - 1 ==> l[1..][k] == l[k + 1];
      RemoveEqualKeepsUnmatched(l[1..], pieces, target);
      assert l == [l[0]] + l[1..];
    }
  }

  /** When `i` is the first index whose piece equals the target, exactly that
      element is dropped. */
  lemma {:induction false} RemoveEqualDropsFirstMatch(l: seq<PieceId>, pieces: map<PieceId, Piece>, target: Piece, i: nat)
    requires IdsIn(l, pieces)
    requires i < |l| && Equals(target, pieces[l[i]])
    requires NoMatch(l, pieces, target, 0, i)
    ensures RemoveEqual(l, pieces, target) == l[..i] + l[i + 1..]
    ensures |RemoveEqual(l, pieces, target)| == |l| - 1
    decreases i
  {
    if i == 0 {
      assert l[..0] + l[1..] == l[1..];
    } else {
      NoMatchTail(l, pieces, target, i);
      RemoveEqualDropsFirstMatch(l[1..], pieces, target, i - 1);
      SpliceTail(l, i);
    }
  }

  /** Dropping the head shifts a match-free prefix by one. */
  lemma NoMatchTail(l: seq<PieceId>, pieces: map<PieceId, Piece>, target: Piece, i: nat)
    requires IdsIn(l, pieces) && 0 < i < |l| && NoMatch(l, pieces, target, 0, i)
    requires Equals(target, pieces[l[i]])
    ensures IdsIn(l[1..], pieces) && NoMatch(l[1..], pieces, target, 0, i - 1) && Equals(target, pieces[l[1..][i - 1]])
    ensures RemoveEqual(l, pieces, target) == [l[0]] + RemoveEqual(l[1..], pieces, target)
  {
    assert !Equals(target, pieces[l[0]]);
    forall k | 0 <= k < i - 1
      ensures !Equals(target, pieces[l[1..][k]])
    {
      assert l[1..][k] == l[k + 1];
    }
  }

  /** Removing position i - 1 of the tail is removing position i of the list. */
  lemma SpliceTail(l: seq<PieceId>, i: nat)
    requires 0 < i < |l|
    ensures [l[0]] + (l[1..][..i - 1] + l[1..][i..]) == l[..i] + l[i + 1..]
  {
    assert l[1..][..i - 1] == l[1..i];
    assert l[1..][i..] == l[i + 1..];
    assert [l[0]] + l[1..i] == l[..i];
  }

  /** With some element equal to the target, the list loses exactly one
      element. */
  lemma {:induction false} RemoveEqualShortens(l: seq<PieceId>, pieces: map<PieceId, Piece>, target: Piece, k: nat)
    requires IdsIn(l, pieces) && k < |l| && Equals(target, pieces[l[k]])
    ensures |RemoveEqual(l, pieces, target)| == |l| - 1
    decreases |l|
  {
    if !Equals(target, pieces[l[0]]) {
      assert l[1..][k - 1] == l[k];
      RemoveEqualShortens(l[1..], pieces, target, k - 1);
    }
  }

  /** The piece removed from a side list is the captured one itself, provided
      no other listed piece is equal to it. Distinct pieces on a coherent board
      never are (see OnBoardRemovalTakesTarget). */
  lemma RemoveEqualRemovesTarget(l: seq<PieceId>, pieces: map<PieceId, Piece>, id: PieceId, i: nat)
    requires IdsIn(l, pieces) && id in pieces
    requires i < |l| && l[i] == id && forall k :: 0 <= k < i ==> l[k] != id
    requires forall k :: 0 <= k < |l| && l[k] != id ==> pieces[l[k]] != pieces[id]
    ensures RemoveEqual(l, pieces, pieces[id]) == l[..i] + l[i + 1..]
    ensures |RemoveEqual(l, pieces, pieces[id])| == |l| - 1
  {
    assert NoMatch(l, pieces, pieces[id], 0, i);
    RemoveEqualDropsFirstMatch(l, pieces, pieces[id], i);
  }

  /** Two different pieces both sitting on a coherent board have different
      coordinates, hence are not equal under Piece.equals. */
  lemma DistinctOnBoardPiecesDiffer(f: Field, a: PieceId, b: PieceId)
    requires WellFormed(f) && Coherent(f)
    requires OnBoard(f, a) && OnBoard(f, b) && a != b
    ensures !Equals(f.pieces[a], f.pieces[b])
  {
  }

  /** On a coherent board whose listed pieces all stand on the board, removal
      by equality takes out exactly the captured piece's own entry. */
  lemma OnBoardRemovalTakesTarget(f: Field, l: seq<PieceId>, id: PieceId, i: nat)
    requires WellFormed(f) && Coherent(f) && IdsIn(l, f.pieces)
    requires forall k :: 0 <= k < |l| ==> OnBoard(f, l[k])
    requires i < |l| && l[i] == id && forall k :: 0 <= k < i ==> l[k] != id
    ensures RemoveEqual(l, f.pieces, f.pieces[id]) == l[..i] + l[i + 1..]
  {
    forall k | 0 <= k < |l| && l[k] != id
      ensures f.pieces[l[k]] != f.pieces[id]
    {
      DistinctOnBoardPiecesDiffer(f, l[k], id);
    }
    RemoveEqualRemovesTarget(l, f.pieces, id, i);
  }

  /** A dark square of the first three or last three rows: where pieces start. */
  predicate IsHomeSquare(row: int, col: int)
  {
    (row < 3 || row >= SquareNumber - 3) && (row + col) % 2 == 1
  }

  function HomeColor(row: int): PieceColor
  {
    if row < 3 then Red else Black
  }

  /** Position of a piece in row-major order. */
  function Key(p: Piece): int
  {
    p.row * SquareNumber + p.col
  }

  predicate RowMajor(l: seq<PieceId>, pieces: map<PieceId, Piece>)
    requires IdsIn(l, pieces)
  {
    forall i, j :: 0 <= i < j < |l| ==> Key(pieces[l[i]]) < Key(pieces[l[j]])
  }

  function EmptyBoard(): (b: Board)
    ensures IsSquare(b)
    ensures forall r, c :: InRange(r, c) ==> b[r][c].None?
  {
    seq(SquareNumber, _ => seq(SquareNumber, _ => None))
  }

  /** The `color` pieces listed by a side list all sit on the board at their
      own coordinates and have rows in [fromRow, toRow). */
  predicate PlacedList(board: Board, pieces: map<PieceId, Piece>, l: seq<PieceId>, color: PieceColor, fromRow: int, toRow: int)
    requires IsSquare(board) && IdsIn(l, pieces)
  {
    forall k :: 0 <= k < |l| ==>
      var p := pieces[l[k]];
      && fromRow <= p.row < toRow && InRange(p.row, p.col)
      && board[p.row][p.col] == Some(l[k])
      && p.color == color && !p.isKing
  }

  /** Cell (r, c) holds a new `color` piece exactly when it is a dark square. */
  ghost predicate Placed(board: Board, pieces: map<PieceId, Piece>, first: nat, color: PieceColor, r: int, c: int)
    requires IsSquare(board) && InRange(r, c)
  {
    && (board[r][c].Some? <==> (r + c) % 2 == 1)
    && (board[r][c].Some? ==>
          board[r][c].value in pieces && board[r][c].value >= first && pieces[board[r][c].value] == NewPiece(r, c, color))
  }

  /** Ids below `next` are the only ones in use, and every piece is in range. */
  ghost predicate Allocated(pieces: map<PieceId, Piece>, next: nat)
  {
    forall id :: id in pieces ==> id < next && InRange(pieces[id].row, pieces[id].col)
  }

  /** The inner loop of initializePieces for one row. */
  method PlaceRow(board0: Board, pieces0: map<PieceId, Piece>, added0: seq<PieceId>, next0: nat,
                  fromRow: int, row: int, color: PieceColor)
    returns (board: Board, pieces: map<PieceId, Piece>, added: seq<PieceId>, next: nat)
    requires IsSquare(board0) && 0 <= fromRow <= row < SquareNumber
    requires forall c :: 0 <= c < SquareNumber ==> board0[row][c].None?
    requires Allocated(pieces0, next0)
    requires IdsIn(added0, pieces0) && PlacedList(board0, pieces0, added0, color, fromRow, row) && RowMajor(added0, pieces0)
    requires forall k :: 0 <= k < |added0| ==> Key(pieces0[added0[k]]) < row * SquareNumber
    ensures IsSquare(board) && next >= next0 && Allocated(pieces, next)
    ensures forall r, c :: InRange(r, c) && r != row ==> board[r][c] == board0[r][c]
    ensures forall c :: 0 <= c < SquareNumber ==> Placed(board, pieces, next0, color, row, c)
    ensures forall id :: id in pieces0 ==> id in pieces && pieces[id] == pieces0[id]
    ensures IdsIn(added, pieces) && |added| == |added0| + 4
    ensures PlacedList(board, pieces, added, color, fromRow, row + 1) && RowMajor(added, pieces)
    ensures forall k :: 0 <= k < |added| ==> Key(pieces[added[k]]) < (row + 1) * SquareNumber
  {
    board, pieces, added, next := board0, pieces0, added0, next0;
    var col := 0;
    while col < SquareNumber
      invariant 0 <= col <= SquareNumber && next >= next0
      invariant IsSquare(board) && Allocated(pieces, next)
      invariant forall r, c :: InRange(r, c) && (r != row || c >= col) ==> board[r][c] == board0[r][c]
      invariant forall c :: 0 <= c < col ==> Placed(board, pieces, next0, color, row, c)
      invariant forall id :: id in pieces0 ==> id in pieces && pieces[id] == pieces0[id]
      invariant IdsIn(added, pieces) && |added| == |added0| + (col + row % 2) / 2
      invariant PlacedList(board, pieces, added, color, fromRow, row + 1) && RowMajor(added, pieces)
      invariant forall k :: 0 <= k < |added| ==> Key(pieces[added[k]]) < row * SquareNumber + col
    {
      ghost var boardBefore, piecesBefore, nextBefore := board, pieces, next;
      board, pieces, added, next := PlaceCell(board, pieces, added, next, fromRow, row, col, color);
      DarkCellsBefore(row, col);
      forall c | 0 <= c <= col
        ensures Placed(board, pieces, next0, color, row, c)
      {
        if c < col {
          assert Placed(boardBefore, piecesBefore, next0, color, row, c);
        } else {
          assert Placed(board, pieces, nextBefore, color, row, c);
        }
      }
      col := col + 1;
    }
  }

  /** Counting dark cells along a row: the dark cells of row `row` before
      column `col` number (col + row % 2) / 2. */
  lemma DarkCellsBefore(row: int, col: int)
    requires 0 <= row && 0 <= col
    ensures (col + 1 + row % 2) / 2 == (col + row % 2) / 2 + (if (row + col) % 2 == 1 then 1 else 0)
  {
  }

  /** One step of the inner loop: a dark cell receives a new piece with the
      next free id, appended to the side's list; a light cell stays empty. */
  method PlaceCell(board0: Board, pieces0: map<PieceId, Piece>, added0: seq<PieceId>, next0: nat,
                   fromRow: int, row: int, col: int, color: PieceColor)
    returns (board: Board, pieces: map<PieceId, Piece>, added: seq<PieceId>, next: nat)
    requires IsSquare(board0) && 0 <= fromRow <= row < SquareNumber && 0 <= col < SquareNumber
    requires board0[row][col].None? && Allocated(pieces0, next0)
    requires IdsIn(added0, pieces0) && PlacedList(board0, pieces0, added0, color, fromRow, row + 1) && RowMajor(added0, pieces0)
    requires forall k :: 0 <= k < |added0| ==> Key(pieces0[added0[k]]) < row * SquareNumber + col
    ensures IsSquare(board) && next >= next0 && Allocated(pieces, next)
    ensures forall r, c :: InRange(r, c) && (r != row || c != col) ==> board[r][c] == board0[r][c]
    ensures Placed(board, pieces, next0, color, row, col)
    ensures forall id :: id in pieces0 ==> id in pieces && pieces[id] == pieces0[id]
    ensures IdsIn(added, pieces) && |added| == |added0| + (if (row + col) % 2 == 1 then 1 else 0)
    ensures PlacedList(board, pieces, added, color, fromRow, row + 1) && RowMajor(added, pieces)
    ensures forall k :: 0 <= k < |added| ==> Key(pieces[added[k]]) < row * SquareNumber + col + 1
  {
    board, pieces, added, next := board0, pieces0, added0, next0;
    if (row + col) % 2 == 1 {
      var id := next;
      assert id !in pieces;
      pieces := pieces[id := NewPiece(row, col, color)];
      added := added + [id];
      board := SetCell(board, row, col, Some(id));
      next := next + 1;
    }
  }

  /** One of the two placement loops of initializePieces: every dark square of
      rows [fromRow, toRow) receives a new piece of `color`, in row-major order. */
  method PlaceRows(board0: Board, pieces0: map<PieceId, Piece>, next0: nat, fromRow: int, toRow: int, color: PieceColor)
    returns (board: Board, pieces: map<PieceId, Piece>, added: seq<PieceId>, next: nat)
    requires IsSquare(board0) && 0 <= fromRow <= toRow <= SquareNumber
    requires forall r, c :: InRange(r, c) && fromRow <= r < toRow ==> board0[r][c].None?
    requires Allocated(pieces0, next0)
    ensures IsSquare(board) && Allocated(pieces, next)
    ensures forall r, c :: InRange(r, c) && !(fromRow <= r < toRow) ==> board[r][c] == board0[r][c]
    ensures forall r, c :: InRange(r, c) && fromRow <= r < toRow ==> Placed(board, pieces, next0, color, r, c)
    ensures forall id :: id in pieces0 ==> id in pieces && pieces[id] == pieces0[id]
    ensures IdsIn(added, pieces) && |added| == (toRow - fromRow) * 4
    ensures PlacedList(board, pieces, added, color, fromRow, toRow)
    ensures RowMajor(added, pieces)
  {
    board, pieces, added, next := board0, pieces0, [], next0;
    var row := fromRow;
    while row < toRow
      invariant fromRow <= row <= toRow && next >= next0
      invariant IsSquare(board) && Allocated(pieces, next)
      invariant forall r, c :: InRange(r, c) && !(fromRow <= r < row) ==> board[r][c] == board0[r][c]
      invariant forall r, c :: InRange(r, c) && fromRow <= r < row ==> Placed(board, pieces, next0, color, r, c)
      invariant forall id :: id in pieces0 ==> id in pieces && pieces[id] == pieces0[id]
      invariant IdsIn(added, pieces) && |added| == (row - fromRow) * 4
      invariant PlacedList(board, pieces, added, color, fromRow, row)
      invariant RowMajor(added, pieces)
      invariant forall k :: 0 <= k < |added| ==> Key(pieces[added[k]]) < row * SquareNumber
    {
      ghost var boardBefore, piecesBefore, nextBefore := board, pieces, next;
      board, pieces, added, next := PlaceRow(board, pieces, added, next, fromRow, row, color);
      forall r, c | InRange(r, c) && fromRow <= r <= row
        ensures Placed(board, pieces, next0, color, r, c)
      {
        if r < row {
          assert Placed(boardBefore, piecesBefore, next0, color, r, c);
        } else {
          assert Placed(board, pieces, nextBefore, color, r, c);
        }
      }
      row := row + 1;
    }
  }

  /** initializePieces: red on the dark squares of rows 0-2 and black on the
      dark squares of rows 5-7, each side listed in row-major order. */
  method InitializePieces() returns (f: Field)
    ensures WellFormed(f) && Coherent(f)
    ensures forall r, c :: InRange(r, c) ==> (f.board[r][c].Some? <==> IsHomeSquare(r, c))
    ensures forall r, c :: InRange(r, c) && f.board[r][c].Some? ==>
      f.pieces[f.board[r][c].value] == NewPiece(r, c, HomeColor(r))
    ensures |f.red| == 12 && |f.black| == 12
    ensures PlacedList(f.board, f.pieces, f.red, Red, 0, 3) && RowMajor(f.red, f.pieces)
    ensures PlacedList(f.board, f.pieces, f.black, Black, 5, 8) && RowMajor(f.black, f.pieces)
    ensures f.redKings == []
  {
    var loopEndCondition := SquareNumber / 2 - 1;
    var board, pieces, red, next := PlaceRows(EmptyBoard(), map[], 0, 0, loopEndCondition, Red);
    var board', pieces', black, next' := PlaceRows(board, pieces, next, SquareNumber - loopEndCondition, SquareNumber, Black);
    f := Field(pieces', board', black, red, []);
  }
}
