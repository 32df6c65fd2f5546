/** The rule-relevant part of a game piece: position, colour and rank.
    The circle graphics of the Java `Piece` class are not modelled. */
module Pieces {

  /** Black pieces belong to the human, red pieces to the computer. */
  datatype PieceColor = Black | Red

  datatype Piece = Piece(row: int, col: int, color: PieceColor, isKing: bool)

  /** A freshly constructed piece: placed as given and never a king. */
  function NewPiece(row: int, col: int, color: PieceColor): (p: Piece)
    ensures p.row == row && p.col == col && p.color == color
    ensures !p.isKing
  {
    Piece(row, col, color, false)
  }

  function SetRow(p: Piece, row: int): (q: Piece)
    ensures q.row == row
    ensures q.col == p.col && q.color == p.color && q.isKing == p.isKing
  {
    p.(row := row)
  }

  function SetCol(p: Piece, col: int): (q: Piece)
    ensures q.col == col
    ensures q.row == p.row && q.color == p.color && q.isKing == p.isKing
  {
    p.(col := col)
  }

  function SetColor(p: Piece, color: PieceColor): (q: Piece)
    ensures q.color == color
    ensures q.row == p.row && q.col == p.col && q.isKing == p.isKing
  {
    p.(color := color)
  }

  /** Promotion: the piece becomes a king and keeps its place and colour. */
  function MakeKing(p: Piece): (q: Piece)
    ensures q.isKing
    ensures q.row == p.row && q.col == p.col && q.color == p.color
  {
    p.(isKing := true)
  }

  /** Piece.equals: two pieces are equal when their four rule fields agree. */
  function Equals(p: Piece, q: Piece): (b: bool)
    ensures b <==> p == q
  {
    p.row == q.row && p.col == q.col && p.color == q.color && p.isKing == q.isKing
  }

  /** Setting row then column places a piece at the new square, in either order,
      and never touches colour or rank. */
  lemma SettersPlacePiece(p: Piece, row: int, col: int)
    ensures SetCol(SetRow(p, row), col) == SetRow(SetCol(p, col), row)
    ensures SetCol(SetRow(p, row), col) == Piece(row, col, p.color, p.isKing)
  {
  }

  /** Promotion is idempotent, and a king stays a king under every setter. */
  lemma MakeKingIsPermanent(p: Piece, row: int, col: int)
    ensures MakeKing(MakeKing(p)) == MakeKing(p)
    ensures SetRow(MakeKing(p), row).isKing && SetCol(MakeKing(p), col).isKing
  {
  }

  /** equals is exactly structural equality of the rule fields; it is reflexive
      (the `this == obj` shortcut), symmetric and transitive. */
  lemma EqualsIsStructural(p: Piece, q: Piece, s: Piece)
    ensures Equals(p, q) <==> p == q
    ensures Equals(p, p)
    ensures Equals(p, q) ==> Equals(q, p)
    ensures Equals(p, q) && Equals(q, s) ==> Equals(p, s)
  {
  }
}
