/** The rule-relevant slice of the scene controller: which piece is selected,
    how a click on a piece or on a square is dispatched, the end-turn button
    and the game-over test. Drawing, highlighting and messages are not part
    of the model. */
module SceneManager {
  import opened Wrappers
  import opened Pieces
  import opened FieldManager
  import opened MoveValidation
  import HumanPlayer
  import ComputerPlayer

  /** The game together with the piece the human has selected, if any. */
  datatype Scene = Scene(game: Game, selected: Option<PieceId>)

  /** A well-formed store, and a selection that is always a black piece. */
  ghost predicate Valid(s: Scene)
  {
    && WellFormed(s.game.field)
    && (s.selected.Some? ==>
          s.selected.value in s.game.field.pieces && s.game.field.pieces[s.selected.value].color == Black)
  }

  /** checkIfHumanWon: the red list is empty. */
  function CheckIfHumanWon(red: seq<PieceId>): (won: bool)
    ensures won <==> |red| == 0
  {
    red == []
  }

  /** checkIfComputerWon: the black list is empty. */
  function CheckIfComputerWon(black: seq<PieceId>): (won: bool)
    ensures won <==> |black| == 0
  {
    black == []
  }

  /** checkGameOver: one side has no listed piece left. */
  function CheckGameOver(f: Field): (over: bool)
    ensures over <==> |f.red| == 0 || |f.black| == 0
  {
    CheckIfHumanWon(f.red) || CheckIfComputerWon(f.black)
  }

  /** handlePieceClick: a black piece becomes the selection, but only while no
      capture is pending; any other click leaves the scene as it was. */
  function HandlePieceClick(s: Scene, clicked: Option<PieceId>): (r: Scene)
    requires clicked.Some? ==> clicked.value in s.game.field.pieces
    ensures r.game == s.game
    ensures Valid(s) ==> Valid(r)
    ensures s.game.hasEaten ==> r == s
    ensures r.selected != s.selected ==> r.selected == clicked && !s.game.hasEaten
    ensures clicked.Some? && s.game.field.pieces[clicked.value].color == Black && !s.game.hasEaten ==>
      r.selected == clicked
    ensures clicked.Some? && s.game.field.pieces[clicked.value].color == Red ==> r == s
  {
    if clicked.Some? && s.game.field.pieces[clicked.value].color == Black && !s.game.hasEaten then
      s.(selected := clicked)
    else
      s
  }

  /** The scene's handleMoveClick: the human player's answer code decides.
      On 1 the capture chain goes on with the same selection; on 2 the
      selection is dropped and the computer plays; on 0 nothing happens.
      Afterwards the selection is either the old one or none, and when it was
      dropped the computer has played and the flag is lowered. The human's
      move never changes the black list; the computer's never changes the
      red list. */
  function MoveClick(s: Scene, row: int, col: int): (r: Result<Scene>)
    requires Valid(s) && InRange(row, col)
    ensures r.Ok? ==> Valid(r.value)
    ensures r.Ok? ==> r.value.selected == s.selected || (r.value.selected.None? && !r.value.game.hasEaten)
    ensures r.Ok? && r.value.game.hasEaten ==> r.value.selected == s.selected
    ensures s.selected.None? ==> r == Ok(s)
    ensures s.selected.Some? && !Legal(s.game.field, s.game.field.pieces[s.selected.value], row, col, s.game.hasEaten) ==>
      r == Ok(s)
    ensures r.Ok? && r.value.selected == s.selected ==> r.value.game.field.black == s.game.field.black
    ensures r.Ok? && r.value.selected != s.selected ==> multiset(r.value.game.field.black) <= multiset(s.game.field.black)
    ensures var h := HumanPlayer.HandleMoveClick(s.game, row, col, s.selected);
      && (h.NullPointer? ==> r.NullPointer?)
      && (h.Ok? && HumanPlayer.Code(h.value.0) == 2 ==> r == ComputerReply(h.value.1))
      && (h.Ok? && HumanPlayer.Code(h.value.0) != 2 ==> r == Ok(Scene(h.value.1, s.selected)))
  {
    var h := HumanPlayer.HandleMoveClick(s.game, row, col, s.selected);
    if h.NullPointer? then
      NullPointer
    else
      var code := HumanPlayer.Code(h.value.0);
      if code == 2 then
        ComputerReply(h.value.1)
      else
        Ok(Scene(h.value.1, s.selected))
  }

  /** The computer's turn as the scene runs it: the selection is dropped
      and, when the turn started with the flag lowered, it ends lowered. */
  function ComputerReply(g: Game): (r: Result<Scene>)
    requires WellFormed(g.field)
    ensures r.Ok? ==> Valid(r.value) && r.value.selected.None?
    ensures r.Ok? && !g.hasEaten ==> !r.value.game.hasEaten
    ensures r.Ok? ==> r.value.game.field.red == g.field.red
    ensures r.Ok? ==> multiset(r.value.game.field.black) <= multiset(g.field.black)
    ensures ComputerPlayer.ComputerMove(g).NullPointer? <==> r.NullPointer?
    ensures ComputerPlayer.ComputerMove(g).Ok? ==> r == Ok(Scene(ComputerPlayer.ComputerMove(g).value, None))
  {
    var c := ComputerPlayer.ComputerMove(g);
    if c.NullPointer? then NullPointer else Ok(Scene(c.value, None))
  }

  /** The end-turn button: it dereferences the selection (null without one),
      drops it, lowers the flag and lets the computer play. */
  function EndTurn(s: Scene): (r: Result<Scene>)
    requires Valid(s)
    ensures s.selected.None? ==> r.NullPointer?
    ensures r.Ok? ==> Valid(r.value) && r.value.selected.None? && !r.value.game.hasEaten
    ensures r.Ok? ==> r.value.game.field.red == s.game.field.red
    ensures r.Ok? ==> multiset(r.value.game.field.black) <= multiset(s.game.field.black)
    ensures r.Ok? ==> CheckIfHumanWon(r.value.game.field.red) == CheckIfHumanWon(s.game.field.red)
    ensures s.selected.Some? ==> r == ComputerReply(s.game.(hasEaten := false))
  {
    if s.selected.None? then
      NullPointer
    else
      ComputerReply(s.game.(hasEaten := false))
  }
}
