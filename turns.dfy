/** The turn controller of Othello.py, Othello.end_game_iterator: a generator that
    is resumed once per turn, looks at the move tables as the last move left them,
    and yields the colour that plays next, passing for a colour without moves, or
    stops when neither colour can move. One resumption is one step function here. */
module Turns {
  import opened Constants
  import opened Rules

  /** What one resumption of end_game_iterator yields, and the colour its loop
      variable holds when it is resumed the next time. */
  datatype Turn = Turn(player: Cell, next: Cell)

  /** `possible_moves[c]` of a pair of tables. */
  function MovesFor(c: Cell, movesW: MoveMap, movesB: MoveMap): MoveMap
    requires c != E
  {
    if c == W then movesW else movesB
  }

  /** `len(possible_moves[c])` is non-zero. */
  predicate HasMoves(c: Cell, movesW: MoveMap, movesB: MoveMap)
    requires c != E
  {
    |MovesFor(c, movesW, movesB)| > 0
  }

  /** The rules every resumption keeps: a colour is yielded only when it has a move,
      the turn goes to the opponent only when the colour asked has none, and the
      iterator stops exactly when neither colour has a move. */
  predicate TurnRules(colour: Cell, movesW: MoveMap, movesB: MoveMap, r: Option<Turn>)
    requires colour != E
  {
    && (r.None? <==> !HasMoves(W, movesW, movesB) && !HasMoves(B, movesW, movesB))
    && (r.Some? ==>
          && (r.value.player == colour || r.value.player == FlipRule(colour))
          && r.value.player != E && r.value.next != E
          && HasMoves(r.value.player, movesW, movesB)
          && (r.value.player != colour ==> !HasMoves(colour, movesW, movesB)))
  }

  /** end_game_iterator as the source writes it: in the pass branch the loop
      variable is set to the colour that is yielded, so the next resumption offers
      the turn to that same colour first. */
  function EndGameStepAsWritten(colour: Cell, movesW: MoveMap, movesB: MoveMap): (r: Option<Turn>)
    requires colour != E
    ensures TurnRules(colour, movesW, movesB, r)
  {
    if HasMoves(colour, movesW, movesB) then Some(Turn(colour, FlipRule(colour)))
    else if HasMoves(FlipRule(colour), movesW, movesB) then Some(Turn(FlipRule(colour), FlipRule(colour)))
    else None
  }

  /** end_game_iterator with the pass branch corrected: the colour without moves is
      passed over for this turn only, so after every move the opponent of the colour
      that moved is asked first. */
  function EndGameStep(colour: Cell, movesW: MoveMap, movesB: MoveMap): (r: Option<Turn>)
    requires colour != E
    ensures TurnRules(colour, movesW, movesB, r)
    ensures r.Some? ==> r.value.next == FlipRule(r.value.player)
  {
    if HasMoves(colour, movesW, movesB) then Some(Turn(colour, FlipRule(colour)))
    else if HasMoves(FlipRule(colour), movesW, movesB) then Some(Turn(FlipRule(colour), colour))
    else None
  }

  /** Which end_game_iterator a game runs: the one the source writes, or the one
      with its pass branch corrected. */
  datatype Controller = AsWritten | Corrected

  /** One resumption of the chosen controller. Both keep the turn rules, and both
      offer the turn to the opponent first after a colour has moved in its own turn. */
  function NextTurn(ctrl: Controller, colour: Cell, movesW: MoveMap, movesB: MoveMap): (r: Option<Turn>)
    requires colour != E
    ensures TurnRules(colour, movesW, movesB, r)
    ensures r.Some? && r.value.player == colour ==> r.value.next == FlipRule(colour)
  {
    match ctrl
    case AsWritten => EndGameStepAsWritten(colour, movesW, movesB)
    case Corrected => EndGameStep(colour, movesW, movesB)
  }

  /** The iterator as written, after Black has had to pass: White plays, and on the
      next resumption White is yielded again although Black has regained a move. */
  lemma EndGameStepAsWrittenRepeatsAfterPass(movesW: MoveMap, movesW': MoveMap, movesB': MoveMap)
    requires |movesW| > 0 && |movesW'| > 0 && |movesB'| > 0
    ensures EndGameStepAsWritten(B, movesW, []) == Some(Turn(W, W))
    ensures EndGameStepAsWritten(W, movesW', movesB') == Some(Turn(W, B))
    ensures EndGameStep(B, movesW, []) == Some(Turn(W, B))
    ensures EndGameStep(B, movesW', movesB') == Some(Turn(B, W))
  {
  }

  /** A colour has entries in the table board_change builds exactly when it has a
      legal move on the board, so the iterator's tests are the rules' tests. */
  lemma HasMovesMeansLegalMove(b: Board, c: Cell)
    requires c != E
    ensures HasMoves(c, PossibleMoves(b, W), PossibleMoves(b, B)) <==> exists q :: IsMove(b, c, q)
  {
    var m := PossibleMoves(b, c);
    if |m| > 0 {
      var q := m[0].0;
      assert q == Keys(m)[0];
      PossibleMovesExact(b, c, q);
    }
    if exists q :: IsMove(b, c, q) {
      var q :| IsMove(b, c, q);
      PossibleMovesExact(b, c, q);
    }
  }
}
