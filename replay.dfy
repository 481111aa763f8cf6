/** Saving and replaying games (Othello.py): SaveGame.save writes one line "x,y\n"
    per move played; LoadLocalVersus.load and LoadAI.load replay a save file line by
    line through the turn controller, up to a chosen line, to resume a game; and
    SavedGamesLoader replays a whole file, keeping every position it passes so that
    a viewer can step back and forth through the game. */
module Replay {
  import opened Constants
  import opened Seqs
  import opened Rules
  import opened Strings
  import opened Engine
  import opened Turns

  // ---------------------------------------------------------------------------
  // The line format
  // ---------------------------------------------------------------------------

  /** The line save writes for a move: `str(x) + "," + str(y) + "\n"`. */
  function SaveLine(p: Pos): string
  {
    IntToString(p.0) + "," + IntToString(p.1) + "\n"
  }

  /** The exceptions a replay can end with: int() refusing a coordinate, a line
      without a comma, or a move the board does not allow (BoardError). */
  datatype LoadError = ValueError | IndexError | IncorrectBoard

  datatype PosResult = Parsed(pos: Pos) | PosError(error: LoadError)

  /** get_pos_from_file (and SavedGamesLoader.get_pos): split the line at commas and
      convert the first two pieces with int(), left to right, so that a bad first
      coordinate raises ValueError before a missing second one raises IndexError. */
  function GetPosFromFile(line: string): PosResult
  {
    var parts := Split(line, ',');
    match ParseInt(parts[0])
    case None => PosError(ValueError)
    case Some(x) =>
      if |parts| < 2 then PosError(IndexError)
      else
        match ParseInt(parts[1])
        case None => PosError(ValueError)
        case Some(y) => Parsed((x, y))
  }

  /** Reading a saved line gives back the move that was saved. */
  lemma GetPosFromFileReadsSaveLine(p: Pos)
    ensures GetPosFromFile(SaveLine(p)) == Parsed(p)
  {
    var sx, sy := IntToString(p.0), IntToString(p.1);
    assert SaveLine(p) == sx + [','] + (sy + "\n");
    SplitAtSeparator(sx, ',', sy + "\n");
    SplitAtSeparator(sy + "\n", ',', "");
    ParseIntToString(p.0, "");
    assert sx + "" == sx;
    ParseIntToString(p.1, "\n");
    ReadsTwoFields(SaveLine(p), sx, sy + "\n", p.0, p.1);
  }

  /** A line made of two fields that int() accepts reads as their position. */
  lemma ReadsTwoFields(line: string, a: string, b: string, x: int, y: int)
    requires Split(line, ',') == [a] + Split(b, ',') && Split(b, ',') == [b]
    requires ParseInt(a) == Some(x) && ParseInt(b) == Some(y)
    ensures GetPosFromFile(line) == Parsed((x, y))
  {
  }

  /** A line without a comma is refused: ValueError if it is not an integer, and
      IndexError otherwise. */
  lemma GetPosFromFileNeedsAComma(line: string)
    requires ',' !in line
    ensures GetPosFromFile(line).PosError?
    ensures GetPosFromFile(line) == PosError(if ParseInt(line).None? then ValueError else IndexError)
  {
    SplitAtSeparator(line, ',', "");
  }

  // ---------------------------------------------------------------------------
  // The replay loop
  // ---------------------------------------------------------------------------

  /** The state of a replay loop: the turn controller it runs; the board; the colour last yielded by the turn
      controller (`playing_colour`, `colour`); the colour the controller asks next;
      the lines saved again; the (board, colour) pairs passed (previous_states);
      whether the loop stopped at the requested line; and the exception, if any. */
  datatype Replay = Replay(ctrl: Controller, board: Board, playing: Cell, next: Cell, saved: seq<string>,
                           states: seq<(Board, Cell)>, stopped: bool, error: Option<LoadError>)

  /** Every recorded position has the colour that was to play on it. */
  predicate Coloured(states: seq<(Board, Cell)>)
  {
    forall k :: 0 <= k < |states| ==> states[k].1 != E
  }

  lemma ColouredAppend(a: seq<(Board, Cell)>, b: seq<(Board, Cell)>)
    requires Coloured(a) && Coloured(b)
    ensures Coloured(a + b)
  {
  }

  /** A replay that has not started: the controller is asked `next` first. */
  function StartReplay(ctrl: Controller, b: Board, playing: Cell, next: Cell, saved: seq<string>): Replay
  {
    Replay(ctrl, b, playing, next, saved, [], false, None)
  }

  /** get_pos_from_file of each line, in order. */
  function ParseLines(lines: seq<string>): (parsed: seq<PosResult>)
    ensures |parsed| == |lines|
  {
    if lines == [] then [] else [GetPosFromFile(lines[0])] + ParseLines(lines[1..])
  }

  /** The loop `for line, colour in zip(lines, end_game_iterator(..))` of the load
      methods, from the point where `done` lines have been replayed. A line is
      parsed only when the loop reaches it, and parsing has no effect, so the loop
      is the same as running it over the lines as get_pos_from_file reads them. */
  function ReplayLines(r: Replay, lines: seq<string>, done: int, lineCount: int): (r': Replay)
    requires r.next != E && r.playing != E
  {
    ReplayParsed(r, ParseLines(lines), done, lineCount)
  }

  /** That loop over the parsed lines: zip takes a line first and stops when there
      is none; the controller then yields the colour to play or ends the game; the
      loop stops before replaying line number `lineCount`; otherwise the line's
      move is checked by can_be_placed, saved and placed. */
  function ReplayParsed(r: Replay, parsed: seq<PosResult>, done: int, lineCount: int): (r': Replay)
    requires r.next != E && r.playing != E
    ensures r'.next != E && r'.playing != E
    decreases |parsed|
  {
    if parsed == [] || r.stopped || r.error.Some? then r
    else
      match NextTurn(r.ctrl, r.next, PossibleMoves(r.board, W), PossibleMoves(r.board, B))
      case None => r
      case Some(t) =>
        var r1 := r.(playing := t.player, next := t.next, states := r.states + [(r.board, t.player)]);
        if done == lineCount then r1.(stopped := true)
        else
          match parsed[0]
          case PosError(e) => r1.(error := Some(e))
          case Parsed(p) =>
            if !IsMove(r.board, t.player, p) then r1.(error := Some(IncorrectBoard))
            else ReplayParsed(r1.(board := Placed(r.board, p, t.player), saved := r.saved + [SaveLine(p)]),
                              parsed[1..], done + 1, lineCount)
  }

  /** Every position the loop records has the colour that was yielded for it. */
  lemma {:induction false} ReplayParsedKeepsColoured(r: Replay, parsed: seq<PosResult>, done: int, lineCount: int)
    requires r.next != E && r.playing != E && Coloured(r.states)
    ensures Coloured(ReplayParsed(r, parsed, done, lineCount).states)
    decreases |parsed|
  {
    if parsed != [] && !r.stopped && r.error.None? {
      var t := NextTurn(r.ctrl, r.next, PossibleMoves(r.board, W), PossibleMoves(r.board, B));
      if t.Some? {
        var states := r.states + [(r.board, t.value.player)];
        ColouredAppend(r.states, [(r.board, t.value.player)]);
        var r1 := r.(playing := t.value.player, next := t.value.next, states := states);
        if done != lineCount && parsed[0].Parsed? {
          var p := parsed[0].pos;
          if IsMove(r.board, t.value.player, p) {
            ReplayParsedKeepsColoured(r1.(board := Placed(r.board, p, t.value.player), saved := r.saved + [SaveLine(p)]),
                                      parsed[1..], done + 1, lineCount);
          }
        }
      }
    }
  }

  /** The colour load leaves in playing_colour, as written: the last colour yielded,
      flipped. */
  function ResumeColourAsWritten(r: Replay): Cell
  {
    FlipRule(r.playing)
  }

  /** The colour a resumed game should start with: the colour of the first line not
      replayed. When the loop stopped at the requested line that is the colour just
      yielded for it; otherwise it is the colour the turn controller asks next. */
  function ResumeColour(r: Replay): Cell
  {
    if r.stopped then r.playing else r.next
  }

  /** Resuming a game at its first line (line_count 0): the loop stops at once with
      Black, the side to move at the start, under either controller; load as
      written hands the turn to White. */
  lemma ResumeAtFirstLine(ctrl: Controller, b: Board, line: string, more: seq<string>)
    requires b == StartBoard()
    ensures var r := ReplayLines(StartReplay(ctrl, b, B, B, []), [line] + more, 0, 0);
      && r.stopped && r.error.None? && r.board == b
      && ResumeColour(r) == B
      && ResumeColourAsWritten(r) == W
  {
    assert At(b, (3, 2)) == E && At(b, (3, 3)) == W && At(b, (3, 4)) == B;
    BlackMovesAtStart(b);
    StopsAtLine(StartReplay(ctrl, b, B, B, []), [line] + more, 0);
  }

  /** The loop asked to stop at the line it is on stops there, once the controller
      has yielded the colour for that line. */
  lemma StopsAtLine(r: Replay, lines: seq<string>, done: int)
    requires r.next != E && r.playing != E && !r.stopped && r.error.None? && lines != []
    requires HasMoves(r.next, PossibleMoves(r.board, W), PossibleMoves(r.board, B))
    ensures var r' := ReplayLines(r, lines, done, done);
      r'.stopped && r'.error.None? && r'.board == r.board && r'.playing == r.next
  {
  }

  /** Black has a move on a board whose column 3 reads empty, White, Black from row 2
      down, as on the start position: (3, 2) is one. */
  lemma BlackMovesAtStart(b: Board)
    requires At(b, (3, 2)) == E && At(b, (3, 3)) == W && At(b, (3, 4)) == B
    ensures HasMoves(B, PossibleMoves(b, W), PossibleMoves(b, B))
  {
    assert ClosingStep(b, (3, 2), B, (0, 1)) == Some(2);
    LegalDirsMembers(b, (3, 2), B);
    assert (0, 1) in FLIP_LINES;
    assert IsMove(b, B, (3, 2));
    HasMovesMeansLegalMove(b, B);
  }

  // ---------------------------------------------------------------------------
  // Playing and saving, then loading
  // ---------------------------------------------------------------------------

  /** The game LocalVersus.play plays when the moves ps are entered in turn: each
      move must be legal for the colour the turn controller yields; None if one is
      not, or if the game ends before ps does. The result is the board and the
      colour the controller asks next. */
  function PlayOut(ctrl: Controller, b: Board, next: Cell, ps: seq<Pos>): Option<(Board, Cell)>
    requires next != E
    decreases |ps|
  {
    if ps == [] then Some((b, next))
    else
      match NextTurn(ctrl, next, PossibleMoves(b, W), PossibleMoves(b, B))
      case None => None
      case Some(t) =>
        if IsMove(b, t.player, ps[0]) then PlayOut(ctrl, Placed(b, ps[0], t.player), t.next, ps[1..]) else None
  }

  /** The lines save writes for the moves ps, in order. */
  function SaveLines(ps: seq<Pos>): seq<string>
  {
    if ps == [] then [] else [SaveLine(ps[0])] + SaveLines(ps[1..])
  }

  /** The i-th line of the file is the line of the i-th move. */
  lemma {:induction false} SaveLinesLineByLine(ps: seq<Pos>)
    ensures |SaveLines(ps)| == |ps|
    ensures forall i :: 0 <= i < |ps| ==> SaveLines(ps)[i] == SaveLine(ps[i])
  {
    if ps != [] {
      SaveLinesLineByLine(ps[1..]);
    }
  }

  /** Save then load: replaying the lines written for a game played move by move,
      to the end of the file, raises nothing, reaches the same board with the same
      colour to move, and writes the same lines again. */
  lemma ReplayOfSavedGame(r: Replay, ps: seq<Pos>, done: int, lineCount: int)
    requires r.next != E && r.playing != E && !r.stopped && r.error.None?
    requires PlayOut(r.ctrl, r.board, r.next, ps).Some?
    requires lineCount < done || done + |ps| <= lineCount
    ensures var r' := ReplayLines(r, SaveLines(ps), done, lineCount);
      && !r'.stopped && r'.error.None?
      && (r'.board, r'.next) == PlayOut(r.ctrl, r.board, r.next, ps).value
      && r'.saved == r.saved + SaveLines(ps)
      && |r'.states| == |r.states| + |ps|
  {
    SavedLinesParseAsMoves(ps);
    ReplayOfMoves(r, ps, done, lineCount);
  }

  /** The moves ps as parsed lines. */
  function AsParsed(ps: seq<Pos>): seq<PosResult>
  {
    if ps == [] then [] else [Parsed(ps[0])] + AsParsed(ps[1..])
  }

  /** The file save writes reads back as the moves that were saved. */
  lemma {:induction false} SavedLinesParseAsMoves(ps: seq<Pos>)
    ensures ParseLines(SaveLines(ps)) == AsParsed(ps)
  {
    if ps != [] {
      var lines := SaveLines(ps);
      assert lines[0] == SaveLine(ps[0]) && lines[1..] == SaveLines(ps[1..]);
      GetPosFromFileReadsSaveLine(ps[0]);
      SavedLinesParseAsMoves(ps[1..]);
    }
  }

  /** Replaying the moves ps of a game, to their end, plays that game and saves
      the lines save writes for it. */
  lemma {:induction false} ReplayOfMoves(r: Replay, ps: seq<Pos>, done: int, lineCount: int)
    requires r.next != E && r.playing != E && !r.stopped && r.error.None?
    requires PlayOut(r.ctrl, r.board, r.next, ps).Some?
    requires lineCount < done || done + |ps| <= lineCount
    ensures !ReplayParsed(r, AsParsed(ps), done, lineCount).stopped
    ensures ReplayParsed(r, AsParsed(ps), done, lineCount).error.None?
    ensures (ReplayParsed(r, AsParsed(ps), done, lineCount).board,
             ReplayParsed(r, AsParsed(ps), done, lineCount).next) == PlayOut(r.ctrl, r.board, r.next, ps).value
    ensures ReplayParsed(r, AsParsed(ps), done, lineCount).saved == r.saved + SaveLines(ps)
    ensures |ReplayParsed(r, AsParsed(ps), done, lineCount).states| == |r.states| + |ps|
    decreases |ps|
  {
    if ps != [] {
      var r2 := ReplayOneMove(r, ps, done, lineCount);
      ReplayOfMoves(r2, ps[1..], done + 1, lineCount);
      ReplayLink(ReplayParsed(r, AsParsed(ps), done, lineCount), ReplayParsed(r2, AsParsed(ps[1..]), done + 1, lineCount),
                 PlayOut(r.ctrl, r.board, r.next, ps), PlayOut(r2.ctrl, r2.board, r2.next, ps[1..]),
                 r.saved, SaveLines(ps), r2.saved, SaveLines(ps[1..]),
                 |r.states| + |ps|, |r2.states| + |ps[1..]|);
    } else {
      assert r.saved + SaveLines(ps) == r.saved;
    }
  }

  /** Carries the outcome of the rest of a replay over to the replay one move
      earlier, which has the same outcome. */
  lemma ReplayLink(x: Replay, y: Replay, o: Option<(Board, Cell)>, o2: Option<(Board, Cell)>,
                   s: seq<string>, l: seq<string>, s2: seq<string>, l2: seq<string>, n: int, n2: int)
    requires x == y && o == o2 && s2 + l2 == s + l && n2 == n && o2.Some?
    requires !y.stopped && y.error.None? && (y.board, y.next) == o2.value && y.saved == s2 + l2 && |y.states| == n2
    ensures !x.stopped && x.error.None? && (x.board, x.next) == o.value && x.saved == s + l && |x.states| == n
  {
  }

  /** One round of the replay loop on the next legal move. */
  lemma ReplayOneMove(r: Replay, ps: seq<Pos>, done: int, lineCount: int) returns (r2: Replay)
    requires r.next != E && r.playing != E && !r.stopped && r.error.None? && done != lineCount
    requires ps != [] && PlayOut(r.ctrl, r.board, r.next, ps).Some?
    ensures r2.next != E && r2.playing != E && !r2.stopped && r2.error.None?
    ensures PlayOut(r2.ctrl, r2.board, r2.next, ps[1..]).Some?
    ensures r2.saved + SaveLines(ps[1..]) == r.saved + SaveLines(ps)
    ensures |r2.states| + |ps[1..]| == |r.states| + |ps|
    ensures ReplayParsed(r, AsParsed(ps), done, lineCount) == ReplayParsed(r2, AsParsed(ps[1..]), done + 1, lineCount)
    ensures PlayOut(r.ctrl, r.board, r.next, ps) == PlayOut(r2.ctrl, r2.board, r2.next, ps[1..])
  {
    var t := NextTurn(r.ctrl, r.next, PossibleMoves(r.board, W), PossibleMoves(r.board, B)).value;
    var p := ps[0];
    r2 := Replay(r.ctrl, Placed(r.board, p, t.player), t.player, t.next, r.saved + [SaveLine(p)],
                 r.states + [(r.board, t.player)], false, None);
    var parsed := AsParsed(ps);
    assert parsed[0] == Parsed(p) && parsed[1..] == AsParsed(ps[1..]);
    AppendAssociates(r.saved, [SaveLine(p)], SaveLines(ps[1..]));
  }

  /** The loop both load methods share, run on the engine: each turn asks the
      controller for the colour to play, records the position, and places the
      line's move with can_be_placed and place; it stops at lineCount, at the end
      of the lines, at the end of the game or at the first bad line. */
  method RunReplay(game: Othello, start: Replay, lines: seq<string>, lineCount: int) returns (r: Replay)
    requires game.Valid() && game.table.None? && game.board == start.board
    requires start.next != E && start.playing != E && !start.stopped && start.error.None?
    modifies game
    ensures game.Valid() && game.table.None? && game.board == r.board
    ensures r == ReplayLines(start, lines, 0, lineCount) && r.playing != E
    ensures Coloured(start.states) ==> Coloured(r.states)
  {
    if Coloured(start.states) {
      ReplayParsedKeepsColoured(start, ParseLines(lines), 0, lineCount);
    }
    r := start;
    var i := 0;
    while i < |lines| && !r.stopped && r.error.None?
      invariant 0 <= i <= |lines| && r.next != E && r.playing != E
      invariant game.Valid() && game.table.None? && game.board == r.board
      invariant ReplayParsed(r, ParseLines(lines[i..]), i, lineCount) == ReplayLines(start, lines, 0, lineCount)
      decreases |lines| - i, if r.stopped || r.error.Some? then 0 else 1
    {
      var t := NextTurn(r.ctrl, r.next, game.possibleW, game.possibleB);
      if t.None? {
        break;
      }
      r, i := ReplayTurn(game, r, t.value, lines, i, lineCount);
    }
  }

  /** One round of that loop, once the controller has yielded the turn t. */
  method ReplayTurn(game: Othello, r: Replay, t: Turn, lines: seq<string>, i: int, lineCount: int)
    returns (r': Replay, i': int)
    requires game.Valid() && game.table.None? && game.board == r.board
    requires r.next != E && r.playing != E && !r.stopped && r.error.None? && 0 <= i < |lines|
    requires NextTurn(r.ctrl, r.next, PossibleMoves(r.board, W), PossibleMoves(r.board, B)) == Some(t)
    modifies game
    ensures game.Valid() && game.table.None? && game.board == r'.board
    ensures r'.next != E && r'.playing != E
    ensures i' == i + 1 || (i' == i && r'.stopped)
    ensures ReplayParsed(r', ParseLines(lines[i'..]), i', lineCount) == ReplayParsed(r, ParseLines(lines[i..]), i, lineCount)
    ensures i' == i + 1 && r'.error.None? ==> !r'.stopped
  {
    var r1 := Yielded(r, t);
    if i == lineCount {
      r', i' := r1.(stopped := true), i;
      RoundStops(r, t, lines, i);
    } else {
      var line := lines[i];
      i' := i + 1;
      var pos := GetPosFromFile(line);
      if pos.PosError? {
        r' := r1.(error := Some(pos.error));
        RoundRejects(r, t, lines, i, lineCount, pos.error);
      } else {
        var p := pos.pos;
        var checked := game.CanBePlaced((Int(p.0), Int(p.1)), r1.playing);
        CanBePlacedMeansLegal(game, (Int(p.0), Int(p.1)), r1.playing);
        if !checked.1 {
          r' := r1.(error := Some(IncorrectBoard));
          RoundRejects(r, t, lines, i, lineCount, IncorrectBoard);
        } else {
          PossibleMovesExact(game.board, r1.playing, p);
          var _ := game.Place(p, r1.playing);
          r' := r1.(board := game.board, saved := r.saved + [SaveLine(p)]);
          RoundPlaces(r, t, lines, i, lineCount, p);
        }
      }
    }
  }

  /** The replay once the controller has yielded the turn t: the position is
      recorded with the colour to play. */
  function Yielded(r: Replay, t: Turn): Replay
  {
    r.(playing := t.player, next := t.next, states := r.states + [(r.board, t.player)])
  }

  /** A round at the requested line stops the loop there. */
  lemma RoundStops(r: Replay, t: Turn, lines: seq<string>, i: int)
    requires r.next != E && r.playing != E && !r.stopped && r.error.None? && 0 <= i < |lines|
    requires NextTurn(r.ctrl, r.next, PossibleMoves(r.board, W), PossibleMoves(r.board, B)) == Some(t)
    ensures ReplayParsed(Yielded(r, t).(stopped := true), ParseLines(lines[i..]), i, i)
         == ReplayParsed(r, ParseLines(lines[i..]), i, i)
  {
  }

  /** A round on a line that does not parse, or whose move is not legal, ends the
      loop with that error. */
  lemma RoundRejects(r: Replay, t: Turn, lines: seq<string>, i: int, lineCount: int, e: LoadError)
    requires r.next != E && r.playing != E && !r.stopped && r.error.None? && 0 <= i < |lines| && i != lineCount
    requires NextTurn(r.ctrl, r.next, PossibleMoves(r.board, W), PossibleMoves(r.board, B)) == Some(t)
    requires GetPosFromFile(lines[i]) == PosError(e) ||
             (GetPosFromFile(lines[i]).Parsed? && !IsMove(r.board, t.player, GetPosFromFile(lines[i]).pos) && e == IncorrectBoard)
    ensures ReplayParsed(Yielded(r, t).(error := Some(e)), ParseLines(lines[i + 1..]), i + 1, lineCount)
         == ReplayParsed(r, ParseLines(lines[i..]), i, lineCount)
  {
    assert ParseLines(lines[i..])[0] == GetPosFromFile(lines[i]);
  }

  /** A round on a legal move places it, saves its line and goes on with the next line. */
  lemma RoundPlaces(r: Replay, t: Turn, lines: seq<string>, i: int, lineCount: int, p: Pos)
    requires r.next != E && r.playing != E && !r.stopped && r.error.None? && 0 <= i < |lines| && i != lineCount
    requires NextTurn(r.ctrl, r.next, PossibleMoves(r.board, W), PossibleMoves(r.board, B)) == Some(t)
    requires GetPosFromFile(lines[i]) == Parsed(p) && IsMove(r.board, t.player, p)
    ensures ReplayParsed(Yielded(r, t).(board := Placed(r.board, p, t.player), saved := r.saved + [SaveLine(p)]),
                         ParseLines(lines[i + 1..]), i + 1, lineCount)
         == ReplayParsed(r, ParseLines(lines[i..]), i, lineCount)
  {
    assert lines[i..][1..] == lines[i + 1..];
    assert ParseLines(lines[i..])[0] == GetPosFromFile(lines[i]);
  }

  // ---------------------------------------------------------------------------
  // LocalVersus with SaveGame, and its load (LoadLocalVersus, LoadAI)
  // ---------------------------------------------------------------------------

  /** The state of a LocalVersus game that load works on: the board object, the
      colour to play, and the lines of its save file. */
  class LocalGame {
    const game: Othello
    var playingColour: Cell
    /** The lines written to the save file so far. */
    var saved: seq<string>

    ghost predicate Valid()
      reads this, game
    {
      game.Valid() && game.table.None? && playingColour != E
    }

    /** LocalVersus.__init__: Black to play on the start position; nothing saved yet. */
    constructor ()
      ensures Valid() && fresh(game)
      ensures game.board == StartBoard() && playingColour == B && saved == []
    {
      game := new Othello();
      playingColour := B;
      saved := [];
    }

    /** save: appends the move's line to the save file. */
    method Save(p: Pos)
      modifies this
      ensures saved == old(saved) + [SaveLine(p)]
      ensures playingColour == old(playingColour)
    {
      saved := saved + [SaveLine(p)];
    }

    /** load (LoadLocalVersus and LoadAI alike): replays the save file's lines
        until line number lineCount, saving each move again, and leaves in
        playing_colour the colour that resumes the game. ctrl is the turn
        controller the loop runs: AsWritten is the program as it stands. The board,
        the saved lines and the exception are those of ReplayLines; the resuming
        colour is the corrected one (see ResumeColour). */
    method Load(ctrl: Controller, commands: seq<string>, lineCount: int) returns (error: Option<LoadError>)
      requires Valid()
      modifies this, game
      ensures Valid()
      ensures var r := ReplayLines(StartReplay(ctrl, old(game.board), old(playingColour), old(playingColour), old(saved)),
                                   commands, 0, lineCount);
        && game.board == r.board && saved == r.saved && error == r.error
        && playingColour == (if r.error.Some? then r.playing else ResumeColour(r))
    {
      var r := RunReplay(game, StartReplay(ctrl, game.board, playingColour, playingColour, saved), commands, lineCount);
      saved, error := r.saved, r.error;
      playingColour := if r.error.Some? then r.playing else ResumeColour(r);
    }
  }

  // ---------------------------------------------------------------------------
  // SavedGamesLoader
  // ---------------------------------------------------------------------------

  /** What the cursor methods return: the board shown, "At end of Board" and
      "At start of Board" (BoardError), or the IndexError of a missing state. */
  datatype CursorResult = Shown(board: Board) | AtEnd | AtStart | MissingState

  /** SavedGamesLoader: a replayed save file with a cursor over the positions passed. */
  class SavedGames {
    const game: Othello
    var seekAmount: nat
    var currentLine: int
    /** The file's lines; empty stands for the None the source starts with. */
    var commands: seq<string>
    var maxLine: int
    var previousStates: seq<(Board, Cell)>
    var colour: Cell

    ghost predicate Valid()
      reads this, game
    {
      && game.Valid() && game.table.None? && colour != E && currentLine >= 0 && maxLine >= 0
      && Coloured(previousStates)
    }

    /** Every line of the file has its position, and the cursor is within them:
        what a load that replays the whole file leaves. */
    ghost predicate Complete()
      reads this
    {
      |previousStates| == maxLine + 1 && 0 <= currentLine <= maxLine
    }

    /** SavedGamesLoader.__init__(save_name, seek_amount). */
    constructor (seek: int)
      ensures Valid() && fresh(game) && game.board == StartBoard()
      ensures seekAmount == (if seek > 0 then seek else 0)
      ensures currentLine == 0 && commands == [] && maxLine == 1 && previousStates == [] && colour == W
    {
      game := new Othello();
      seekAmount := if seek > 0 then seek else 0;
      currentLine, commands, maxLine, previousStates, colour := 0, [], 1, [], W;
    }

    /** load: reads the file if no lines are held yet, replays up to seekAmount
        lines recording each position before its move, records the final
        position, and puts the cursor on the last line. ctrl is the turn
        controller the replay runs: AsWritten is the program as it stands. */
    method Load(ctrl: Controller, fileLines: seq<string>) returns (error: Option<LoadError>, shown: Board)
      requires Valid()
      modifies this, game
      ensures Valid() && seekAmount == old(seekAmount)
      ensures commands == (if old(commands) == [] then fileLines else old(commands))
      ensures maxLine == (if old(commands) == [] then |fileLines| else old(maxLine))
      ensures var r := ReplayLines(StartReplay(ctrl, old(game.board), old(colour), FlipRule(old(colour)), []),
                                   commands, 0, seekAmount);
        && game.board == r.board && colour == r.playing && error == r.error
        && previousStates == old(previousStates) + r.states + (if r.error.None? then [(r.board, r.playing)] else [])
        && currentLine == (if r.error.None? then maxLine else old(currentLine))
        && shown == game.board
    {
      if commands == [] {
        commands := fileLines;
        maxLine := |commands|;
      }
      error := ReplayCommands(ctrl);
      shown := game.board;
    }

    /** The replay half of load, over the lines already held. */
    method ReplayCommands(ctrl: Controller) returns (error: Option<LoadError>)
      requires Valid()
      modifies this, game
      ensures Valid() && seekAmount == old(seekAmount) && commands == old(commands) && maxLine == old(maxLine)
      ensures var r := ReplayLines(StartReplay(ctrl, old(game.board), old(colour), FlipRule(old(colour)), []),
                                   commands, 0, seekAmount);
        && game.board == r.board && colour == r.playing && error == r.error
        && previousStates == old(previousStates) + r.states + (if r.error.None? then [(r.board, r.playing)] else [])
        && currentLine == (if r.error.None? then maxLine else old(currentLine))
    {
      var r := RunReplay(game, StartReplay(ctrl, game.board, colour, FlipRule(colour), []), commands, seekAmount);
      error := RecordReplay(r);
    }

    /** Records a finished replay: its colour, the positions it passed and, when
        it ended without an exception, its final position and the cursor on the
        last line. */
    method RecordReplay(r: Replay) returns (error: Option<LoadError>)
      requires Valid() && Coloured(r.states) && r.playing != E && game.board == r.board
      modifies this
      ensures Valid() && seekAmount == old(seekAmount) && commands == old(commands) && maxLine == old(maxLine)
      ensures colour == r.playing && error == r.error
      ensures previousStates == old(previousStates) + r.states + (if r.error.None? then [(r.board, r.playing)] else [])
      ensures currentLine == (if r.error.None? then maxLine else old(currentLine))
    {
      colour, error := r.playing, r.error;
      ColouredAppend(previousStates, r.states);
      previousStates := previousStates + r.states;
      if r.error.None? {
        ColouredAppend(previousStates, [(r.board, r.playing)]);
        previousStates := previousStates + [(r.board, r.playing)];
        currentLine := maxLine;
      }
    }

    /** update_board_state: shows a recorded position and rebuilds its move tables. */
    method UpdateBoardState(b: Board, c: Cell)
      requires Valid() && c != E
      modifies this, game
      ensures Valid() && game.board == b && colour == c
      ensures currentLine == old(currentLine) && maxLine == old(maxLine) && previousStates == old(previousStates)
      ensures commands == old(commands) && seekAmount == old(seekAmount)
    {
      colour := c;
      game.board := b;
      game.BoardChange();
    }

    /** line_load_forwards: one line on, unless the cursor is at the last line. */
    method LineLoadForwards() returns (r: CursorResult)
      requires Valid()
      modifies this, game
      ensures Valid() && maxLine == old(maxLine) && previousStates == old(previousStates)
      ensures r == AtEnd <==> old(currentLine) >= maxLine
      ensures r == AtEnd ==> currentLine == old(currentLine) && game.board == old(game.board)
      ensures r != AtEnd ==> currentLine == old(currentLine) + 1
      ensures r == MissingState <==> old(currentLine) < maxLine && currentLine >= |previousStates|
      ensures r.Shown? ==> r.board == game.board == previousStates[currentLine].0 && colour == previousStates[currentLine].1
      ensures old(Complete()) ==> Complete() && r != MissingState
      ensures r != AtStart
    {
      if currentLine < maxLine {
        currentLine := currentLine + 1;
        if currentLine < |previousStates| {
          UpdateBoardState(previousStates[currentLine].0, previousStates[currentLine].1);
          r := Shown(game.board);
        } else {
          r := MissingState;
        }
      } else {
        r := AtEnd;
      }
    }

    /** line_load_backwards: one line back, unless the cursor is at the first line. */
    method LineLoadBackwards() returns (r: CursorResult)
      requires Valid()
      modifies this, game
      ensures Valid() && maxLine == old(maxLine) && previousStates == old(previousStates)
      ensures r == AtStart <==> old(currentLine) == 0
      ensures r == AtStart ==> currentLine == old(currentLine) && game.board == old(game.board)
      ensures r != AtStart ==> currentLine == old(currentLine) - 1
      ensures r == MissingState <==> old(currentLine) > 0 && currentLine >= |previousStates|
      ensures r.Shown? ==> r.board == game.board == previousStates[currentLine].0 && colour == previousStates[currentLine].1
      ensures old(Complete()) ==> Complete() && r != MissingState
      ensures r != AtEnd
    {
      if currentLine > 0 {
        currentLine := currentLine - 1;
        if currentLine < |previousStates| {
          UpdateBoardState(previousStates[currentLine].0, previousStates[currentLine].1);
          r := Shown(game.board);
        } else {
          r := MissingState;
        }
      } else {
        r := AtStart;
      }
    }
  }
}
