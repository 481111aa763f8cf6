/** The AI of Othello.py: the Zobrist hash computed from scratch (get_hash_version),
    the end-of-game test and utility, alpha-beta minimax over a transposition table
    keyed by board (searched_moves), the MTD(f) driver, iterative deepening and the
    aging of the table in ai_play. Scores are integers; float('inf') is the
    sentinel INF, which lies beyond every score. */
module Search {
  import opened Constants
  import opened Rules
  import opened Zobrist
  import opened Engine
  import opened Turns

  /** terminal_utility's 85, which its comment takes for the largest value the
      heuristic gives; the heuristic in fact reaches HEURISTIC_LIMIT. */
  const TERMINAL_BASE: int := 85
  /** The largest magnitude heuristic_utility can give: 30 for the corners, 5 for
      mobility, 25 for the disc count and 25 times a stability ratio that reaches 17
      (HeuristicWithinLimit). */
  const HEURISTIC_LIMIT: int := 485
  /** The largest magnitude of a score: the heuristic's limit, which exceeds every
      terminal utility (85 plus a margin of at most 64 discs). */
  const SCORE_LIMIT: int := HEURISTIC_LIMIT
  /** float('inf'). */
  const INF: int := 1000

  predicate IsScore(v: int)
  {
    -SCORE_LIMIT <= v <= SCORE_LIMIT
  }

  /** heuristic_utility, which computes in floating point, is a parameter: any
      integer evaluation of a board within the range HeuristicWithinLimit proves
      for the source's formula. */
  type Heuristic = Board -> int

  ghost predicate IsHeuristic(h: Heuristic)
  {
    forall b :: -HEURISTIC_LIMIT <= h(b) <= HEURISTIC_LIMIT
  }

  function Min(a: int, b: int): int
  {
    if a <= b then a else b
  }

  function Max(a: int, b: int): int
  {
    if a >= b then a else b
  }

  // ---------------------------------------------------------------------------
  // get_hash_version
  // ---------------------------------------------------------------------------

  /** get_hash_version: XORs the table value of every cell in row-major order into
      a fresh hash, and wraps a copy of the board, the move tables and the Zobrist
      table into a HashedLocalVersus whose running hash is then current. */
  method GetHashVersion(game: Othello, t: ZobristTable) returns (hashed: Othello)
    requires game.MovesCurrent()
    ensures fresh(hashed) && hashed.Valid() && hashed.table == Some(t)
    ensures hashed.board == game.board && hashed.hashNum == ZobristHash(game.board, t)
  {
    var h: nat := 0;
    var y := 0;
    while y < BOARD_SIZE
      invariant 0 <= y <= BOARD_SIZE && h == HashPrefix(game.board, t, y * 8)
    {
      var x := 0;
      while x < BOARD_SIZE
        invariant 0 <= x <= BOARD_SIZE && h == HashPrefix(game.board, t, y * 8 + x)
      {
        CellOfRowMajor((x, y));
        h := Xor(h, t[y * BOARD_SIZE + x][XorIndex(game.board[y][x])]);
        x := x + 1;
      }
      y := y + 1;
    }
    hashed := new Othello.Hashed(game.board, h, game.possibleW, game.possibleB, t);
  }

  // ---------------------------------------------------------------------------
  // check_if_terminal and terminal_utility
  // ---------------------------------------------------------------------------

  /** check_if_terminal: neither colour has a move, or one of them has none while
      the smaller of the two disc counts (the second of the counts sorted in
      descending order) is zero. */
  predicate CheckIfTerminal(movesW: MoveMap, movesB: MoveMap, white: nat, black: nat)
  {
    if movesB == [] && movesW == [] then true
    else if movesB == [] || movesW == [] then Min(white, black) == 0
    else false
  }

  /** A legal move needs a disc of the mover's colour to close the line and a disc
      of the other colour to capture. */
  lemma MoveNeedsBothColours(b: Board, c: Cell, q: Pos)
    requires c != E && IsMove(b, c, q)
    ensures Count(b, c) > 0 && Count(b, FlipRule(c)) > 0
  {
    var d := LegalDirs(b, q, c)[0];
    LegalDirsMembers(b, q, c);
    ClosingStepFacts(b, q, c, d);
    var k := ClosingStep(b, q, c, d).value;
    CountPositive(b, Step(q, d, k), c);
    CountPositive(b, Step(q, d, 1), FlipRule(c));
  }

  lemma CountPositive(b: Board, q: Pos, c: Cell)
    requires InBounds(q) && At(b, q) == c
    ensures Count(b, c) > 0
  {
    CountRowsPositive(b, q, c, BOARD_SIZE);
  }

  lemma {:induction false} CountRowsPositive(b: Board, q: Pos, c: Cell, n: int)
    requires InBounds(q) && At(b, q) == c && q.1 < n <= BOARD_SIZE
    ensures CountRows(b, c, n) > 0
  {
    if n - 1 == q.1 {
      CountInRowPositive(b[q.1], q.0, c, BOARD_SIZE);
    } else {
      CountRowsPositive(b, q, c, n - 1);
    }
  }

  lemma {:induction false} CountInRowPositive(r: Row, x: int, c: Cell, n: int)
    requires 0 <= x < n <= BOARD_SIZE && r[x] == c
    ensures CountInRow(r, c, n) > 0
  {
    if n - 1 != x {
      CountInRowPositive(r, x, c, n - 1);
    }
  }

  /** On a board whose move tables are current, check_if_terminal holds exactly
      when neither colour can move: its disc-count clause never decides anything,
      since a colour with a move has discs of both colours on the board. */
  lemma TerminalExactlyWhenNoMoves(b: Board)
    ensures CheckIfTerminal(PossibleMoves(b, W), PossibleMoves(b, B), Count(b, W), Count(b, B))
        <==> PossibleMoves(b, W) == [] && PossibleMoves(b, B) == []
  {
    HasMovesMeansLegalMove(b, W);
    HasMovesMeansLegalMove(b, B);
    if PossibleMoves(b, W) != [] {
      var q :| IsMove(b, W, q);
      MoveNeedsBothColours(b, W, q);
    } else if PossibleMoves(b, B) != [] {
      var q :| IsMove(b, B, q);
      MoveNeedsBothColours(b, B, q);
    }
  }

  /** terminal_utility from the disc counts: the counts sorted in descending order
      (White first on a tie, as the sort is stable); 0 on a tie, else 85 plus the
      margin when White leads and its negation when Black leads. */
  function TerminalUtility(white: nat, black: nat): (u: int)
    ensures u == 0 <==> white == black
    ensures u > 0 <==> white > black
    ensures white != black ==> u > TERMINAL_BASE || u < -TERMINAL_BASE
    ensures white + black <= 64 ==> IsScore(u)
  {
    var (first, second) := if white >= black then ((white, W), (black, B)) else ((black, B), (white, W));
    if first.0 == second.0 then 0
    else if first.1 == W then TERMINAL_BASE + first.0 - second.0
    else -TERMINAL_BASE - first.0 + second.0
  }

  /** The utility is zero-sum: exchanging the colours negates it, and its magnitude
      is 85 plus the margin. */
  lemma TerminalUtilityIsZeroSum(white: nat, black: nat)
    ensures TerminalUtility(white, black) == -TerminalUtility(black, white)
    ensures white > black ==> TerminalUtility(white, black) == TERMINAL_BASE + (white - black)
  {
  }

  // ---------------------------------------------------------------------------
  // The range of heuristic_utility
  // ---------------------------------------------------------------------------

  /** The length of white_stable (c == W) or black_stable (c == B) after the first
      n entries of SAFE_LINES: each entry whose corner holds c appends that corner
      once, and dumb_line_iterator yields nothing, since no x has 0 >= x > 8. */
  function StableCount(b: Board, c: Cell, n: nat): (k: nat)
    requires n <= |SAFE_LINES|
    ensures k <= n
  {
    if n == 0 then 0
    else
      SafeLinesRunAlongEdges();
      var (y, x, _) := SAFE_LINES[n - 1];
      StableCount(b, c, n - 1) + (if b[y][x] == c then 1 else 0)
  }

  /** The number of the four corners that hold c. */
  function CornerCount(b: Board, c: Cell): nat
  {
    (if b[0][0] == c then 1 else 0) + (if b[BOARD_SIZE - 1][0] == c then 1 else 0)
    + (if b[0][BOARD_SIZE - 1] == c then 1 else 0)
    + (if b[BOARD_SIZE - 1][BOARD_SIZE - 1] == c then 1 else 0)
  }

  /** The shape of every term of heuristic_utility: (a - b) / (a + b), and 0 where
      the sum is 0, as the corner and stability terms guard. The disc-count and
      mobility terms divide unguarded; their sums are positive wherever the search
      calls the heuristic, as a board always has discs and a non-terminal board a
      move. */
  function Balance(a: int, b: int): real
  {
    if a + b != 0 then (a - b) as real / (a + b) as real else 0.0
  }

  /** heuristic_utility in exact arithmetic, from the board, the numbers of moves
      of White and Black, and the sizes of white_unstable and black_unstable (the
      squares the other colour's moves would flip): 30 times the corner balance,
      5 times the mobility balance, 25 times the stability balance and 25 times
      the disc balance. */
  function HeuristicValue(b: Board, whiteMoves: nat, blackMoves: nat, whiteUnstable: nat, blackUnstable: nat): real
  {
    var whiteStability := StableCount(b, W, |SAFE_LINES|) - whiteUnstable;
    var blackStability := StableCount(b, B, |SAFE_LINES|) - blackUnstable;
    30.0 * Balance(CornerCount(b, W), CornerCount(b, B)) + Balance(whiteMoves, blackMoves) * 5.0
    + Balance(whiteStability, blackStability) * 25.0 + Balance(Count(b, W), Count(b, B)) * 25.0
  }

  /** The balance of two counts lies within [-1, 1]. */
  lemma BalanceOfCountsWithin(a: nat, b: nat)
    ensures -1.0 <= Balance(a, b) <= 1.0
  {
    if a + b > 0 {
      assert -1 * (a + b) <= a - b <= 1 * (a + b);
      QuotientWithin((a - b) as real, (a + b) as real, 1.0);
    }
  }

  /** A stability is a stable count (at most 8) less an unstable count (at least
      0), so it is at most 8 but may be negative; then their balance lies within
      17, which it reaches at 8 and -9. */
  lemma StabilityBalanceWithin(ws: int, bs: int)
    requires ws <= |SAFE_LINES| && bs <= |SAFE_LINES|
    ensures -17.0 <= Balance(ws, bs) <= 17.0
    ensures Balance(-9, 8) == 17.0
  {
    var s := ws + bs;
    if s > 0 {
      assert -17 * s <= ws - bs <= 17 * s;
      QuotientWithin((ws - bs) as real, s as real, 17.0);
    } else if s < 0 {
      assert 17 * -s >= bs - ws >= -17 * -s;
      QuotientWithin((bs - ws) as real, -s as real, 17.0);
      NegatedQuotient((ws - bs) as real, s as real);
    }
    NegatedQuotient(-17.0, -1.0);
  }

  lemma QuotientWithin(d: real, s: real, k: real)
    requires s > 0.0 && -k * s <= d <= k * s
    ensures -k <= d / s <= k
  {
    assert d / s * s == d;
  }

  lemma NegatedQuotient(d: real, s: real)
    requires s < 0.0
    ensures d / s == -d / -s
  {
  }

  /** heuristic_utility lies within HEURISTIC_LIMIT = 30 + 5 + 25 * 17 + 25. */
  lemma HeuristicWithinLimit(b: Board, whiteMoves: nat, blackMoves: nat, whiteUnstable: nat, blackUnstable: nat)
    ensures -HEURISTIC_LIMIT as real <= HeuristicValue(b, whiteMoves, blackMoves, whiteUnstable, blackUnstable)
                                     <= HEURISTIC_LIMIT as real
  {
    BalanceOfCountsWithin(CornerCount(b, W), CornerCount(b, B));
    BalanceOfCountsWithin(whiteMoves, blackMoves);
    BalanceOfCountsWithin(Count(b, W), Count(b, B));
    StabilityBalanceWithin(StableCount(b, W, |SAFE_LINES|) - whiteUnstable, StableCount(b, B, |SAFE_LINES|) - blackUnstable);
  }

  /** SAFE_LINES holds two entries for each corner, so each stable count is twice
      the number of corners of that colour. */
  lemma StableCountIsTwiceCornerCount(b: Board, c: Cell)
    ensures StableCount(b, c, |SAFE_LINES|) == 2 * CornerCount(b, c)
  {
    assert StableCount(b, c, 2) == 2 * (if b[0][0] == c then 1 else 0);
    assert StableCount(b, c, 4) == StableCount(b, c, 2) + 2 * (if b[0][BOARD_SIZE - 1] == c then 1 else 0);
    assert StableCount(b, c, 6) == StableCount(b, c, 4) + 2 * (if b[BOARD_SIZE - 1][0] == c then 1 else 0);
    assert StableCount(b, c, 8) == StableCount(b, c, 6) + 2 * (if b[BOARD_SIZE - 1][BOARD_SIZE - 1] == c then 1 else 0);
  }

  /** Every legal move captures the first disc along its first closing direction,
      a disc of the other colour: so white_unstable is non-empty whenever Black has
      a move, and black_unstable whenever White has one. */
  lemma MoveCapturesAnOpponentDisc(b: Board, c: Cell, p: Pos)
    requires c != E && IsMove(b, c, p)
    ensures var q := Step(p, LegalDirs(b, p, c)[0], 1);
      InBounds(q) && Captured(b, p, c, q) && At(b, q) == FlipRule(c)
  {
    var d := LegalDirs(b, p, c)[0];
    LegalDirsMembers(b, p, c);
    ClosingStepFacts(b, p, c, d);
    CapturedIsBetween(b, p, c, d, 1);
  }

  /** terminal_utility's 85 is not the heuristic's maximum. On a board where White
      holds two opposite corners and Black none, the colours have equal discs and
      equal (non-zero) numbers of moves, and one White and two Black discs are
      unstable (each side has a move, so each has an unstable disc), the heuristic
      is 30 + 25 * 5 = 155: above the utility of every White win, at most 85 + 64. */
  lemma HeuristicOutranksEveryWin(b: Board, moves: nat, white: nat, black: nat)
    requires b[0][0] == W && b[BOARD_SIZE - 1][BOARD_SIZE - 1] == W
    requires b[BOARD_SIZE - 1][0] == E && b[0][BOARD_SIZE - 1] == E
    requires Count(b, W) == Count(b, B) && moves > 0 && white + black <= 64
    ensures HeuristicValue(b, moves, moves, 1, 2) == 155.0
    ensures TerminalUtility(white, black) as real < HeuristicValue(b, moves, moves, 1, 2)
  {
    StableCountIsTwiceCornerCount(b, W);
    StableCountIsTwiceCornerCount(b, B);
    assert Balance(3, -2) == 5.0;
  }

  // ---------------------------------------------------------------------------
  // The transposition table searched_moves
  // ---------------------------------------------------------------------------

  /** The kind of a stored score, coded 0, 1 and 2 in the source. */
  datatype Bound = LowerBound | Exact | UpperBound

  /** A searched_moves value: (score, kind, depth searched, move chosen). */
  datatype Entry = Entry(value: int, kind: Bound, depth: int, move: Pos)

  /** searched_moves: keyed by HashedBoard, whose equality is board equality. */
  type Entries = map<Board, Entry>

  ghost predicate ScoresBounded(t: Entries)
  {
    forall k :: k in t ==> IsScore(t[k].value)
  }

  /** The outcome of the table lookup at the head of minimax: a stored score it
      returns at once, or the window it searches with and the move to try first. */
  datatype Probe = Hit(value: int, move: Pos) | Miss(alpha: int, beta: int, first: Option<Pos>)

  /** The lookup (Othello.py:552-569): an entry is used only when it was searched
      at least as deep as asked; an exact score is returned, a lower bound raises
      alpha, an upper bound lowers beta, and the stored score is returned when the
      window closes; otherwise the stored move is tried first. */
  function ProbeTable(t: Entries, b: Board, alpha: int, beta: int, lookahead: int): (p: Probe)
    ensures p.Hit? ==> b in t && t[b].depth >= lookahead && p == Hit(t[b].value, t[b].move)
    ensures b !in t || t[b].depth < lookahead ==> p == Miss(alpha, beta, None)
    ensures p.Miss? && p.first.Some? ==>
      && b in t && t[b].depth >= lookahead && t[b].kind != Exact && p.first.value == t[b].move
      && alpha <= p.alpha < p.beta <= beta
  {
    if b !in t || t[b].depth < lookahead then Miss(alpha, beta, None)
    else
      var e := t[b];
      if e.kind == Exact then Hit(e.value, e.move)
      else
        var a := if e.kind == LowerBound then Max(alpha, e.value) else alpha;
        var bt := if e.kind == UpperBound then Min(beta, e.value) else beta;
        if a >= bt then Hit(e.value, e.move) else Miss(a, bt, Some(e.move))
  }

  /** A bound cuts the search off only when it places the score outside the
      window: a lower bound at or above beta, an upper bound at or below alpha. */
  lemma BoundHitsLieOutsideTheWindow(t: Entries, b: Board, alpha: int, beta: int, lookahead: int)
    requires alpha < beta && ProbeTable(t, b, alpha, beta, lookahead).Hit?
    ensures t[b].kind == LowerBound ==> t[b].value >= beta
    ensures t[b].kind == UpperBound ==> t[b].value <= alpha
  {
  }

  /** The kind minimax stores (Othello.py:608-613). The three tests are made in
      turn and the last that holds is kept. */
  function Classify(score: int, alpha: int, beta: int): (k: Bound)
    ensures k == LowerBound <==> score >= beta
    ensures k == Exact <==> alpha < score < beta
    ensures k == UpperBound <==> score <= alpha && score < beta
  {
    if score >= beta then LowerBound else if alpha < score then Exact else UpperBound
  }

  /** Storing a classified score and then searching the same board with the same
      window, no deeper than it was stored, is answered from the table with that
      score and move. */
  lemma ProbeAfterStore(t: Entries, b: Board, score: int, alpha: int, beta: int, depth: int, m: Pos, lookahead: int)
    requires lookahead <= depth
    ensures ProbeTable(t[b := Entry(score, Classify(score, alpha, beta), depth, m)], b, alpha, beta, lookahead)
         == Hit(score, m)
  {
  }

  /** ai_play's aging (Othello.py:405): entries searched to depth 3 or more are kept
      two levels shallower, the others dropped. */
  function AgeTable(t: Entries): (aged: Entries)
    ensures forall k :: k in aged <==> k in t && t[k].depth >= 3
    ensures forall k :: k in aged ==> aged[k] == t[k].(depth := t[k].depth - 2)
  {
    map k | k in t && t[k].depth >= 3 :: t[k].(depth := t[k].depth - 2)
  }

  /** After aging, a lookup at depth d behaves as a lookup at depth d + 2 did
      before: the two plies played since count against every stored depth. */
  lemma AgedProbe(t: Entries, b: Board, alpha: int, beta: int, d: int)
    requires d >= 1
    ensures ProbeTable(AgeTable(t), b, alpha, beta, d) == ProbeTable(t, b, alpha, beta, d + 2)
    ensures ScoresBounded(t) ==> ScoresBounded(AgeTable(t))
  {
    var aged := AgeTable(t);
    if b in t && t[b].depth >= d + 2 {
      assert b in aged && aged[b] == t[b].(depth := t[b].depth - 2);
    }
  }

  // ---------------------------------------------------------------------------
  // Move ordering
  // ---------------------------------------------------------------------------

  /** The moves of keys equal to m, in order. */
  function Matching(keys: seq<Pos>, m: Pos): (r: seq<Pos>)
    ensures forall i :: 0 <= i < |r| ==> r[i] == m
  {
    if keys == [] then [] else (if keys[0] == m then [keys[0]] else []) + Matching(keys[1..], m)
  }

  /** The moves of keys other than m, in order. */
  function Others(keys: seq<Pos>, m: Pos): seq<Pos>
  {
    if keys == [] then [] else (if keys[0] != m then [keys[0]] else []) + Others(keys[1..], m)
  }

  /** `sorted(keys, key=lambda x: x != check_move_first)`: a stable sort on a
      boolean key, which moves the stored move to the front and keeps the other
      moves in their order. */
  function OrderMoves(keys: seq<Pos>, first: Option<Pos>): (r: seq<Pos>)
  {
    if first.None? then keys else Matching(keys, first.value) + Others(keys, first.value)
  }

  lemma {:induction false} SplitIsPermutation(keys: seq<Pos>, m: Pos)
    ensures multiset(Matching(keys, m) + Others(keys, m)) == multiset(keys)
    ensures m in keys ==> Matching(keys, m) != []
  {
    if keys != [] {
      SplitIsPermutation(keys[1..], m);
      assert keys == [keys[0]] + keys[1..];
    }
  }

  lemma {:induction false} OthersOfMatching(keys: seq<Pos>, m: Pos)
    ensures Others(Matching(keys, m), m) == []
  {
    if keys != [] {
      OthersOfMatching(keys[1..], m);
      OthersAppend(if keys[0] == m then [keys[0]] else [], Matching(keys[1..], m), m);
    }
  }

  lemma {:induction false} OthersAppend(a: seq<Pos>, b: seq<Pos>, m: Pos)
    ensures Others(a + b, m) == Others(a, m) + Others(b, m)
  {
    if a != [] {
      OthersAppend(a[1..], b, m);
      assert (a + b)[1..] == a[1..] + b;
    } else {
      assert a + b == b;
    }
  }

  lemma {:induction false} OthersTwice(keys: seq<Pos>, m: Pos)
    ensures Others(Others(keys, m), m) == Others(keys, m)
  {
    if keys != [] {
      OthersTwice(keys[1..], m);
      OthersAppend(if keys[0] != m then [keys[0]] else [], Others(keys[1..], m), m);
    }
  }

  /** The part of OrderMovesIsStoredFirst minimax needs: the same number of moves, all of them moves. */
  lemma OrderMovesAreTheMoves(keys: seq<Pos>, first: Option<Pos>)
    ensures |OrderMoves(keys, first)| == |keys|
    ensures forall m :: m in OrderMoves(keys, first) ==> m in keys
  {
    OrderMovesIsStoredFirst(keys, first);
  }

  /** The order in which minimax tries the moves is a permutation of the moves,
      starts with the stored move when it is one of them, and leaves the order of
      the other moves alone. */
  lemma OrderMovesIsStoredFirst(keys: seq<Pos>, first: Option<Pos>)
    ensures multiset(OrderMoves(keys, first)) == multiset(keys)
    ensures |OrderMoves(keys, first)| == |keys|
    ensures forall m :: m in OrderMoves(keys, first) <==> m in keys
    ensures first.Some? && first.value in keys ==> OrderMoves(keys, first)[0] == first.value
    ensures first.Some? ==> Others(OrderMoves(keys, first), first.value) == Others(keys, first.value)
  {
    if first.Some? {
      var m := first.value;
      SplitIsPermutation(keys, m);
      OthersAppend(Matching(keys, m), Others(keys, m), m);
      OthersOfMatching(keys, m);
      OthersTwice(keys, m);
    }
    var r := OrderMoves(keys, first);
    assert |r| == |multiset(r)|;
    forall m
      ensures m in r <==> m in keys
    {
      assert m in r <==> m in multiset(r);
    }
  }

  // ---------------------------------------------------------------------------
  // minimax
  // ---------------------------------------------------------------------------

  /** The colour a maximising flag stands for: White maximises. */
  function Mover(maximising: bool): Cell
  {
    if maximising then W else B
  }

  /** The flag minimax passes to the child after `mover` has moved: after White,
      White again only if Black has no move; after Black, White if White has one. */
  function ChildMaximising(mover: Cell, movesW: MoveMap, movesB: MoveMap): bool
  {
    if mover == W then |movesB| == 0 else |movesW| != 0
  }

  /** The search passes the turn exactly as the (corrected) turn controller does:
      the child's mover is the colour end_game_iterator yields after `mover`, and
      when it yields none neither colour can move. */
  lemma ChildFollowsTurnOrder(mover: Cell, movesW: MoveMap, movesB: MoveMap)
    requires mover != E
    ensures var t := EndGameStep(FlipRule(mover), movesW, movesB);
      && (t.Some? ==> Mover(ChildMaximising(mover, movesW, movesB)) == t.value.player)
      && (t.None? <==> movesW == [] && movesB == [])
  {
  }

  /** A node minimax can finish: the colour to move has a move, or the game is over. */
  ghost predicate Ready(g: Othello, maximising: bool)
    reads g
  {
    || HasMoves(Mover(maximising), g.possibleW, g.possibleB)
    || (g.possibleW == [] && g.possibleB == [])
  }

  /** Why minimax fails: the UnboundLocalError of a node whose colour to move has no
      move, or the TypeError of unpacking a bare score as (score, move). */
  datatype Failure = UnboundAction | NotAPair

  /** What minimax returns: a bare score, or (score, move) at the root. */
  datatype Outcome = Bare(score: int) | Paired(score: int, move: Pos) | Raised(failure: Failure)

  /** The searched_moves dictionary that minimax fills in place. */
  class SearchTable {
    var entries: Entries

    constructor ()
      ensures entries == map[]
    {
      entries := map[];
    }
  }

  /** A node's piece counts and move tables, as check_if_terminal reads them. */
  ghost predicate IsTerminal(g: Othello)
    reads g
  {
    CheckIfTerminal(g.possibleW, g.possibleB, Count(g.board, W), Count(g.board, B))
  }

  /** The child of a node is one minimax can finish: its colour to move, chosen by
      the flag, has a move unless neither colour has one. */
  lemma ChildIsReady(mover: Cell, child: Othello)
    requires mover != E
    ensures Ready(child, ChildMaximising(mover, child.possibleW, child.possibleB))
  {
    ChildFollowsTurnOrder(mover, child.possibleW, child.possibleB);
  }

  /** minimax (Othello.py:550-618): the table lookup, then the terminal test and the
      depth test, then the moves of the colour to move, the stored move first, each
      searched on a copy of the board with the window narrowed by the scores seen
      so far, stopping at a cutoff; the result is stored with its kind, the
      lookahead and the best move (the first move reaching the best score). The
      root call (initial) returns (score, move), except where the source returns a
      bare score: at a terminal node and at depth zero. */
  method Minimax(board: Othello, alpha: int, beta: int, maximising: bool, initial: bool, lookahead: int,
                 searched: SearchTable, h: Heuristic) returns (r: Outcome)
    requires board.Valid() && ScoresBounded(searched.entries) && IsHeuristic(h)
    modifies searched
    decreases if lookahead > 0 then lookahead else 0, 3
    ensures ScoresBounded(searched.entries)
    ensures r.Bare? || r.Paired? ==> IsScore(r.score)
    ensures r.Paired? ==> initial
    ensures Ready(board, maximising) ==> !r.Raised?
    ensures initial && lookahead > 0 && HasMoves(Mover(maximising), board.possibleW, board.possibleB) ==> r.Paired?
    ensures var p := ProbeTable(old(searched.entries), board.board, alpha, beta, lookahead);
      && (p.Hit? ==>
            && r == (if initial then Paired(p.value, p.move) else Bare(p.value))
            && searched.entries == old(searched.entries))
      && (p.Miss? && IsTerminal(board) ==>
            && r == Bare(TerminalUtility(Count(board.board, W), Count(board.board, B)))
            && searched.entries == old(searched.entries))
      && (p.Miss? && !IsTerminal(board) && lookahead <= 0 ==>
            r == Bare(h(board.board)) && searched.entries == old(searched.entries))
      && (p.Miss? && !IsTerminal(board) && lookahead > 0 ==>
            && (r.Raised? <==> !HasMoves(Mover(maximising), board.possibleW, board.possibleB))
            && (r.Raised? ==> r.failure == UnboundAction && searched.entries == old(searched.entries))
            && (!r.Raised? ==>
                  && board.board in searched.entries
                  && searched.entries[board.board].value == r.score
                  && searched.entries[board.board].kind == Classify(r.score, p.alpha, p.beta)
                  && searched.entries[board.board].depth == lookahead
                  && searched.entries[board.board].move in Keys(board.Moves(Mover(maximising)))
                  && (r.Paired? ==> r.move == searched.entries[board.board].move)))
  {
    var p := ProbeTable(searched.entries, board.board, alpha, beta, lookahead);
    if p.Hit? {
      r := if initial then Paired(p.value, p.move) else Bare(p.value);
      return;
    }
    TerminalExactlyWhenNoMoves(board.board);
    var count := board.CountPieces();
    if CheckIfTerminal(board.possibleW, board.possibleB, count.white, count.black) {
      r := Bare(TerminalUtility(count.white, count.black));
      return;
    } else if lookahead <= 0 {
      r := Bare(h(board.board));
      return;
    }
    r := Expand(board, p, maximising, initial, lookahead, searched, h);
  }

  /** The rest of minimax at a node that is neither stored nor terminal, with depth
      left: the moves of the colour to move, the stored move first, are searched,
      and the best score is stored with its kind, the lookahead and the best move.
      A colour without moves leaves the best move unbound, which the source raises
      as UnboundLocalError. */
  method Expand(board: Othello, p: Probe, maximising: bool, initial: bool, lookahead: int,
                searched: SearchTable, h: Heuristic) returns (r: Outcome)
    requires board.Valid() && ScoresBounded(searched.entries) && IsHeuristic(h)
    requires p.Miss? && lookahead > 0
    modifies searched
    decreases lookahead, 2
    ensures ScoresBounded(searched.entries)
    ensures r.Bare? || r.Paired? ==> IsScore(r.score)
    ensures r.Raised? <==> !HasMoves(Mover(maximising), board.possibleW, board.possibleB)
    ensures r.Raised? ==> r.failure == UnboundAction && searched.entries == old(searched.entries)
    ensures !r.Raised? ==>
      && (initial <==> r.Paired?)
      && board.board in searched.entries
      && searched.entries[board.board].value == r.score
      && searched.entries[board.board].kind == Classify(r.score, p.alpha, p.beta)
      && searched.entries[board.board].depth == lookahead
      && searched.entries[board.board].move in Keys(board.Moves(Mover(maximising)))
      && (r.Paired? ==> r.move == searched.entries[board.board].move)
  {
    var keys := Keys(board.Moves(Mover(maximising)));
    var order := OrderMoves(keys, p.first);
    OrderMovesAreTheMoves(keys, p.first);
    var score, action := SearchMoves(board, order, maximising, p.alpha, p.beta, lookahead, searched, h);
    if action.None? {
      r := Raised(UnboundAction);
      return;
    }
    searched.entries := searched.entries[board.board := Entry(score, Classify(score, p.alpha, p.beta), lookahead, action.value)];
    r := if initial then Paired(score, action.value) else Bare(score);
  }

  /** The move loop of minimax: each move of `order` is placed on a copy of the
      board and searched one level shallower for the other side's flag, keeping the
      best score and the first move reaching it, with alpha raised (maximising) or
      beta lowered (minimising) by the best score, until the window closes. */
  method SearchMoves(board: Othello, order: seq<Pos>, maximising: bool, alpha: int, beta: int,
                     lookahead: int, searched: SearchTable, h: Heuristic) returns (score: int, action: Option<Pos>)
    requires board.Valid() && ScoresBounded(searched.entries) && IsHeuristic(h) && lookahead > 0
    requires forall m :: m in order ==> m in Keys(board.Moves(Mover(maximising)))
    modifies searched
    decreases lookahead, 1
    ensures ScoresBounded(searched.entries)
    ensures action.None? <==> order == []
    ensures action.None? ==> searched.entries == old(searched.entries)
    ensures action.Some? ==> IsScore(score) && action.value in order
  {
    var mover := Mover(maximising);
    score := if maximising then -INF else INF;
    var a, b := alpha, beta;
    action := None;
    var i := 0;
    while i < |order|
      invariant 0 <= i <= |order|
      invariant ScoresBounded(searched.entries)
      invariant action.None? ==> i == 0 && score == (if maximising then -INF else INF)
      invariant action.None? ==> searched.entries == old(searched.entries)
      invariant action.Some? ==> IsScore(score) && action.value in order
    {
      assert order[i] in order;
      var evaluation := SearchChild(board, order[i], maximising, a, b, lookahead, searched, h);
      if maximising {
        if score < evaluation {
          action := Some(order[i]);
        }
        score := Max(score, evaluation);
        a := Max(a, score);
        if a >= b {
          break;
        }
      } else {
        if score > evaluation {
          action := Some(order[i]);
        }
        score := Min(score, evaluation);
        b := Min(b, score);
        if b <= a {
          break;
        }
      }
      i := i + 1;
    }
  }

  /** One move of that loop: the move is placed on a copy of the board and the
      copy is searched one level shallower, for the side the turn order gives it. */
  method SearchChild(board: Othello, m: Pos, maximising: bool, alpha: int, beta: int,
                     lookahead: int, searched: SearchTable, h: Heuristic) returns (evaluation: int)
    requires board.Valid() && ScoresBounded(searched.entries) && IsHeuristic(h) && lookahead > 0
    requires m in Keys(board.Moves(Mover(maximising)))
    modifies searched
    decreases lookahead, 0
    ensures ScoresBounded(searched.entries)
    ensures IsScore(evaluation)
  {
    var mover := Mover(maximising);
    var child := new Othello.Copy(board);
    var _ := child.Place(m, mover);
    var childMaximising := ChildMaximising(mover, child.possibleW, child.possibleB);
    ChildIsReady(mover, child);
    var r := Minimax(child, alpha, beta, childMaximising, false, lookahead - 1, searched, h);
    evaluation := r.score;
  }

  // ---------------------------------------------------------------------------
  // MTDF and iterative_deepening
  // ---------------------------------------------------------------------------

  /** A bound of MTDF: a score, or the infinity it starts from. */
  predicate IsBound(v: int)
  {
    v == -INF || v == INF || IsScore(v)
  }

  /** The beta of MTDF's next probe: one above the guess when the guess is the lower
      bound, else the guess itself. */
  function NullWindow(guess: int, lower: int): int
  {
    if guess == lower then guess + 1 else guess
  }

  /** The bounds after a probe with window [beta - 1, beta] returned g: a score
      below beta is a new upper bound, any other a new lower bound. */
  function Narrow(lower: int, upper: int, beta: int, g: int): (int, int)
  {
    if g < beta then (lower, g) else (g, upper)
  }

  /** Each round of MTDF moves one bound strictly inwards onto the probe's score,
      so the lower bound never decreases, the upper bound never increases and the
      gap between them shrinks. */
  lemma MtdfNarrows(lower: int, upper: int, guess: int, g: int)
    requires lower < upper && IsBound(lower) && IsBound(upper) && IsScore(g)
    requires guess == lower || guess == upper || (lower == -INF && upper == INF)
    ensures var (l, u) := Narrow(lower, upper, NullWindow(guess, lower), g);
      && lower <= l && u <= upper && u - l < upper - lower
      && (l == g || u == g) && IsBound(l) && IsBound(u)
  {
  }

  /** MTDF: null-window probes around the guess until the bounds meet. A root that
      gives back a bare score cannot be unpacked into (guess, move). */
  method MTDF(board: Othello, firstGuess: int, lookahead: int, searched: SearchTable, h: Heuristic)
    returns (r: Outcome, ghost lower: int, ghost upper: int)
    requires board.Valid() && ScoresBounded(searched.entries) && IsHeuristic(h)
    modifies searched
    ensures ScoresBounded(searched.entries)
    ensures !r.Bare?
    ensures lookahead > 0 && HasMoves(W, board.possibleW, board.possibleB) ==> r.Paired?
    ensures r.Paired? ==> IsScore(r.score) && upper <= lower && (r.score == lower || r.score == upper)
  {
    var guess, lowerBound, upperBound := firstGuess, -INF, INF;
    r := Raised(UnboundAction);
    while lowerBound < upperBound
      invariant IsBound(lowerBound) && IsBound(upperBound) && ScoresBounded(searched.entries)
      invariant r.Paired? || (r == Raised(UnboundAction) && lowerBound == -INF && upperBound == INF)
      invariant r.Paired? ==> IsScore(r.score) && r.score == guess && (guess == lowerBound || guess == upperBound)
      decreases upperBound - lowerBound
    {
      var beta := NullWindow(guess, lowerBound);
      var result := Minimax(board, beta - 1, beta, true, true, lookahead, searched, h);
      if !result.Paired? {
        r := Raised(if result.Raised? then result.failure else NotAPair);
        lower, upper := lowerBound, upperBound;
        return;
      }
      MtdfNarrows(lowerBound, upperBound, guess, result.score);
      guess := result.score;
      r := result;
      var bounds := Narrow(lowerBound, upperBound, beta, guess);
      lowerBound, upperBound := bounds.0, bounds.1;
    }
    lower, upper := lowerBound, upperBound;
  }

  /** iterative_deepening: MTDF at depths 1 to difficulty - 1, each seeded with the
      last score found at a depth of the same parity, stopping early once the search
      time is over. The clock is the parameter timeUp: whether the time is over
      when depth d is done. With no depth to search, `move` is never bound. */
  method IterativeDeepening(board: Othello, difficulty: int, searched: SearchTable, h: Heuristic,
                            timeUp: int -> bool) returns (r: Outcome)
    requires board.Valid() && ScoresBounded(searched.entries) && IsHeuristic(h)
    modifies searched
    ensures ScoresBounded(searched.entries)
    ensures !r.Bare? && (r.Paired? ==> IsScore(r.score))
    ensures difficulty <= 1 ==> r == Raised(UnboundAction)
    ensures difficulty >= 2 && HasMoves(W, board.possibleW, board.possibleB) ==> r.Paired?
  {
    var evenGuess, oddGuess := 0, 0;
    r := Raised(UnboundAction);
    var depth := 1;
    while depth < difficulty
      invariant 1 <= depth && (depth == 1 || depth <= difficulty) && ScoresBounded(searched.entries)
      invariant !r.Bare? && (r.Paired? ==> IsScore(r.score))
      invariant depth == 1 ==> r == Raised(UnboundAction)
      invariant depth > 1 && HasMoves(W, board.possibleW, board.possibleB) ==> r.Paired?
      decreases difficulty - depth
    {
      var result, _, _ := MTDF(board, if depth % 2 == 0 then evenGuess else oddGuess, depth, searched, h);
      if !result.Paired? {
        r := result;
        return;
      }
      if depth % 2 == 0 {
        evenGuess := result.score;
      } else {
        oddGuess := result.score;
      }
      r := result;
      if timeUp(depth) {
        break;
      }
      depth := depth + 1;
    }
  }

  // ---------------------------------------------------------------------------
  // The AI player
  // ---------------------------------------------------------------------------

  /** What ai_play hands back: the move it chose, or the exception it raised. */
  datatype Choice = Chosen(move: Pos) | Failed(failure: Failure)

  /** AI: the game the AI plays White in, its Zobrist table (drawn by getrandbits in
      the source, a parameter here), its search_dict kept between moves, and the
      maximum depth of its difficulty tier (None for Easy). */
  class AIPlayer {
    const game: Othello
    const table: ZobristTable
    const search: SearchTable
    const maxDepth: Option<nat>

    ghost predicate Valid()
      reads this, game, search
    {
      game.Valid() && game.table.None? && ScoresBounded(search.entries)
    }

    /** AI.__init__: a new game, an empty search_dict and the tier's configuration. */
    constructor (t: ZobristTable, config: AIConfig)
      ensures Valid() && fresh(game) && fresh(search) && game.board == StartBoard()
      ensures table == t && maxDepth == config.maxDepth && search.entries == map[]
    {
      game := new Othello();
      table := t;
      search := new SearchTable();
      maxDepth := config.maxDepth;
    }

    /** ai_play: on Easy a single minimax search of depth one over a fresh table;
        otherwise iterative deepening over search_dict, which is then aged. */
    method AiPlay(h: Heuristic, timeUp: int -> bool) returns (choice: Choice)
      requires Valid() && IsHeuristic(h)
      modifies search
      ensures Valid()
      ensures HasMoves(W, game.possibleW, game.possibleB) && (maxDepth.None? || maxDepth.value >= 2) ==> choice.Chosen?
      ensures maxDepth.None? ==> search.entries == old(search.entries)
      ensures maxDepth.None? && choice.Chosen? ==> IsMove(game.board, W, choice.move)
      ensures maxDepth.Some? ==> forall k :: k in search.entries ==> search.entries[k].depth >= 1
    {
      var hashed := GetHashVersion(game, table);
      var result: Outcome;
      if maxDepth.None? {
        var scratch := new SearchTable();
        result := Minimax(hashed, -INF, INF, true, true, 1, scratch, h);
        if result.Paired? {
          PossibleMovesExact(game.board, W, result.move);
        }
      } else {
        result := IterativeDeepening(hashed, maxDepth.value, search, h, timeUp);
        AgedProbe(search.entries, game.board, 0, 0, 1);
        search.entries := AgeTable(search.entries);
      }
      choice := match result
        case Paired(_, move) => Chosen(move)
        case Bare(_) => Failed(NotAPair)
        case Raised(failure) => Failed(failure);
    }
  }
}
