/** The constant tables of the game (Constants.py): cell states, the start position,
    the colour swap, the eight line directions, the Zobrist index of each state,
    the difficulty tiers, the corner edge lines and the tutorial's first move set. */
module Constants {

  datatype Option<T> = None | Some(value: T)

  /** A cell of the board: a white disc, a black disc, or empty ("W", "B", "E"). */
  datatype Cell = W | B | E

  const BOARD_SIZE: int := 8

  /** A coordinate pair (x, y) or a step (step_x, step_y). */
  type Pos = (int, int)

  /** FLIP_RULE: swaps the two colours and keeps an empty cell empty. */
  function FlipRule(c: Cell): Cell
  {
    match c
    case W => B
    case B => W
    case E => E
  }

  /** FLIP_LINES, in the order in which the engine walks them. */
  const FLIP_LINES: seq<Pos> := [(-1, -1), (-1, 1), (1, -1), (1, 1), (1, 0), (-1, 0), (0, 1), (0, -1)]

  /** START_POS, keyed by (x, y). The source writes the keys as float halves of
      BOARD_SIZE; Python's float/int key equality makes them the integers below. */
  const START_POS: map<Pos, Cell> := map[(4, 4) := W, (3, 3) := W, (3, 4) := B, (4, 3) := B]

  /** XOR_INDICES: which of the three random values of a cell stands for its state. */
  function XorIndex(c: Cell): nat
  {
    match c
    case W => 1
    case B => 2
    case E => 0
  }

  /** A difficulty tier: (maximum depth, seconds); `None` stands for Python's None. */
  datatype AIConfig = AIConfig(maxDepth: Option<nat>, seconds: Option<nat>)

  const DIFFICULTY_TO_AI_CONFIG: map<string, AIConfig> :=
    map["Easy" := AIConfig(None, None), "Normal" := AIConfig(Some(5), Some(3)),
        "Hard" := AIConfig(Some(20), Some(3)), "Insane" := AIConfig(Some(24), Some(10))]

  /** SAFE_LINES, in (y, x, (step_y, step_x)) order as in the source. */
  const SAFE_LINES: seq<(int, int, Pos)> :=
    [(0, 0, (0, 1)), (0, 0, (1, 0)),
     (0, BOARD_SIZE - 1, (0, -1)), (0, BOARD_SIZE - 1, (1, 0)),
     (BOARD_SIZE - 1, 0, (0, 1)), (BOARD_SIZE - 1, 0, (0, 1)),
     (BOARD_SIZE - 1, BOARD_SIZE - 1, (0, -1)), (BOARD_SIZE - 1, BOARD_SIZE - 1, (-1, 0))]

  /** HELP_POSSIBLE1: the moves the tutorial shows for Black at the start, as (x, y). */
  const HELP_POSSIBLE1: seq<Pos> := [(3, 2), (2, 3), (5, 4), (4, 5)]

  /** TCP_DATA_TYPE: the first byte of a message over the TCP link names its kind. */
  const TCP_OPPONENT_COLOUR: int := 0
  const TCP_MOVE: int := 1
  const TCP_INITIAL_MOVES: int := 2

  predicate IsDirection(d: Pos)
  {
    -1 <= d.0 <= 1 && -1 <= d.1 <= 1 && d != (0, 0)
  }

  predicate IsCorner(y: int, x: int)
  {
    (y == 0 || y == BOARD_SIZE - 1) && (x == 0 || x == BOARD_SIZE - 1)
  }

  lemma FlipRuleInvolution(c: Cell)
    ensures FlipRule(FlipRule(c)) == c
    ensures FlipRule(c) == c <==> c == E
  {
  }

  /** FLIP_LINES holds each of the eight unit directions exactly once. */
  lemma FlipLinesAreTheEightDirections()
    ensures |FLIP_LINES| == 8
    ensures forall i, j :: 0 <= i < j < |FLIP_LINES| ==> FLIP_LINES[i] != FLIP_LINES[j]
    ensures forall i :: 0 <= i < |FLIP_LINES| ==> IsDirection(FLIP_LINES[i])
    ensures forall d: Pos :: IsDirection(d) ==> d in FLIP_LINES
  {
    forall d: Pos | IsDirection(d) ensures d in FLIP_LINES {
      assert d.0 == -1 || d.0 == 0 || d.0 == 1;
      assert d.1 == -1 || d.1 == 0 || d.1 == 1;
    }
  }

  lemma StartPosHoldsTheFourCentreDiscs()
    ensures START_POS.Keys == {(3, 3), (4, 4), (3, 4), (4, 3)}
    ensures START_POS[(3, 3)] == W && START_POS[(4, 4)] == W
    ensures START_POS[(3, 4)] == B && START_POS[(4, 3)] == B
  {
  }

  /** The three states take the three random values of a cell, one each. */
  lemma XorIndicesAreABijection()
    ensures forall c, c' :: XorIndex(c) == XorIndex(c') ==> c == c'
    ensures {XorIndex(E), XorIndex(W), XorIndex(B)} == {0, 1, 2}
  {
  }

  /** "Easy" alone has no depth, which selects the single minimax pass;
      every other tier has both a depth and a time budget. */
  lemma DifficultyTiers()
    ensures DIFFICULTY_TO_AI_CONFIG.Keys == {"Easy", "Normal", "Hard", "Insane"}
    ensures DIFFICULTY_TO_AI_CONFIG["Easy"] == AIConfig(None, None)
    ensures forall t :: t in DIFFICULTY_TO_AI_CONFIG && t != "Easy" ==>
              DIFFICULTY_TO_AI_CONFIG[t].maxDepth.Some? && DIFFICULTY_TO_AI_CONFIG[t].seconds.Some?
  {
  }

  /** Every entry of SAFE_LINES starts on a corner and its step runs along one of
      the two board edges through that corner, into the board. */
  lemma SafeLinesRunAlongEdges()
    ensures forall i :: 0 <= i < |SAFE_LINES| ==>
      var (y, x, (dy, dx)) := SAFE_LINES[i];
      && IsCorner(y, x)
      && (dy == 0 || dx == 0) && dy * dy + dx * dx == 1
      && 0 <= y + dy < BOARD_SIZE && 0 <= x + dx < BOARD_SIZE
  {
  }
}
