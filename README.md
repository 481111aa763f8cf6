# Othello engine: a Dafny model

This project models the game engine of a desktop Othello program. It also models
the constant tables the engine reads and the length-prefixed framing of its TCP link.

- **Constants** (`constants.dfy`): the cell states and the start position.
  - `FLIP_RULE`, `FLIP_LINES`, `XOR_INDICES`, the difficulty tiers, `SAFE_LINES` and the tutorial's `HELP_POSSIBLE1`.
- **Rules** (`rules.dfy`): the rules of the board as functions of a board value.
  - The flip-line scan of `line_iterator`, `check_flip_line` and `adjacent`.
  - The move table `possible_moves` that `board_change` rebuilds.
  - The board `place` leaves behind, and the piece counts.
  - Facts about the start position.
- **Engine** (`engine.dfy`): class `Othello`, whose methods change the board, the move tables and the running hash step by step, as the source does.
  - It also stands for `HashedLocalVersus`: a Zobrist table being present selects the hashed `place` and `flip`.
  - Each method is proved against the functions of `Rules`.
- **Turns** (`turns.dfy`): the turn controller `end_game_iterator`. One resumption of the generator is one step function.
- **Zobrist** (`zobrist.dfy`): Python's `^` on non-negative integers, and the hash of a board.
  - Also the update that `place` and `flip` make to the hash.
- **Search** (`search.dfy`):
  - `get_hash_version`, `check_if_terminal` and `terminal_utility`;
  - the transposition table: lookup, classification and aging;
  - alpha-beta `minimax` with its move ordering, `MTDF`, `iterative_deepening` and `ai_play`.
- **Replay** (`replay.dfy`): the save-file line format and the replay loops that resume a game from a save file.
  - Also the `SavedGamesLoader` viewer, which replays a whole file and steps back and forth through it.
- **Framing** (`framing.dfy`):
  - `send_data`'s frame and `receive_data`'s reassembly of frames from chunks;
  - `int_to_bytes`, and the Move message.
- **Helpers:** `strings.dfy` models `str()`, `int()` and `split(",")` on the save-file text; `seqs.dfy` holds sequence lemmas.

Modelling choices:
- The board is a sequence of rows indexed `board[y][x]`, as in the source.
  - The float keys of `START_POS` compare equal to integer pairs in Python, so the model keys it by integers.
- `possible_moves[c]` is a sequence of (cell, directions) entries in the dictionary's insertion order: column by column, top to bottom.
  - That order is the order `minimax` tries moves in.
- `deepcopy` is a value copy.
- The transposition table is a map keyed by board: `HashedBoard` hashes by `hash_num` but compares by board.
- Scores are integers. `float('inf')` is the sentinel `INF`, which lies beyond every score.
- Things the model takes as parameters:
  - the heuristic, which computes in floating point: any integer evaluation within [-485, 485].
    - `HeuristicValue` evaluates the source's formula in exact arithmetic from the board. The numbers of moves of each colour and the sizes of `white_unstable` and `black_unstable` are inputs to it, not computed.
    - `HeuristicWithinLimit` proves that the value stays within that range for every board and every such input.
    - The range is wider than the 85 that `terminal_utility` adds to a win, so a heuristic leaf can outrank every won end position (`HeuristicOutranksEveryWin`).
  - the turn controller a replay runs: `AsWritten` is the program's `end_game_iterator`, and `Corrected` is the one with the pass branch fixed (see Findings).
  - the Zobrist table, drawn by `getrandbits`;
  - the clock of `iterative_deepening`.
- Exceptions are values:
  - `BoardError` and the `ValueError`/`IndexError` of parsing a line are a `LoadError`;
  - the `UnboundLocalError` and unpacking `TypeError` of the search are a `Failure`.

## Model

| member | source | states |
|---|---|---|
| Constants.FlipRuleInvolution | Constants.py:43 | FLIP_RULE applied twice is the identity, and it fixes exactly the empty state |
| Constants.FlipLinesAreTheEightDirections | Constants.py:44 | FLIP_LINES has 8 pairwise distinct entries, each a non-zero step in {-1,0,1}², and every such step is among them |
| Constants.StartPosHoldsTheFourCentreDiscs | Constants.py:41-42 | START_POS, read as (x, y), holds W at (3,3) and (4,4) and B at (3,4) and (4,3), and nothing else |
| Constants.XorIndicesAreABijection | Constants.py:47 | XOR_INDICES maps E, W, B injectively onto {0, 1, 2} |
| Constants.DifficultyTiers | Constants.py:49 | the four tiers; Easy is (None, None), which selects the single minimax pass; every other tier has a depth and a time |
| Constants.SafeLinesRunAlongEdges | Constants.py:52-55 | every SAFE_LINES entry starts at a corner and takes one orthogonal step that stays on the board |
| Rules.Write | Othello.py:55 | writing a cell sets that cell and leaves every other cell unchanged |
| Rules.ScanFrom | Othello.py:57-80 | the line scan closes at step k exactly when every cell before k along the direction is the opponent's and cell k is the mover's |
| Rules.ScanIsBrackets | Othello.py:57-80 | a direction closes at k exactly when the opponent's run from step 1 is bracketed at step k by the mover's disc |
| Rules.ScanReadsOnlyTheRay | Othello.py:57-80 | the scan depends only on the cells along its own ray |
| Rules.LineIteratorOne | Othello.py:57-80 | line_iterator over one direction yields the cells strictly between the origin and the closing disc, or nothing |
| Rules.CheckFlipLineIsScan | Othello.py:82-88 | check_flip_line returns the direction exactly when the direction closes, else None |
| Rules.AdjacentDirsAreLegalDirs | Othello.py:104-142 | checking only the occupied neighbours that adjacent yields finds the same directions as checking all eight |
| Rules.NeighbourDecides | Othello.py:131-142 | a direction whose first cell is empty or off the board never closes |
| Rules.LegalDirsMembers | Othello.py:104-142 | a direction is recorded for a cell exactly when it is in FLIP_LINES and closes; no direction is recorded twice |
| Rules.PossibleMovesExact | Othello.py:104-129 | the move table has an entry at q exactly when q is a legal move, that entry is q's closing directions, and no key repeats |
| Rules.RecordedDirectionsAreFlipLines | Othello.py:57-142 | d is recorded for c at q exactly when q is an empty cell on the board, d is in FLIP_LINES, and some opponent run from q along d is bracketed by c |
| Rules.PlacedChangesOnlyCapturedCells | Othello.py:90-102 | after place, the placed cell holds the mover; every captured cell held the opponent and now holds the mover; every other cell is unchanged |
| Rules.CapturedIsBetween | Othello.py:57-80 | the cell i steps along d is captured exactly when d closes at some k and i < k |
| Rules.PlacedIsWriteThenFlip | Othello.py:96-102 | placing is writing the mover's disc, then flipping along the directions recorded for the board before the move |
| Rules.StartBoardIsStart | Othello.py:47-50 | the board of Othello.__init__ holds START_POS and is empty elsewhere |
| Rules.BlackOpeningMoves | Constants.py:90 | on the start position Black's legal moves are exactly HELP_POSSIBLE1, each with a single flip-line one disc long |
| Rules.HelpPossibleIsBlacksTable | Constants.py:90 | on the start position the keys of Black's move table are exactly HELP_POSSIBLE1 |
| Rules.OpeningMoveFlipsOneDisc | Constants.py:90 | each opening move of HELP_POSSIBLE1 changes exactly one other cell, a white disc that turns black |
| Rules.StartBoardCounts | Constants.py:41-42 | the start position has 2 white discs, 2 black discs and 60 empty cells |
| Rules.CountsSumTo64 | Othello.py:176-183 | on every board the W, B and E counts sum to 64 |
| Engine.LegalDirsAreDistinct | Othello.py:104-129 | the directions recorded for a cell are distinct directions |
| Engine.Othello.constructor | Othello.py:47-50 | the start position, with move tables current and no Zobrist table |
| Engine.Othello.Hashed | Othello.py:198-202 | HashedLocalVersus.__init__ stores the board, the hash, the move tables and the table |
| Engine.Othello.Copy | Othello.py:204-206 | __deepcopy__ gives an equal board and hash and shares the move tables and the table |
| Engine.Othello.Flip | Othello.py:220-228 | the cell changes colour by FLIP_RULE, nothing else on the board changes, and the hashed variant's running hash stays the Zobrist hash of the board |
| Engine.Othello.FlipLine | Othello.py:90-94 | flips exactly the cells captured along the recorded directions, keeping the hash current |
| Engine.Othello.FlipRay | Othello.py:90-94 | one direction of flip_line flips exactly that direction's captured cells |
| Engine.Othello.FlipCells | Othello.py:77-80 | flipping the cells line_iterator yields for a direction advances the board cell by cell |
| Engine.Othello.Place | Othello.py:208-218 | a legal move leaves the board as Rules.Placed, with the move tables and, when hashed, the hash current |
| Engine.Othello.BoardChange | Othello.py:104-129 | board_change makes the move tables those of the board and changes nothing else |
| Engine.Othello.RecordColumn | Othello.py:110-129 | the inner loop over one column records the entries of that column, in order |
| Engine.Othello.RecordCell | Othello.py:113-129 | one cell's entry for each colour: its closing directions when it is a legal move, else none |
| Engine.Othello.AdjacentFlipLines | Othello.py:115-142 | the loop over adjacent finds exactly the closing directions of each colour, in FLIP_LINES order |
| Engine.Othello.CheckNeighbour | Othello.py:115-129 | one occupied neighbour adds its direction to the other colour's list exactly when that direction closes |
| Engine.Othello.CountPieces | Othello.py:176-183 | the W, B and E counts of the board, summing to 64 |
| Engine.CanBePlacedMeansLegal | Othello.py:144-158 | can_be_placed accepts exactly the positions whose coordinates convert with int() and name a legal move, and returns them converted |
| Turns.EndGameStepAsWritten | Othello.py:160-174 | as written: yields only a colour with a move, the opponent only when the colour asked has none, and stops exactly when neither can move |
| Turns.EndGameStep | Othello.py:160-174 | the same rules with the pass branch corrected, and afterwards the opponent of the player is asked first |
| Turns.NextTurn | Othello.py:160-174 | either controller keeps the turn rules, and after a colour moves in its own turn the opponent is asked first |
| Turns.EndGameStepAsWrittenRepeatsAfterPass | Othello.py:167-172 | after Black passes, the iterator as written lets White move twice even when Black can move again; the corrected step hands the turn back |
| Turns.HasMovesMeansLegalMove | Othello.py:165-169 | a colour's move table is non-empty exactly when it has a legal move |
| Zobrist.CellOfRowMajor | Othello.py:411 | the table index y * 8 + x of a cell is in range and names that cell |
| Zobrist.HashAfterWrite | Othello.py:220-228 | after one cell changes, the incremental update (XOR out the old state's value, XOR in the new) gives the from-scratch hash |
| Search.GetHashVersion | Othello.py:408-413 | the hash computed cell by cell in row-major order is the Zobrist hash, and the new HashedLocalVersus is valid |
| Search.MoveNeedsBothColours | Othello.py:455-460 | a legal move needs a disc of each colour on the board |
| Search.TerminalExactlyWhenNoMoves | Othello.py:452-464 | with current move tables, check_if_terminal holds exactly when neither colour has a move |
| Search.TerminalUtility | Othello.py:467-476 | 0 exactly on a tie; positive exactly when White leads; magnitude above 85 otherwise; a score when the discs number at most 64 |
| Search.StableCount | Othello.py:513-547 | white_stable and black_stable hold at most one square per SAFE_LINES entry, as dumb_line_iterator yields nothing |
| Search.BalanceOfCountsWithin | Othello.py:481-500 | the disc, mobility and corner terms, each (a - b) / (a + b) of two counts, lie within [-1, 1] |
| Search.StabilityBalanceWithin | Othello.py:530-536 | the stability term lies within [-17, 17], since each stability is at most 8 but can be negative; 17 is reached |
| Search.HeuristicWithinLimit | Othello.py:479-540 | heuristic_utility lies within [-485, 485] |
| Search.StableCountIsTwiceCornerCount | Othello.py:513-547 | each stable count is twice the number of corners of that colour, as SAFE_LINES holds two entries per corner |
| Search.MoveCapturesAnOpponentDisc | Othello.py:503-510 | every legal move captures a disc of the other colour, so a colour with a move leaves the other colour's unstable set non-empty |
| Search.HeuristicOutranksEveryWin | Othello.py:473-540 | White on two opposite corners and Black on none, with discs and moves even and one White and two Black discs unstable, give the heuristic 155, above the utility of every White win |
| Search.TerminalUtilityIsZeroSum | Othello.py:467-476 | exchanging the counts negates the utility; a White lead gives 85 plus the margin |
| Search.ProbeTable | Othello.py:552-569 | an entry is used only when stored at least as deep; an exact score or a closed window returns the stored score and move; otherwise the window narrows and the stored move is tried first |
| Search.BoundHitsLieOutsideTheWindow | Othello.py:559-566 | a bound cuts the search only when it puts the score outside the window |
| Search.Classify | Othello.py:608-613 | the kind stored: lower bound iff score >= beta, exact iff alpha < score < beta, upper bound iff score <= alpha and score < beta |
| Search.ProbeAfterStore | Othello.py:552-613 | a stored result is found again by the same search, with its score and move |
| Search.AgeTable | Othello.py:405 | aging keeps exactly the entries of depth 3 or more, two levels shallower |
| Search.AgedProbe | Othello.py:405 | after aging, a lookup at depth d answers as a lookup at d + 2 did before |
| Search.OrderMovesIsStoredFirst | Othello.py:579 | the move order is a permutation of the moves, starts with the stored move when that is one of them, and keeps the other moves in order |
| Search.ChildFollowsTurnOrder | Othello.py:583-600 | the side minimax searches after a move is the colour the corrected turn controller yields |
| Search.Minimax | Othello.py:550-618 | by node kind: a table hit returns the stored value; a terminal node returns terminal_utility; depth 0 returns the heuristic; otherwise the result is stored with Classify's kind, the lookahead and a legal move; scores stay bounded; the root gives (score, move) |
| Search.Expand | Othello.py:576-618 | a node whose side to move has no move raises; otherwise the best score is stored with its kind, depth and a legal move |
| Search.SearchMoves | Othello.py:576-606 | the move loop binds a move exactly when it has a move to try, and the score is bounded |
| Search.SearchChild | Othello.py:581-600 | the child search on a copy gives a bounded score |
| Search.MtdfNarrows | Othello.py:416-430 | each round moves one bound inwards onto the probe's score: the lower bound never falls, the upper never rises, and the gap shrinks |
| Search.MTDF | Othello.py:416-430 | the loop ends with the bounds met at the score returned; a bare score from the root cannot be unpacked |
| Search.IterativeDeepening | Othello.py:433-449 | MTDF at depths 1 to difficulty - 1; with no depth to search, move is never bound; otherwise a move is found when White can move |
| Search.AIPlayer.constructor | Othello.py:360-365 | a new game, an empty search_dict and the tier's depth |
| Search.AIPlayer.AiPlay | Othello.py:395-406 | Easy picks a legal move for White with a fresh table; the other tiers search and then age search_dict |
| Replay.GetPosFromFileReadsSaveLine | Othello.py:633-637 | the line save writes for a move parses back to that move |
| Replay.GetPosFromFileNeedsAComma | Othello.py:636-637 | a line with no comma raises ValueError when it is not a number, and IndexError otherwise |
| Replay.ParseLines | Othello.py:633-637 | one parse result per line |
| Replay.ReplayParsedKeepsColoured | Othello.py:759-769 | every recorded position carries a colour |
| Replay.ResumeAtFirstLine | Othello.py:645-653 | resuming at line 0 stops before any move with Black to play; the code as written hands the turn to White |
| Replay.StopsAtLine | Othello.py:645-647 | the loop stops at the requested line once the controller has yielded its colour |
| Replay.SaveLinesLineByLine | Othello.py:239-252 | the i-th saved line is the line of the i-th move |
| Replay.SavedLinesParseAsMoves | Othello.py:633-637 | the saved lines parse back to the moves played |
| Replay.ReplayOfSavedGame | Othello.py:639-653 | under either turn controller, the program's included, replaying the saved lines of a game played move by move with that controller reaches the same board and colour, saves the same lines again, and raises nothing |
| Replay.RunReplay | Othello.py:645-652 | the replay loop on the object, asking the replay's turn controller, leaves the board and colour as ReplayLines defines them |
| Replay.ReplayTurn | Othello.py:645-652 | one round of the loop: stop, raise or place, matching ReplayLines |
| Replay.LocalGame.constructor | Othello.py:258-263 | the start position with Black to play and nothing saved |
| Replay.LocalGame.Save | Othello.py:239-252 | one line "x,y\n" is appended to the save file |
| Replay.LocalGame.Load | Othello.py:639-653 | for the given turn controller (the program's is AsWritten), the board, the saved lines and the error are those of the replay; the colour to resume with is corrected (see Findings) |
| Replay.SavedGames.constructor | Othello.py:739-747 | seek_amount = max(seek, 0), no commands, max_line 1, no states, colour W, start board |
| Replay.SavedGames.Load | Othello.py:749-770 | for the given turn controller: reads the commands when there are none; the board, colour and error come from the replay; every position passed is recorded, and the final position too when nothing was raised; on success the cursor moves to the end |
| Replay.SavedGames.UpdateBoardState | Othello.py:797-802 | sets the board and the colour and makes the move tables current |
| Replay.SavedGames.LineLoadForwards | Othello.py:772-780 | raises at the end, else advances the cursor by one and shows the recorded position there |
| Replay.SavedGames.LineLoadBackwards | Othello.py:782-790 | raises at the start, else moves the cursor back by one and shows the recorded position there |
| Strings.ParseIntToString | Othello.py:637 | int(str(n) + trailing whitespace) == n |
| Framing.ToBytes | Networking.py:178 | to_bytes(n, "big") has n bytes and from_bytes recovers the value |
| Framing.IntToBytes | Networking.py:207-210 | int_to_bytes(x) has (bit_length + 7) // 8 bytes, no leading zero byte, is empty only for 0, and from_bytes recovers x |
| Framing.Frame | Networking.py:175-179 | a frame exists exactly when the length fits two bytes; it holds a big-endian length equal to len(payload) + 2, then the payload |
| Framing.SplitAsWritten | Networking.py:189-203 | receive_data as written: nothing is carried over when the buffer starts empty |
| Framing.ReceiveAsWritten | Networking.py:185-187 | an empty chunk yields one empty payload and leaves the buffer alone |
| Framing.Receive | Networking.py:182-204 | the corrected generator: an empty chunk yields one empty payload; the carry never holds a whole frame |
| Framing.TCP.ReceiveData | Networking.py:182-204 | the loop yields the payloads and leaves the buffer that Receive defines; the empty chunk is yielded with the buffer untouched, and the buffer is empty at every payload cut from a chunk |
| Framing.SplitFrames | Networking.py:189-203 | back-to-back frames followed by any bytes yield their payloads in order first |
| Framing.ReceiveFrames | Networking.py:182-204 | one chunk of whole frames yields their payloads in order and leaves an empty buffer, both as written and corrected |
| Framing.TrailingPartialFrame | Networking.py:194-197 | a trailing partial frame is not yielded; as written it is dropped, corrected it is kept in the buffer |
| Framing.ChunkedRoundTrip | Networking.py:182-204 | the corrected generator yields exactly the payloads sent, however the stream is cut into chunks |
| Framing.AsWrittenLosesASplitFrame | Networking.py:195-196 | as written, the frame [0,5,1,2,3] arriving as [0,5,1] then [2,3] is never yielded |
| Framing.CorrectedKeepsASplitFrame | Networking.py:195-196 | corrected, the same split frame is yielded once its end arrives |
| Framing.EncodeMove | Networking.py:164-166 | a move encodes exactly when both coordinates fit a byte, as the type byte 0x01 and two bytes |
| Framing.MoveTwoThreeFrame | Networking.py:164-179 | the move (2, 3) is the payload [1, 2, 3] and travels as the frame [0, 5, 1, 2, 3], the frame the split-frame lemmas cut |
| Framing.Dispatch | Networking.py:131-142 | an empty payload is the close signal; a payload starting with 0x01 is the move (data[1], data[2]) |
| Framing.MoveOverTheLink | Networking.py:164-166 | a move sent in one frame arrives as one payload that dispatches to the same move, as written and corrected |

## Left out

- User interface, queues, sockets, UDP discovery, `sleep`, `print`, file creation and deletion: I/O.
  - Save files are sequences of lines.
  - `get_pos`, `print_board`, `evaluate_winner`, `NetworkVersus`, `Text`, `delete_file` and `load_othello` are channel or screen I/O.
- `heuristic_utility`: it computes in floating point. The search takes it as an integer-valued parameter bounded by 485, the bound `HeuristicWithinLimit` proves for the exact formula. Its fractional values are not modelled, nor the `ZeroDivisionError` its unguarded mobility term would raise on a board where neither colour can move (the search never asks for the heuristic there).
- `getrandbits`: the Zobrist table is a parameter.
- The clock of `iterative_deepening` is a parameter `timeUp`.
- Network messages other than Move: `Opponent_Colour` and `Initial_Moves` go to queues only.
- `int()` on non-ASCII digits. Only ASCII digits, signs, underscores and ASCII whitespace are modelled.
- Framing.SplitAsWritten, Framing.Split: a zero length field makes the source yield empty payloads for ever. The model yields one and stops.
- Replay.LocalGame.Load: resumes with `ResumeColour`, not the source's `FLIP_RULE[playing_colour]`. They differ in three cases: a stop at line_count; an empty save file, where the source resumes with White and the model with Black; and, under the as-written controller, a last replayed turn that was a pass turn, where the source resumes with Black and the model with the controller's next colour, White.
- Replay.SavedGames.Load: `if not self.commands` is modelled with the empty sequence standing for None. An empty file is read again on every call, as in the source.
- Search.Minimax: states what is stored and returned at each kind of node, and that scores stay bounded. It does not state that the score is the alpha-beta value of the game tree, or that the stored move is the first to reach the best score.
- Search.SearchMoves: does not state which move is kept, only that it is one of the moves tried.
- Search.MTDF: does not state that the score is the minimax value at that depth.
- Search.IterativeDeepening: does not state which depth's result is returned, only that it is a (score, move) pair once a depth has been searched.
- Search.AIPlayer.AiPlay: for the searched tiers, states only that the aged table holds entries of depth 1 or more.
- SAFE_LINES lists (7, 0, (0, 1)) twice; the second was evidently meant to be (7, 0, (-1, 0)). Only the heuristic's stable counts read it, and they only count corners, so both lists give the same counts; no corrected table is modelled.

## Findings

| source | as written | input that shows it | evidently intended | confidence | as-written member | corrected member |
|---|---|---|---|---|---|---|
| Othello.py:170-172 | after a forced pass the loop variable keeps the colour just yielded, so that colour is asked first again | Black has no move, White moves, after which both can move: White is yielded twice in a row | pass for this turn only; after a move the opponent is asked first | not executed | Turns.EndGameStepAsWritten, Turns.EndGameStepAsWrittenRepeatsAfterPass | Turns.EndGameStep, Turns.NextTurn |
| Othello.py:645-653 | after the loop, playing_colour is flipped even when the loop stopped at line_count, where it already holds the colour that plays that line; the flip also departs from the corrected colour on an empty save file (White rather than Black) and, under the as-written controller, after a replayed pass turn (Black rather than the controller's White) | line_count 0 on any save file: the game resumes with White to move on the start position | resume with the colour of the first line not replayed | not executed | Replay.ResumeColourAsWritten, Replay.ResumeAtFirstLine | Replay.ResumeColour, Replay.LocalGame.Load |
| Networking.py:194-196 | when a frame is longer than the chunk, the buffer is extended by data[cutoff:], which is empty, so the partial frame is lost | frame [0,5,1,2,3] received as chunks [0,5,1] and [2,3] | carry the whole unfinished frame over to the next chunk | not executed | Framing.SplitAsWritten, Framing.AsWrittenLosesASplitFrame | Framing.Receive, Framing.TCP.ReceiveData, Framing.ChunkedRoundTrip, Framing.CorrectedKeepsASplitFrame |
