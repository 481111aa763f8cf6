/** The board object of Othello.py: class Othello, with the hashed variant of
    HashedLocalVersus folded in (a Zobrist table present selects its place and flip,
    which also keep the running hash). Its methods change the board step by step as
    the source does and are proved against the functions of module Rules. */
module Engine {
  import opened Constants
  import opened Seqs
  import opened Rules
  import opened Zobrist
  import opened Strings

  /** The dictionary count_pieces returns, {"W": .., "B": .., "E": ..}. */
  datatype PieceCount = PieceCount(white: nat, black: nat, empty: nat)

  /** A coordinate as can_be_placed receives it: an integer from a click, or text
      from a save file. */
  datatype Coord = Int(n: int) | Text(s: string)

  /** `int(v)`: None where Python raises ValueError. */
  function ToInt(v: Coord): Option<int>
  {
    match v
    case Int(n) => Some(n)
    case Text(s) => ParseInt(s)
  }

  /** Directions that are pairwise distinct, as every value of a move table holds. */
  predicate DistinctDirections(ds: seq<Pos>)
  {
    && (forall i :: 0 <= i < |ds| ==> IsDirection(ds[i]))
    && (forall i, j :: 0 <= i < j < |ds| ==> ds[i] != ds[j])
  }

  lemma LegalDirsAreDistinct(b: Board, p: Pos, c: Cell)
    ensures DistinctDirections(LegalDirs(b, p, c))
  {
    LegalDirsMembers(b, p, c);
    FlipLinesAreTheEightDirections();
    forall i | 0 <= i < |LegalDirs(b, p, c)| ensures IsDirection(LegalDirs(b, p, c)[i]) {
      assert LegalDirs(b, p, c)[i] in FLIP_LINES;
    }
  }

  /** The cell q while flip_line is part-way: the flip-lines of `done` flipped, and of
      the flip-line along d the first z cells. */
  ghost function Progress(b: Board, p: Pos, c: Cell, done: seq<Pos>, d: Pos, z: int, q: Pos): Cell
    requires InBounds(q)
  {
    if CapturedAlong(b, p, c, done, q) || (RayOf(p, q).Some? && RayOf(p, q).value.0 == d && RayOf(p, q).value.1 <= z)
    then FlipRule(At(b, q)) else At(b, q)
  }

  /** A ray the flips so far have not reached scans as it did on the board flip_line
      started from. */
  lemma UntouchedRay(b0: Board, b: Board, p: Pos, c: Cell, done: seq<Pos>, d: Pos)
    requires IsDirection(d) && d !in done
    requires forall q :: InBounds(q) ==> At(b, q) == FlippedCell(b0, p, c, done, q)
    ensures ClosingStep(b, p, c, d) == ClosingStep(b0, p, c, d)
  {
    forall j | 1 <= j < BOARD_SIZE && InBounds(Step(p, d, j))
      ensures At(b, Step(p, d, j)) == At(b0, Step(p, d, j))
    {
      RayOfStep(p, d, j);
    }
    ScanReadsOnlyTheRay(b, b0, p, c, d, 1);
  }

  /** Flipping the next cell of the ray along d advances the flip by one cell. */
  lemma ProgressStep(b0: Board, b1: Board, b2: Board, p: Pos, c: Cell, done: seq<Pos>, d: Pos, z: nat)
    requires IsDirection(d) && d !in done && InBounds(Step(p, d, z + 1))
    requires forall q :: InBounds(q) ==> At(b1, q) == Progress(b0, p, c, done, d, z, q)
    requires b2 == Write(b1, Step(p, d, z + 1), FlipRule(At(b1, Step(p, d, z + 1))))
    ensures forall q :: InBounds(q) ==> At(b2, q) == Progress(b0, p, c, done, d, z + 1, q)
  {
    var s := Step(p, d, z + 1);
    RayOfStep(p, d, z + 1);
    forall q | InBounds(q) ensures At(b2, q) == Progress(b0, p, c, done, d, z + 1, q) {
      if q != s && RayOf(p, q).Some? {
        RayOfInverse(p, q);
      }
    }
  }

  /** Flipping all the cells the scan along d yields completes the flip-line of d. */
  lemma RayDone(b0: Board, p: Pos, c: Cell, done: seq<Pos>, d: Pos, z: int, q: Pos)
    requires c != E && IsDirection(d) && InBounds(q)
    requires z == match ClosingStep(b0, p, c, d) case Some(k) => k - 1 case None => 0
    ensures Progress(b0, p, c, done, d, z, q) == FlippedCell(b0, p, c, done + [d], q)
  {
    if RayOf(p, q).Some? {
      RayOfInverse(p, q);
      ScanBounds(b0, p, c, d, 1);
    }
  }

  /** One round of board_change's inner loop appends the entry of cell (x, y). */
  lemma ColumnMovesGrow(b: Board, c: Cell, x: int, y: int, moves: MoveMap, entry: MoveMap)
    requires 0 <= x < BOARD_SIZE && 0 <= y < BOARD_SIZE
    requires moves == ColumnMoves(b, c, x, y) && entry == EntryAt(b, c, (x, y))
    ensures moves + entry == ColumnMoves(b, c, x, y + 1)
  {
  }

  /** One round of board_change's outer loop appends the table of column x. */
  lemma ColumnsMovesStep(b: Board, x: int)
    requires 0 <= x < BOARD_SIZE
    ensures ColumnsMoves(b, W, x + 1) == ColumnsMoves(b, W, x) + ColumnMoves(b, W, x, 8)
    ensures ColumnsMoves(b, B, x + 1) == ColumnsMoves(b, B, x) + ColumnMoves(b, B, x, 8)
  {
  }

  class Othello {
    var board: Board
    /** possible_moves["W"] and possible_moves["B"]. */
    var possibleW: MoveMap
    var possibleB: MoveMap
    /** board_state.hash_num of a HashedLocalVersus. */
    var hashNum: nat
    /** HashedLocalVersus.table; None for a plain Othello. */
    const table: Option<ZobristTable>

    /** `possible_moves[c]`. */
    function Moves(c: Cell): MoveMap
      requires c != E
      reads this
    {
      if c == W then possibleW else possibleB
    }

    /** The move tables are the ones board_change computes for the board. */
    ghost predicate MovesCurrent()
      reads this
    {
      possibleW == PossibleMoves(board, W) && possibleB == PossibleMoves(board, B)
    }

    /** A hashed board's running hash is the Zobrist hash of its board. */
    ghost predicate HashCurrent()
      reads this
    {
      table.Some? ==> hashNum == ZobristHash(board, table.value)
    }

    ghost predicate Valid()
      reads this
    {
      MovesCurrent() && HashCurrent()
    }

    /** Othello.__init__: the start position and its move tables. */
    constructor ()
      ensures board == StartBoard() && table == None
      ensures Valid()
    {
      board := StartBoard();
      possibleW, possibleB := [], [];
      hashNum := 0;
      table := None;
      new;
      BoardChange();
    }

    /** HashedLocalVersus.__init__(board_state, possible_moves, table). */
    constructor Hashed(b: Board, h: nat, w: MoveMap, bl: MoveMap, t: ZobristTable)
      ensures board == b && hashNum == h && possibleW == w && possibleB == bl && table == Some(t)
    {
      board, hashNum, possibleW, possibleB, table := b, h, w, bl, Some(t);
    }

    /** HashedLocalVersus.__deepcopy__: a new object with a copy of the board and the
        hash, sharing the move tables and the Zobrist table. */
    constructor Copy(other: Othello)
      ensures board == other.board && hashNum == other.hashNum && table == other.table
      ensures possibleW == other.possibleW && possibleB == other.possibleB
    {
      board, hashNum, table := other.board, other.hashNum, other.table;
      possibleW, possibleB := other.possibleW, other.possibleB;
    }

    /** flip: the disc at q changes colour; the hashed variant updates the hash
        by XOR-ing out the old state of q and XOR-ing in the new one. */
    method Flip(q: Pos)
      requires InBounds(q) && HashCurrent()
      modifies this
      ensures board == Write(old(board), q, FlipRule(At(old(board), q)))
      ensures possibleW == old(possibleW) && possibleB == old(possibleB)
      ensures table.None? ==> hashNum == old(hashNum)
      ensures table.Some? ==> hashNum == Rehash(old(hashNum),
        table.value[RowMajor(q)][XorIndex(At(old(board), q))],
        table.value[RowMajor(q)][XorIndex(FlipRule(At(old(board), q)))])
      ensures HashCurrent()
    {
      var current := At(board, q);
      board := Write(board, q, FlipRule(current));
      if table.Some? {
        var k := q.1 * 8 + q.0;
        hashNum := Xor(hashNum, table.value[k][XorIndex(current)]);
        hashNum := Xor(hashNum, table.value[k][XorIndex(FlipRule(current))]);
        HashAfterWrite(old(board), table.value, q, FlipRule(current));
      }
    }

    /** flip_line: walks the directions stored for p, scanning each on the board as
        the flips of the earlier directions left it, and flips the cells the scan
        yields. The result is the board with every recorded flip-line flipped. */
    method FlipLine(p: Pos, c: Cell)
      requires c != E && InBounds(p) && HashCurrent()
      requires Lookup(Moves(c), p).Some? && DistinctDirections(Lookup(Moves(c), p).value)
      modifies this
      ensures board == FlipAlong(old(board), p, c, Lookup(old(Moves(c)), p).value)
      ensures possibleW == old(possibleW) && possibleB == old(possibleB) && HashCurrent()
    {
      var ds := Lookup(Moves(c), p).value;
      ghost var b0 := board;
      var j := 0;
      while j < |ds|
        invariant 0 <= j <= |ds|
        invariant possibleW == old(possibleW) && possibleB == old(possibleB) && HashCurrent()
        invariant forall q :: InBounds(q) ==> At(board, q) == FlippedCell(b0, p, c, ds[..j], q)
      {
        var d := ds[j];
        assert d !in ds[..j];
        FlipRay(p, c, d, b0, ds[..j]);
        TakeSnoc(ds, j);
        j := j + 1;
      }
      assert ds[..j] == ds;
      forall q | InBounds(q) ensures At(board, q) == At(FlipAlong(b0, p, c, ds), q) {
        FlipAlongAt(b0, p, c, ds, q);
      }
      BoardsEqual(board, FlipAlong(b0, p, c, ds));
    }

    /** The rounds of flip_line's loop that the generator spends on direction d:
        it scans d on the board as the earlier directions left it, and flips the
        cells it yields one by one. */
    method FlipRay(p: Pos, c: Cell, d: Pos, ghost b0: Board, ghost done: seq<Pos>)
      requires c != E && IsDirection(d) && d !in done && HashCurrent()
      requires forall q :: InBounds(q) ==> At(board, q) == FlippedCell(b0, p, c, done, q)
      modifies this
      ensures possibleW == old(possibleW) && possibleB == old(possibleB) && HashCurrent()
      ensures forall q :: InBounds(q) ==> At(board, q) == FlippedCell(b0, p, c, done + [d], q)
    {
      UntouchedRay(b0, board, p, c, done, d);
      // the generator resumes and scans d on the current board
      var cells := LineIterator(board, p, c, [d]);
      LineIteratorOne(board, p, c, d);
      if ClosingStep(b0, p, c, d).Some? {
        ClosingStepFacts(board, p, c, d);
      }
      forall q | InBounds(q) ensures At(board, q) == Progress(b0, p, c, done, d, 0, q) {
        if RayOf(p, q).Some? {
          RayOfInverse(p, q);
        }
      }
      FlipCells(p, c, d, b0, done, cells);
      forall q | InBounds(q) ensures At(board, q) == FlippedCell(b0, p, c, done + [d], q) {
        RayDone(b0, p, c, done, d, |cells|, q);
      }
    }

    /** The loop of flip_line over the cells the scan along d yields: each one is
        flipped in turn. */
    method FlipCells(p: Pos, c: Cell, d: Pos, ghost b0: Board, ghost done: seq<Pos>, cells: seq<(int, int, Pos)>)
      requires c != E && IsDirection(d) && d !in done && HashCurrent()
      requires forall z :: 0 <= z < |cells| ==>
        cells[z] == (Step(p, d, z + 1).0, Step(p, d, z + 1).1, d) && InBounds(Step(p, d, z + 1))
      requires forall q :: InBounds(q) ==> At(board, q) == Progress(b0, p, c, done, d, 0, q)
      modifies this
      ensures possibleW == old(possibleW) && possibleB == old(possibleB) && HashCurrent()
      ensures forall q :: InBounds(q) ==> At(board, q) == Progress(b0, p, c, done, d, |cells|, q)
    {
      var z := 0;
      while z < |cells|
        invariant 0 <= z <= |cells|
        invariant possibleW == old(possibleW) && possibleB == old(possibleB) && HashCurrent()
        invariant forall q :: InBounds(q) ==> At(board, q) == Progress(b0, p, c, done, d, z, q)
      {
        var s := (cells[z].0, cells[z].1);
        assert s == Step(p, d, z + 1);
        ghost var before := board;
        Flip(s);
        ProgressStep(b0, before, board, p, c, done, d, z);
        z := z + 1;
      }
    }

    /** place: puts a disc of colour c at p, flips the flip-lines recorded for p and
        rebuilds the move tables; the hashed variant also moves the hash of p from
        empty to c. The board becomes Placed(old board, p, c) and the object stays valid. */
    method Place(p: Pos, c: Cell) returns (placed: Pos)
      requires c != E && Valid()
      requires p in Keys(Moves(c))
      modifies this
      ensures placed == p
      ensures board == Placed(old(board), p, c)
      ensures Valid()
    {
      ghost var b0 := board;
      PossibleMovesExact(b0, c, p);
      LegalDirsAreDistinct(b0, p, c);
      board := Write(board, p, c);
      if table.Some? {
        var k := p.1 * 8 + p.0;
        hashNum := Xor(hashNum, table.value[k][XorIndex(E)]);
        hashNum := Xor(hashNum, table.value[k][XorIndex(c)]);
        HashAfterWrite(b0, table.value, p, c);
      }
      FlipLine(p, c);
      PlacedIsWriteThenFlip(b0, p, c);
      BoardChange();
      placed := p;
    }

    /** board_change: rebuilds both move tables, visiting the cells column by column
        and, at each empty cell, checking the flip-line of every occupied neighbour
        for the colour that neighbour is not. */
    method BoardChange()
      modifies this
      ensures board == old(board) && hashNum == old(hashNum)
      ensures MovesCurrent()
    {
      var movesW: MoveMap, movesB: MoveMap := [], [];
      var x := 0;
      while x < BOARD_SIZE
        invariant 0 <= x <= BOARD_SIZE && board == old(board) && hashNum == old(hashNum)
        invariant movesW == ColumnsMoves(board, W, x) && movesB == ColumnsMoves(board, B, x)
      {
        var columnW, columnB := RecordColumn(x);
        ColumnsMovesStep(board, x);
        movesW, movesB := movesW + columnW, movesB + columnB;
        x := x + 1;
      }
      possibleW, possibleB := movesW, movesB;
    }

    /** The inner loop of board_change, over the cells of column x: the entries it
        adds for that column. */
    method RecordColumn(x: int) returns (movesW: MoveMap, movesB: MoveMap)
      requires 0 <= x < BOARD_SIZE
      ensures movesW == ColumnMoves(board, W, x, 8) && movesB == ColumnMoves(board, B, x, 8)
    {
      movesW, movesB := [], [];
      var y := 0;
      while y < BOARD_SIZE
        invariant 0 <= y <= BOARD_SIZE
        invariant movesW == ColumnMoves(board, W, x, y) && movesB == ColumnMoves(board, B, x, y)
      {
        var entryW, entryB := RecordCell((x, y));
        ColumnMovesGrow(board, W, x, y, movesW, entryW);
        ColumnMovesGrow(board, B, x, y, movesB, entryB);
        movesW, movesB := movesW + entryW, movesB + entryB;
        y := y + 1;
      }
    }

    /** One round of the loop over column x, at cell p: an empty cell gets an entry
        in the table of each colour that has a flip-line from it. */
    method RecordCell(p: Pos) returns (entryW: MoveMap, entryB: MoveMap)
      requires InBounds(p)
      ensures entryW == EntryAt(board, W, p) && entryB == EntryAt(board, B, p)
    {
      entryW, entryB := [], [];
      if At(board, p) == E {
        var dirsW, dirsB := AdjacentFlipLines(p);
        if dirsW != [] {
          entryW := [(p, dirsW)];
        }
        if dirsB != [] {
          entryB := [(p, dirsB)];
        }
      }
    }

    /** The inner loop of board_change at the empty cell p: for every occupied
        neighbour, check_flip_line for the colour the neighbour is not; the
        directions found are exactly the flip-lines from p of each colour. */
    method AdjacentFlipLines(p: Pos) returns (dirsW: seq<Pos>, dirsB: seq<Pos>)
      ensures dirsW == LegalDirs(board, p, W) && dirsB == LegalDirs(board, p, B)
    {
      var adj := Adjacent(board, p);
      dirsW, dirsB := [], [];
      var j := 0;
      while j < |adj|
        invariant 0 <= j <= |adj|
        invariant dirsW == AdjacentDirs(board, p, W, adj[..j])
        invariant dirsB == AdjacentDirs(board, p, B, adj[..j])
      {
        TakeSnoc(adj, j);
        AdjacentDirsSnoc(board, p, W, adj[..j], adj[j]);
        AdjacentDirsSnoc(board, p, B, adj[..j], adj[j]);
        dirsW, dirsB := CheckNeighbour(p, adj[j], dirsW, dirsB);
        j := j + 1;
      }
      assert adj[..j] == adj;
      AdjacentDirsAreLegalDirs(board, p, W, FLIP_LINES);
      AdjacentDirsAreLegalDirs(board, p, B, FLIP_LINES);
    }

    /** One round of that inner loop, for the neighbour (colour, d): the colour
        the neighbour does not hold gains d when check_flip_line finds the line. */
    method CheckNeighbour(p: Pos, a: (Cell, Pos), dirsW: seq<Pos>, dirsB: seq<Pos>)
      returns (dirsW': seq<Pos>, dirsB': seq<Pos>)
      ensures dirsW' == dirsW + AdjacentDir(board, p, W, a)
      ensures dirsB' == dirsB + AdjacentDir(board, p, B, a)
    {
      var (colour, d) := a;
      dirsW', dirsB' := dirsW, dirsB;
      AppendNil(dirsW);
      AppendNil(dirsB);
      if colour == W {
        var found := CheckFlipLine(board, p, B, d);
        if found.Some? {
          dirsB' := dirsB + [found.value];
        }
      } else if colour == B {
        var found := CheckFlipLine(board, p, W, d);
        if found.Some? {
          dirsW' := dirsW + [found.value];
        }
      }
    }

    /** count_pieces: the number of cells of each state. */
    method CountPieces() returns (count: PieceCount)
      ensures count == PieceCount(Count(board, W), Count(board, B), Count(board, E))
      ensures count.white + count.black + count.empty == 64
    {
      var white, black, empty := 0, 0, 0;
      var x := 0;
      while x < BOARD_SIZE
        invariant 0 <= x <= BOARD_SIZE
        invariant white == CountRows(board, W, x) && black == CountRows(board, B, x)
        invariant empty == CountRows(board, E, x)
      {
        var y := 0;
        while y < BOARD_SIZE
          invariant 0 <= y <= BOARD_SIZE
          invariant white == CountRows(board, W, x) + CountInRow(board[x], W, y)
          invariant black == CountRows(board, B, x) + CountInRow(board[x], B, y)
          invariant empty == CountRows(board, E, x) + CountInRow(board[x], E, y)
        {
          var cell := board[x][y];
          if cell == W {
            white := white + 1;
          } else if cell == B {
            black := black + 1;
          } else {
            empty := empty + 1;
          }
          y := y + 1;
        }
        x := x + 1;
      }
      CountsSumTo64(board);
      count := PieceCount(white, black, empty);
    }

    /** can_be_placed: converts both coordinates with int() (returning the input
        unchanged and false if either conversion fails), then answers whether the
        position is on the board and a key of possible_moves[c]. */
    function CanBePlaced(pos: (Coord, Coord), c: Cell): ((Coord, Coord), bool)
      requires c != E
      reads this
    {
      var (x, y) := (ToInt(pos.0), ToInt(pos.1));
      if x.None? || y.None? then (pos, false)
      else
        var q := (x.value, y.value);
        ((Int(q.0), Int(q.1)), 0 <= q.0 < BOARD_SIZE && 0 <= q.1 < BOARD_SIZE && q in Keys(Moves(c)))
    }
  }

  /** On a valid board, can_be_placed accepts a position exactly when both coordinates
      convert and name a legal move of c, and then hands back the converted position. */
  lemma CanBePlacedMeansLegal(g: Othello, pos: (Coord, Coord), c: Cell)
    requires g.Valid() && c != E
    ensures g.CanBePlaced(pos, c).1 <==>
      ToInt(pos.0).Some? && ToInt(pos.1).Some? && IsMove(g.board, c, (ToInt(pos.0).value, ToInt(pos.1).value))
    ensures g.CanBePlaced(pos, c).1 ==>
      g.CanBePlaced(pos, c).0 == (Int(ToInt(pos.0).value), Int(ToInt(pos.1).value))
  {
    if ToInt(pos.0).Some? && ToInt(pos.1).Some? {
      PossibleMovesExact(g.board, c, (ToInt(pos.0).value, ToInt(pos.1).value));
    }
  }
}
