/** The rules of the board (Othello.py, class Othello) as functions of a board value:
    the flip-line scan of `line_iterator`, `check_flip_line`, `adjacent`, the move
    table that `board_change` rebuilds, the board that `place` leaves behind, and
    the piece counts of `count_pieces`. The class in engine.dfy is proved against these. */
module Rules {
  import opened Constants
  import opened Seqs

  const EMPTY_ROW: seq<Cell> := [E, E, E, E, E, E, E, E]

  /** One row of the board, `board[y]`. */
  type Row = r: seq<Cell> | |r| == BOARD_SIZE witness EMPTY_ROW

  /** The 8 by 8 grid, indexed `board[y][x]` as in the source. */
  type Board = b: seq<Row> | |b| == BOARD_SIZE
    witness [EMPTY_ROW, EMPTY_ROW, EMPTY_ROW, EMPTY_ROW, EMPTY_ROW, EMPTY_ROW, EMPTY_ROW, EMPTY_ROW]

  /** The move table of one colour, `possible_moves[colour]`: its (x, y) keys in
      insertion order, each with the directions that flip from there. */
  type MoveMap = seq<(Pos, seq<Pos>)>

  predicate InBounds(q: Pos)
  {
    0 <= q.0 < BOARD_SIZE && 0 <= q.1 < BOARD_SIZE
  }

  function At(b: Board, q: Pos): Cell
    requires InBounds(q)
  {
    b[q.1][q.0]
  }

  /** The cell i steps from p along d. */
  function Step(p: Pos, d: Pos, i: int): Pos
  {
    (p.0 + d.0 * i, p.1 + d.1 * i)
  }

  function Write(b: Board, q: Pos, v: Cell): (r: Board)
    requires InBounds(q)
    ensures At(r, q) == v
    ensures forall q' :: InBounds(q') && q' != q ==> At(r, q') == At(b, q')
  {
    b[q.1 := b[q.1][q.0 := v]]
  }

  /** Two boards that agree on every cell are the same board. */
  lemma BoardsEqual(b1: Board, b2: Board)
    requires forall q :: InBounds(q) ==> At(b1, q) == At(b2, q)
    ensures b1 == b2
  {
    forall y | 0 <= y < BOARD_SIZE ensures b1[y] == b2[y] {
      forall x | 0 <= x < BOARD_SIZE ensures b1[y][x] == b2[y][x] {
        assert At(b1, (x, y)) == At(b2, (x, y));
      }
    }
  }

  // ---------------------------------------------------------------------------
  // The scan of line_iterator (Othello.py:60-75)
  // ---------------------------------------------------------------------------

  /** The loop `for i in range(1, BOARD_SIZE)` of line_iterator, resumed at step i:
      the step at which a disc of colour c closes the line, if the line holds. */
  function Scan(b: Board, p: Pos, c: Cell, d: Pos, i: int): Option<int>
    requires 1 <= i
    decreases BOARD_SIZE - i
  {
    if i >= BOARD_SIZE then None
    else
      var q := Step(p, d, i);
      if !InBounds(q) then None
      else if i == 1 then
        if At(b, q) != FlipRule(c) then None else Scan(b, p, c, d, i + 1)
      else if At(b, q) == c then Some(i)
      else if At(b, q) == E then None
      else Scan(b, p, c, d, i + 1)
  }

  /** The step of the disc that closes the flip-line from p along d, if it holds. */
  function ClosingStep(b: Board, p: Pos, c: Cell, d: Pos): Option<int>
  {
    Scan(b, p, c, d, 1)
  }

  /** The flip-line of the glossary: from p along d, one or more contiguous discs of
      the other colour, then a disc of colour c at step k, all on the board. */
  ghost predicate Brackets(b: Board, p: Pos, c: Cell, d: Pos, k: int)
  {
    && 2 <= k < BOARD_SIZE
    && (forall j :: 1 <= j < k ==> InBounds(Step(p, d, j)) && At(b, Step(p, d, j)) == FlipRule(c))
    && InBounds(Step(p, d, k)) && At(b, Step(p, d, k)) == c
  }

  lemma {:induction false} ScanFrom(b: Board, p: Pos, c: Cell, d: Pos, i: int, k: int)
    requires c != E && 2 <= i
    ensures Scan(b, p, c, d, i) == Some(k) <==>
      && i <= k < BOARD_SIZE
      && (forall j :: i <= j < k ==> InBounds(Step(p, d, j)) && At(b, Step(p, d, j)) == FlipRule(c))
      && InBounds(Step(p, d, k)) && At(b, Step(p, d, k)) == c
    decreases BOARD_SIZE - i
  {
    if i < BOARD_SIZE && InBounds(Step(p, d, i)) && At(b, Step(p, d, i)) == FlipRule(c) {
      ScanFrom(b, p, c, d, i + 1, k);
    }
  }

  /** The scan closes at step k exactly when the cells up to k form a flip-line. */
  lemma ScanIsBrackets(b: Board, p: Pos, c: Cell, d: Pos, k: int)
    requires c != E
    ensures ClosingStep(b, p, c, d) == Some(k) <==> Brackets(b, p, c, d, k)
  {
    ScanFrom(b, p, c, d, 2, k);
  }

  /** A scan that closes closes at step two or later, on a disc of colour c,
      after discs of the other colour only. */
  lemma ClosingStepFacts(b: Board, p: Pos, c: Cell, d: Pos)
    requires c != E && ClosingStep(b, p, c, d).Some?
    ensures Brackets(b, p, c, d, ClosingStep(b, p, c, d).value)
  {
    ScanIsBrackets(b, p, c, d, ClosingStep(b, p, c, d).value);
  }

  lemma {:induction false} ScanBounds(b: Board, p: Pos, c: Cell, d: Pos, i: int)
    requires 1 <= i
    ensures Scan(b, p, c, d, i).Some? ==> 2 <= Scan(b, p, c, d, i).value < BOARD_SIZE && i <= Scan(b, p, c, d, i).value
    decreases BOARD_SIZE - i
  {
    if i < BOARD_SIZE {
      ScanBounds(b, p, c, d, i + 1);
    }
  }

  lemma {:induction false} ScanReadsOnlyTheRay(b1: Board, b2: Board, p: Pos, c: Cell, d: Pos, i: int)
    requires 1 <= i
    requires forall j :: i <= j < BOARD_SIZE && InBounds(Step(p, d, j)) ==> At(b1, Step(p, d, j)) == At(b2, Step(p, d, j))
    ensures Scan(b1, p, c, d, i) == Scan(b2, p, c, d, i)
    decreases BOARD_SIZE - i
  {
    if i < BOARD_SIZE {
      ScanReadsOnlyTheRay(b1, b2, p, c, d, i + 1);
    }
  }

  /** The cells of the ray strictly between p and step k, as line_iterator yields them. */
  function RayCells(p: Pos, d: Pos, from: int, k: int): (r: seq<(int, int, Pos)>)
    ensures |r| == if from < k then k - from else 0
    ensures forall z :: 0 <= z < |r| ==> r[z] == (Step(p, d, from + z).0, Step(p, d, from + z).1, d)
    decreases k - from
  {
    if from >= k then [] else [(Step(p, d, from).0, Step(p, d, from).1, d)] + RayCells(p, d, from + 1, k)
  }

  /** line_iterator(pos, current_colour, check_lines), for a board that does not
      change while it runs. */
  function LineIterator(b: Board, p: Pos, c: Cell, ds: seq<Pos>): seq<(int, int, Pos)>
  {
    if ds == [] then []
    else
      (match ClosingStep(b, p, c, ds[0])
       case Some(k) => RayCells(p, ds[0], 1, k)
       case None => [])
      + LineIterator(b, p, c, ds[1..])
  }

  /** check_flip_line: the direction of the first cell line_iterator yields, if any. */
  function CheckFlipLine(b: Board, p: Pos, c: Cell, d: Pos): Option<Pos>
  {
    var cells := LineIterator(b, p, c, [d]);
    if cells == [] then None else Some(cells[0].2)
  }

  lemma LineIteratorOne(b: Board, p: Pos, c: Cell, d: Pos)
    ensures LineIterator(b, p, c, [d]) ==
      match ClosingStep(b, p, c, d) case Some(k) => RayCells(p, d, 1, k) case None => []
  {
    assert [d][1..] == [];
  }

  lemma CheckFlipLineIsScan(b: Board, p: Pos, c: Cell, d: Pos)
    ensures CheckFlipLine(b, p, c, d) == if ClosingStep(b, p, c, d).Some? then Some(d) else None
  {
    LineIteratorOne(b, p, c, d);
    ScanBounds(b, p, c, d, 1);
  }

  /** adjacent: the occupied neighbours of p, with the direction leading to them. */
  function AdjacentIn(b: Board, p: Pos, ds: seq<Pos>): seq<(Cell, Pos)>
  {
    if ds == [] then []
    else
      var q := Step(p, ds[0], 1);
      (if InBounds(q) && At(b, q) != E then [(At(b, q), ds[0])] else []) + AdjacentIn(b, p, ds[1..])
  }

  function Adjacent(b: Board, p: Pos): seq<(Cell, Pos)>
  {
    AdjacentIn(b, p, FLIP_LINES)
  }

  /** The direction board_change records for colour c at p from the neighbour a:
      the flip-line found by check_flip_line, when a holds the other colour. */
  function AdjacentDir(b: Board, p: Pos, c: Cell, a: (Cell, Pos)): seq<Pos>
  {
    if a.0 == FlipRule(c) && CheckFlipLine(b, p, c, a.1).Some? then [CheckFlipLine(b, p, c, a.1).value] else []
  }

  /** The directions board_change records for colour c at p from the neighbours adj. */
  function AdjacentDirs(b: Board, p: Pos, c: Cell, adj: seq<(Cell, Pos)>): seq<Pos>
  {
    if adj == [] then [] else AdjacentDir(b, p, c, adj[0]) + AdjacentDirs(b, p, c, adj[1..])
  }

  lemma {:induction false} AdjacentDirsSnoc(b: Board, p: Pos, c: Cell, adj: seq<(Cell, Pos)>, a: (Cell, Pos))
    ensures AdjacentDirs(b, p, c, adj + [a]) == AdjacentDirs(b, p, c, adj) + AdjacentDir(b, p, c, a)
  {
    if adj == [] {
      assert adj + [a] == [a] && [a][1..] == [];
      AppendNil(AdjacentDir(b, p, c, a));
    } else {
      assert (adj + [a])[0] == adj[0] && (adj + [a])[1..] == adj[1..] + [a];
      AdjacentDirsSnoc(b, p, c, adj[1..], a);
      AppendAssociates(AdjacentDir(b, p, c, adj[0]), AdjacentDirs(b, p, c, adj[1..]), AdjacentDir(b, p, c, a));
    }
  }

  // ---------------------------------------------------------------------------
  // The move table of board_change (Othello.py:104-129)
  // ---------------------------------------------------------------------------

  /** The directions of ds, in order, along which a disc of colour c put at p flips. */
  function LegalDirsIn(b: Board, p: Pos, c: Cell, ds: seq<Pos>): seq<Pos>
  {
    if ds == [] then []
    else (if ClosingStep(b, p, c, ds[0]).Some? then [ds[0]] else []) + LegalDirsIn(b, p, c, ds[1..])
  }

  function LegalDirs(b: Board, p: Pos, c: Cell): seq<Pos>
  {
    LegalDirsIn(b, p, c, FLIP_LINES)
  }

  /** Looking only at the occupied neighbours, as board_change does, finds the same
      directions as testing every direction: a flip-line starts with a disc of the
      other colour next to p. */
  lemma {:induction false} AdjacentDirsAreLegalDirs(b: Board, p: Pos, c: Cell, ds: seq<Pos>)
    requires c != E
    ensures AdjacentDirs(b, p, c, AdjacentIn(b, p, ds)) == LegalDirsIn(b, p, c, ds)
  {
    if ds != [] {
      var d, q := ds[0], Step(p, ds[0], 1);
      var rest := AdjacentIn(b, p, ds[1..]);
      AdjacentDirsAreLegalDirs(b, p, c, ds[1..]);
      NeighbourDecides(b, p, c, d);
      if InBounds(q) && At(b, q) != E {
        var a := (At(b, q), d);
        assert AdjacentIn(b, p, ds) == [a] + rest;
        assert ([a] + rest)[0] == a && ([a] + rest)[1..] == rest;
      } else {
        assert AdjacentIn(b, p, ds) == [] + rest;
        AppendNil(rest);
      }
    }
  }

  /** The neighbour of p along d decides whether d can be a flip-line: the line
      holds only if the neighbour is on the board and occupied, and then
      check_flip_line finds d exactly when the line holds. */
  lemma NeighbourDecides(b: Board, p: Pos, c: Cell, d: Pos)
    requires c != E
    ensures var q := Step(p, d, 1);
      && (InBounds(q) && At(b, q) != E ==>
            AdjacentDir(b, p, c, (At(b, q), d)) == if ClosingStep(b, p, c, d).Some? then [d] else [])
      && (!(InBounds(q) && At(b, q) != E) ==> ClosingStep(b, p, c, d).None?)
  {
    CheckFlipLineIsScan(b, p, c, d);
  }

  lemma {:induction false} LegalDirsInMembers(b: Board, p: Pos, c: Cell, ds: seq<Pos>)
    ensures forall d :: d in LegalDirsIn(b, p, c, ds) <==> d in ds && ClosingStep(b, p, c, d).Some?
    ensures (forall i, j :: 0 <= i < j < |ds| ==> ds[i] != ds[j]) ==>
            (forall i, j :: 0 <= i < j < |LegalDirsIn(b, p, c, ds)| ==> LegalDirsIn(b, p, c, ds)[i] != LegalDirsIn(b, p, c, ds)[j])
  {
    if ds != [] {
      LegalDirsInMembers(b, p, c, ds[1..]);
      var rest := LegalDirsIn(b, p, c, ds[1..]);
      if (forall i, j :: 0 <= i < j < |ds| ==> ds[i] != ds[j]) {
        assert ds[0] !in ds[1..] by {
          forall j | 0 <= j < |ds[1..]| ensures ds[1..][j] != ds[0] { assert ds[1..][j] == ds[j + 1]; }
        }
        assert forall i, j :: 0 <= i < j < |ds[1..]| ==> ds[1..][i] != ds[1..][j] by {
          forall i, j | 0 <= i < j < |ds[1..]| ensures ds[1..][i] != ds[1..][j] {
            assert ds[1..][i] == ds[i + 1] && ds[1..][j] == ds[j + 1];
          }
        }
      }
    }
  }

  /** A direction is listed for p exactly when the flip-line along it holds, and at most once. */
  lemma LegalDirsMembers(b: Board, p: Pos, c: Cell)
    ensures forall d :: d in LegalDirs(b, p, c) <==> d in FLIP_LINES && ClosingStep(b, p, c, d).Some?
    ensures forall i, j :: 0 <= i < j < |LegalDirs(b, p, c)| ==> LegalDirs(b, p, c)[i] != LegalDirs(b, p, c)[j]
  {
    FlipLinesAreTheEightDirections();
    LegalDirsInMembers(b, p, c, FLIP_LINES);
  }

  /** The entry board_change makes for cell p: p with its flip-line directions,
      when p is empty and has at least one. */
  function EntryAt(b: Board, c: Cell, p: Pos): MoveMap
    requires InBounds(p)
  {
    if At(b, p) == E && LegalDirs(b, p, c) != [] then [(p, LegalDirs(b, p, c))] else []
  }

  /** The entries of cells (x, 0) .. (x, y - 1): what the inner loop over y has
      added for column x after y rounds. */
  function ColumnMoves(b: Board, c: Cell, x: int, y: int): MoveMap
    requires 0 <= x < BOARD_SIZE && 0 <= y <= BOARD_SIZE
  {
    if y == 0 then [] else ColumnMoves(b, c, x, y - 1) + EntryAt(b, c, (x, y - 1))
  }

  /** The entries of columns 0 .. x - 1, column after column: what the outer loop
      over x has built after x rounds. */
  function ColumnsMoves(b: Board, c: Cell, x: int): MoveMap
    requires 0 <= x <= BOARD_SIZE
  {
    if x == 0 then [] else ColumnsMoves(b, c, x - 1) + ColumnMoves(b, c, x - 1, 8)
  }

  /** possible_moves[c] as board_change leaves it. */
  function PossibleMoves(b: Board, c: Cell): MoveMap
  {
    ColumnsMoves(b, c, BOARD_SIZE)
  }

  function Keys(m: MoveMap): (r: seq<Pos>)
    ensures |r| == |m| && forall i :: 0 <= i < |m| ==> r[i] == m[i].0
  {
    if m == [] then [] else [m[0].0] + Keys(m[1..])
  }

  /** `m.get(p)`: the value stored under the first key equal to p. */
  function Lookup(m: MoveMap, p: Pos): Option<seq<Pos>>
  {
    if m == [] then None else if m[0].0 == p then Some(m[0].1) else Lookup(m[1..], p)
  }

  /** The cell whose flip-line entry board_change must record for colour c. */
  predicate IsMove(b: Board, c: Cell, q: Pos)
  {
    InBounds(q) && At(b, q) == E && LegalDirs(b, q, c) != []
  }

  lemma {:induction false} LookupAppend(m1: MoveMap, m2: MoveMap, p: Pos)
    ensures Lookup(m1 + m2, p) == if Lookup(m1, p).Some? then Lookup(m1, p) else Lookup(m2, p)
  {
    if m1 != [] {
      assert (m1 + m2)[1..] == m1[1..] + m2;
      LookupAppend(m1[1..], m2, p);
    } else {
      assert m1 + m2 == m2;
    }
  }

  lemma {:induction false} KeysAppend(m1: MoveMap, m2: MoveMap)
    ensures Keys(m1 + m2) == Keys(m1) + Keys(m2)
  {
  }

  lemma {:induction false} LookupMeansKey(m: MoveMap, p: Pos)
    ensures Lookup(m, p).Some? <==> p in Keys(m)
  {
    if m != [] {
      LookupMeansKey(m[1..], p);
      assert Keys(m) == [m[0].0] + Keys(m[1..]);
    }
  }

  /** A move table entry made for cell p: nothing, or p with its directions. */
  predicate EntryShape(m: MoveMap, p: Pos)
  {
    m == [] || (|m| == 1 && m[0].0 == p)
  }

  /** Every cell's entry is keyed by that cell. */
  ghost predicate Keyed(entry: Pos -> MoveMap)
  {
    forall p :: EntryShape(entry(p), p)
  }

  /** The table that visiting cells (x, 0) .. (x, y - 1) in turn builds, when the
      visit of cell p appends `entry(p)`. */
  function CellsInColumn(entry: Pos -> MoveMap, x: int, y: int): MoveMap
    requires 0 <= y
  {
    if y == 0 then [] else CellsInColumn(entry, x, y - 1) + entry((x, y - 1))
  }

  /** The table that visiting columns 0 .. x - 1 in turn builds, each from row 0 up. */
  function CellsInColumns(entry: Pos -> MoveMap, x: int): MoveMap
    requires 0 <= x
  {
    if x == 0 then [] else CellsInColumns(entry, x - 1) + CellsInColumn(entry, x - 1, BOARD_SIZE)
  }

  /** The entry board_change makes for a cell of the board, and none off it. */
  function EntryOf(b: Board, c: Cell): Pos -> MoveMap
  {
    p => if InBounds(p) then EntryAt(b, c, p) else []
  }

  lemma EntriesAreKeyed(b: Board, c: Cell)
    ensures Keyed(EntryOf(b, c))
  {
    forall p ensures EntryShape(EntryOf(b, c)(p), p) {
    }
  }

  /** The inner loop over y builds the column table of board_change's entries. */
  lemma {:induction false} ColumnMovesAreCells(b: Board, c: Cell, x: int, y: int)
    requires 0 <= x < BOARD_SIZE && 0 <= y <= BOARD_SIZE
    ensures ColumnMoves(b, c, x, y) == CellsInColumn(EntryOf(b, c), x, y)
  {
    if y > 0 {
      ColumnMovesAreCells(b, c, x, y - 1);
    }
  }

  /** The outer loop over x builds the table of board_change's entries, column by column. */
  lemma {:induction false} ColumnsMovesAreCells(b: Board, c: Cell, x: int)
    requires 0 <= x <= BOARD_SIZE
    ensures ColumnsMoves(b, c, x) == CellsInColumns(EntryOf(b, c), x)
  {
    if x > 0 {
      var before, column := ColumnsMoves(b, c, x - 1), ColumnMoves(b, c, x - 1, BOARD_SIZE);
      assert ColumnsMoves(b, c, x) == before + column;
      ColumnsMovesAreCells(b, c, x - 1);
      ColumnMovesAreCells(b, c, x - 1, BOARD_SIZE);
    }
  }

  /** A keyed entry holds nothing for any other cell. */
  lemma EntryShapeLookup(m: MoveMap, p: Pos, q: Pos)
    requires EntryShape(m, p) && q != p
    ensures Lookup(m, q) == None
  {
    if m != [] {
      assert m[1..] == [];
    }
  }

  /** The table of column x after y cells holds, for a cell (x, j) with j < y,
      that cell's entry, and nothing for any other cell. */
  lemma {:induction false} CellsInColumnLookup(entry: Pos -> MoveMap, x: int, y: int, q: Pos)
    requires Keyed(entry) && 0 <= y
    ensures Lookup(CellsInColumn(entry, x, y), q) ==
      if q.0 == x && 0 <= q.1 < y then Lookup(entry(q), q) else None
  {
    if y > 0 {
      var p := (x, y - 1);
      CellsInColumnLookup(entry, x, y - 1, q);
      LookupAppend(CellsInColumn(entry, x, y - 1), entry(p), q);
      if q != p {
        assert EntryShape(entry(p), p);
        EntryShapeLookup(entry(p), p, q);
      }
    }
  }

  /** The table after x columns holds, for a cell of one of those columns, that
      cell's entry, and nothing for any other cell. */
  lemma {:induction false} CellsInColumnsLookup(entry: Pos -> MoveMap, x: int, q: Pos)
    requires Keyed(entry) && 0 <= x
    ensures Lookup(CellsInColumns(entry, x), q) ==
      if 0 <= q.0 < x && 0 <= q.1 < BOARD_SIZE then Lookup(entry(q), q) else None
  {
    if x > 0 {
      CellsInColumnsLookup(entry, x - 1, q);
      CellsInColumnLookup(entry, x - 1, BOARD_SIZE, q);
      LookupAppend(CellsInColumns(entry, x - 1), CellsInColumn(entry, x - 1, BOARD_SIZE), q);
    }
  }

  /** The keys of a move table are distinct cells. */
  ghost predicate DistinctKeys(m: MoveMap)
  {
    forall i, j :: 0 <= i < j < |m| ==> m[i].0 != m[j].0
  }

  lemma {:induction false} CellsInColumnKeys(entry: Pos -> MoveMap, x: int, y: int)
    requires Keyed(entry) && 0 <= y
    ensures DistinctKeys(CellsInColumn(entry, x, y))
    ensures forall i :: 0 <= i < |CellsInColumn(entry, x, y)| ==>
      CellsInColumn(entry, x, y)[i].0.0 == x && CellsInColumn(entry, x, y)[i].0.1 < y
  {
    if y > 0 {
      CellsInColumnKeys(entry, x, y - 1);
      assert EntryShape(entry((x, y - 1)), (x, y - 1));
    }
  }

  lemma {:induction false} CellsInColumnsKeys(entry: Pos -> MoveMap, x: int)
    requires Keyed(entry) && 0 <= x
    ensures DistinctKeys(CellsInColumns(entry, x))
    ensures forall i :: 0 <= i < |CellsInColumns(entry, x)| ==> CellsInColumns(entry, x)[i].0.0 < x
  {
    if x > 0 {
      CellsInColumnsKeys(entry, x - 1);
      CellsInColumnKeys(entry, x - 1, BOARD_SIZE);
    }
  }

  /** The entry of cell p, looked up under p, is what the rules allow there. */
  lemma EntryLookup(b: Board, c: Cell, p: Pos)
    requires InBounds(p)
    ensures Lookup(EntryAt(b, c, p), p) == if IsMove(b, c, p) then Some(LegalDirs(b, p, c)) else None
  {
    if EntryAt(b, c, p) != [] {
      assert EntryAt(b, c, p)[1..] == [];
    }
  }

  /** board_change's table for colour c: a cell is a key exactly when it is an empty
      cell of the board with at least one flip-line for c; its value lists exactly
      those directions, each once; and no cell is a key twice. */
  lemma PossibleMovesExact(b: Board, c: Cell, q: Pos)
    ensures Lookup(PossibleMoves(b, c), q) == if IsMove(b, c, q) then Some(LegalDirs(b, q, c)) else None
    ensures q in Keys(PossibleMoves(b, c)) <==> IsMove(b, c, q)
    ensures forall i, j :: 0 <= i < j < |PossibleMoves(b, c)| ==> PossibleMoves(b, c)[i].0 != PossibleMoves(b, c)[j].0
  {
    ColumnsMovesAreCells(b, c, BOARD_SIZE);
    EntriesAreKeyed(b, c);
    CellsInColumnsLookup(EntryOf(b, c), BOARD_SIZE, q);
    if InBounds(q) {
      EntryLookup(b, c, q);
    }
    CellsInColumnsKeys(EntryOf(b, c), BOARD_SIZE);
    LookupMeansKey(PossibleMoves(b, c), q);
  }

  /** The board_change property in full: direction d is recorded for colour c at
      cell q exactly when q is empty, the next cell along d holds the other colour,
      and the walk then reaches a disc of c before an empty cell or the edge. */
  lemma RecordedDirectionsAreFlipLines(b: Board, c: Cell, q: Pos, d: Pos)
    requires c != E
    ensures (Lookup(PossibleMoves(b, c), q).Some? && d in Lookup(PossibleMoves(b, c), q).value) <==>
      && InBounds(q) && At(b, q) == E && d in FLIP_LINES
      && exists k :: Brackets(b, q, c, d, k)
  {
    PossibleMovesExact(b, c, q);
    LegalDirsMembers(b, q, c);
    if exists k :: Brackets(b, q, c, d, k) {
      var k :| Brackets(b, q, c, d, k);
      ScanIsBrackets(b, q, c, d, k);
    }
    if ClosingStep(b, q, c, d).Some? {
      ClosingStepFacts(b, q, c, d);
    }
  }

  // ---------------------------------------------------------------------------
  // The board after place (Othello.py:90-102)
  // ---------------------------------------------------------------------------

  function Abs(n: int): nat { if n < 0 then -n else n }

  function Sign(n: int): int { if n > 0 then 1 else if n < 0 then -1 else 0 }

  /** The direction and distance that lead from p to q along one of the eight lines. */
  function RayOf(p: Pos, q: Pos): Option<(Pos, int)>
  {
    var dx, dy := q.0 - p.0, q.1 - p.1;
    var i := if Abs(dx) < Abs(dy) then Abs(dy) else Abs(dx);
    if i == 0 || (dx != 0 && Abs(dx) != i) || (dy != 0 && Abs(dy) != i) then None
    else Some(((Sign(dx), Sign(dy)), i))
  }

  lemma RayOfStep(p: Pos, d: Pos, i: int)
    requires IsDirection(d) && 1 <= i
    ensures RayOf(p, Step(p, d, i)) == Some((d, i))
  {
    assert d.0 == -1 || d.0 == 0 || d.0 == 1;
    assert d.1 == -1 || d.1 == 0 || d.1 == 1;
  }

  lemma RayOfInverse(p: Pos, q: Pos)
    requires RayOf(p, q).Some?
    ensures IsDirection(RayOf(p, q).value.0) && 1 <= RayOf(p, q).value.1
    ensures q == Step(p, RayOf(p, q).value.0, RayOf(p, q).value.1)
  {
    var dx, dy := q.0 - p.0, q.1 - p.1;
    var (d, i) := RayOf(p, q).value;
    assert d.0 * i == dx by {
      if dx > 0 { assert d.0 == 1; } else if dx < 0 { assert d.0 == -1; } else { assert d.0 == 0; }
    }
    assert d.1 * i == dy by {
      if dy > 0 { assert d.1 == 1; } else if dy < 0 { assert d.1 == -1; } else { assert d.1 == 0; }
    }
  }

  /** Cell q is captured by a disc of colour c put at p: it lies strictly inside the
      flip-line of one of the directions ds. */
  predicate CapturedAlong(b: Board, p: Pos, c: Cell, ds: seq<Pos>, q: Pos)
  {
    match RayOf(p, q)
    case None => false
    case Some((d, i)) =>
      d in ds &&
      match ClosingStep(b, p, c, d)
      case None => false
      case Some(k) => i < k
  }

  predicate Captured(b: Board, p: Pos, c: Cell, q: Pos)
  {
    CapturedAlong(b, p, c, LegalDirs(b, p, c), q)
  }

  function PlacedCell(b: Board, p: Pos, c: Cell, ds: seq<Pos>, q: Pos): Cell
    requires InBounds(q)
  {
    if q == p then c else if CapturedAlong(b, p, c, ds, q) then FlipRule(At(b, q)) else At(b, q)
  }

  /** The board `place(p, c)` leaves behind: c at p, every captured cell flipped. */
  function Placed(b: Board, p: Pos, c: Cell): Board
  {
    var ds := LegalDirs(b, p, c);
    seq(BOARD_SIZE, y requires 0 <= y < BOARD_SIZE =>
      seq(BOARD_SIZE, x requires 0 <= x < BOARD_SIZE => PlacedCell(b, p, c, ds, (x, y))))
  }

  lemma PlacedAt(b: Board, p: Pos, c: Cell, q: Pos)
    requires InBounds(q)
    ensures At(Placed(b, p, c), q) == PlacedCell(b, p, c, LegalDirs(b, p, c), q)
  {
  }

  /** Placing changes p to c and every captured cell from the other colour to c;
      no other cell changes. */
  lemma PlacedChangesOnlyCapturedCells(b: Board, p: Pos, c: Cell, q: Pos)
    requires c != E && InBounds(q)
    ensures q == p ==> At(Placed(b, p, c), q) == c
    ensures q != p && Captured(b, p, c, q) ==> At(b, q) == FlipRule(c) && At(Placed(b, p, c), q) == c
    ensures q != p && !Captured(b, p, c, q) ==> At(Placed(b, p, c), q) == At(b, q)
  {
    if q != p && Captured(b, p, c, q) {
      var (d, i) := RayOf(p, q).value;
      RayOfInverse(p, q);
      ClosingStepFacts(b, p, c, d);
    }
  }

  /** The board after flipping, on board b, the flip-lines of ds from p for colour c:
      what flip_line leaves behind. */
  function FlipAlong(b: Board, p: Pos, c: Cell, ds: seq<Pos>): Board
  {
    seq(BOARD_SIZE, y requires 0 <= y < BOARD_SIZE =>
      seq(BOARD_SIZE, x requires 0 <= x < BOARD_SIZE => FlippedCell(b, p, c, ds, (x, y))))
  }

  function FlippedCell(b: Board, p: Pos, c: Cell, ds: seq<Pos>, q: Pos): Cell
    requires InBounds(q)
  {
    if CapturedAlong(b, p, c, ds, q) then FlipRule(At(b, q)) else At(b, q)
  }

  lemma FlipAlongAt(b: Board, p: Pos, c: Cell, ds: seq<Pos>, q: Pos)
    requires InBounds(q)
    ensures At(FlipAlong(b, p, c, ds), q) ==
      if CapturedAlong(b, p, c, ds, q) then FlipRule(At(b, q)) else At(b, q)
  {
  }

  /** The scans from p never look at p itself. */
  lemma ScanIgnoresOrigin(b: Board, p: Pos, v: Cell, c: Cell, d: Pos)
    requires InBounds(p) && IsDirection(d)
    ensures ClosingStep(Write(b, p, v), p, c, d) == ClosingStep(b, p, c, d)
  {
    forall j | 1 <= j < BOARD_SIZE && InBounds(Step(p, d, j))
      ensures At(Write(b, p, v), Step(p, d, j)) == At(b, Step(p, d, j))
    {
      RayOfStep(p, d, j);
    }
    ScanReadsOnlyTheRay(Write(b, p, v), b, p, c, d, 1);
  }

  /** place is "put the disc, then flip the flip-lines recorded before it was put". */
  lemma PlacedIsWriteThenFlip(b: Board, p: Pos, c: Cell)
    requires InBounds(p) && c != E
    ensures Placed(b, p, c) == FlipAlong(Write(b, p, c), p, c, LegalDirs(b, p, c))
  {
    var ds := LegalDirs(b, p, c);
    var b' := Write(b, p, c);
    LegalDirsMembers(b, p, c);
    FlipLinesAreTheEightDirections();
    forall q | InBounds(q) ensures At(Placed(b, p, c), q) == At(FlipAlong(b', p, c, ds), q) {
      FlipAlongAt(b', p, c, ds, q);
      PlacedAt(b, p, c, q);
      if RayOf(p, q).Some? {
        var (d, i) := RayOf(p, q).value;
        RayOfInverse(p, q);
        ScanIgnoresOrigin(b, p, c, c, d);
      }
    }
    BoardsEqual(Placed(b, p, c), FlipAlong(b', p, c, ds));
  }

  /** The captured cells are exactly the cells strictly between p and the closing
      disc of a holding flip-line. */
  lemma CapturedIsBetween(b: Board, p: Pos, c: Cell, d: Pos, i: int)
    requires c != E && d in FLIP_LINES && 1 <= i
    ensures Captured(b, p, c, Step(p, d, i)) <==> ClosingStep(b, p, c, d).Some? && i < ClosingStep(b, p, c, d).value
  {
    FlipLinesAreTheEightDirections();
    RayOfStep(p, d, i);
    LegalDirsMembers(b, p, c);
  }

  /** The board of Othello.__init__: START_POS, every other cell empty. */
  function StartBoard(): Board
  {
    seq(BOARD_SIZE, y requires 0 <= y < BOARD_SIZE =>
      seq(BOARD_SIZE, x requires 0 <= x < BOARD_SIZE =>
        if (x, y) in START_POS then START_POS[(x, y)] else E))
  }

  /** Every cell of b is as on the start position. */
  ghost predicate IsStartBoard(b: Board)
  {
    forall q :: InBounds(q) ==> At(b, q) == if q in START_POS then START_POS[q] else E
  }

  lemma StartBoardIsStart()
    ensures IsStartBoard(StartBoard())
  {
  }

  /** The direction of the one flip-line of each of Black's opening moves. */
  function OpeningDir(q: Pos): Pos
  {
    if q == (3, 2) then (0, 1) else if q == (2, 3) then (1, 0) else if q == (5, 4) then (-1, 0) else (0, -1)
  }

  /** On the start position a flip-line for Black is one white disc long, and it
      starts from one of the four cells of HELP_POSSIBLE1, in that cell's direction. */
  lemma OpeningLine(b: Board, q: Pos, d: Pos, k: int)
    requires IsStartBoard(b) && IsDirection(d) && Brackets(b, q, B, d, k)
    ensures k == 2 && q in HELP_POSSIBLE1 && d == OpeningDir(q)
  {
    var s1, s2 := Step(q, d, 1), Step(q, d, 2);
    assert At(b, s1) == W;
    assert s1 == (3, 3) || s1 == (4, 4);
    assert At(b, s2) == B;
    assert s2 == (3, 4) || s2 == (4, 3);
  }

  /** Black's moves on the start position are among HELP_POSSIBLE1, each with its one direction. */
  lemma OnlyOpeningMoves(b: Board, q: Pos)
    requires IsStartBoard(b) && IsMove(b, B, q)
    ensures q in HELP_POSSIBLE1 && forall d :: d in LegalDirs(b, q, B) ==> d == OpeningDir(q)
  {
    FlipLinesAreTheEightDirections();
    LegalDirsMembers(b, q, B);
    forall d | d in LegalDirs(b, q, B) ensures q in HELP_POSSIBLE1 && d == OpeningDir(q) {
      ClosingStepFacts(b, q, B, d);
      OpeningLine(b, q, d, ClosingStep(b, q, B, d).value);
    }
    assert LegalDirs(b, q, B)[0] in LegalDirs(b, q, B);
  }

  /** Each cell of HELP_POSSIBLE1 is a move for Black on the start position. */
  lemma OpeningMovesHold(b: Board, q: Pos)
    requires IsStartBoard(b) && q in HELP_POSSIBLE1
    ensures IsMove(b, B, q) && OpeningDir(q) in LegalDirs(b, q, B) && ClosingStep(b, q, B, OpeningDir(q)) == Some(2)
  {
    var d := OpeningDir(q);
    assert At(b, q) == E;
    assert Brackets(b, q, B, d, 2) by {
      assert At(b, Step(q, d, 1)) == W && At(b, Step(q, d, 2)) == B;
    }
    ScanIsBrackets(b, q, B, d, 2);
    LegalDirsMembers(b, q, B);
    assert d in LegalDirs(b, q, B);
  }

  /** HELP_POSSIBLE1 is exactly Black's set of moves on the start position, and
      each of them has one flip-line, which closes at the second step. */
  lemma BlackOpeningMoves(b: Board, q: Pos)
    requires IsStartBoard(b)
    ensures IsMove(b, B, q) <==> q in HELP_POSSIBLE1
    ensures q in HELP_POSSIBLE1 ==>
      && OpeningDir(q) in LegalDirs(b, q, B) && (forall d :: d in LegalDirs(b, q, B) ==> d == OpeningDir(q))
      && ClosingStep(b, q, B, OpeningDir(q)) == Some(2)
  {
    if IsMove(b, B, q) {
      OnlyOpeningMoves(b, q);
    }
    if q in HELP_POSSIBLE1 {
      OpeningMovesHold(b, q);
      OnlyOpeningMoves(b, q);
    }
  }

  /** HELP_POSSIBLE1 lists the keys of board_change's table for Black on the start position. */
  lemma HelpPossibleIsBlacksTable(b: Board, q: Pos)
    requires IsStartBoard(b)
    ensures q in Keys(PossibleMoves(b, B)) <==> q in HELP_POSSIBLE1
  {
    PossibleMovesExact(b, B, q);
    BlackOpeningMoves(b, q);
  }

  /** A move with a single flip-line that closes at the second step captures one
      cell: the one next to it along that line. */
  lemma CapturedOnShortLine(b: Board, p: Pos, c: Cell, d: Pos, r: Pos)
    requires IsDirection(d) && d in LegalDirs(b, p, c) && ClosingStep(b, p, c, d) == Some(2)
    requires forall e :: e in LegalDirs(b, p, c) ==> e == d
    ensures Captured(b, p, c, r) <==> r == Step(p, d, 1)
  {
    if Captured(b, p, c, r) {
      RayOfInverse(p, r);
    }
    if r == Step(p, d, 1) {
      RayOfStep(p, d, 1);
    }
  }

  /** The cells captured by an opening move: the white disc next to it along its flip-line. */
  lemma OpeningCaptures(b: Board, q: Pos, r: Pos)
    requires IsStartBoard(b) && q in HELP_POSSIBLE1
    ensures Captured(b, q, B, r) <==> r == Step(q, OpeningDir(q), 1)
  {
    BlackOpeningMoves(b, q);
    CapturedOnShortLine(b, q, B, OpeningDir(q), r);
  }

  /** Each of Black's opening moves flips exactly one disc, from White to Black. */
  lemma OpeningMoveFlipsOneDisc(b: Board, q: Pos, r: Pos)
    requires IsStartBoard(b) && q in HELP_POSSIBLE1 && InBounds(r) && r != q
    ensures At(Placed(b, q, B), r) != At(b, r) <==> r == Step(q, OpeningDir(q), 1)
    ensures r == Step(q, OpeningDir(q), 1) ==> At(b, r) == W && At(Placed(b, q, B), r) == B
  {
    OpeningCaptures(b, q, r);
    PlacedChangesOnlyCapturedCells(b, q, B, r);
  }

  /** The start position, written out row by row. */
  lemma StartBoardRows()
    ensures StartBoard() == [EMPTY_ROW, EMPTY_ROW, EMPTY_ROW, [E, E, E, W, B, E, E, E], [E, E, E, B, W, E, E, E],
                             EMPTY_ROW, EMPTY_ROW, EMPTY_ROW]
  {
    var sb: Board := [EMPTY_ROW, EMPTY_ROW, EMPTY_ROW, [E, E, E, W, B, E, E, E], [E, E, E, B, W, E, E, E],
                      EMPTY_ROW, EMPTY_ROW, EMPTY_ROW];
    forall q | InBounds(q) ensures At(StartBoard(), q) == At(sb, q) {
      assert q.0 == 0 || q.0 == 1 || q.0 == 2 || q.0 == 3 || q.0 == 4 || q.0 == 5 || q.0 == 6 || q.0 == 7;
      assert q.1 == 0 || q.1 == 1 || q.1 == 2 || q.1 == 3 || q.1 == 4 || q.1 == 5 || q.1 == 6 || q.1 == 7;
    }
    BoardsEqual(StartBoard(), sb);
  }

  /** The start position holds two discs of each colour and sixty empty cells. */
  lemma StartBoardCounts(c: Cell)
    ensures Count(StartBoard(), c) == if c == E then 60 else 2
  {
    StartBoardRows();
    RowsCounts(StartBoard(), c);
  }

  /** The counts of the rows of the start position. */
  lemma CentreRowCounts(c: Cell)
    ensures CountInRow(EMPTY_ROW, c, 8) == if c == E then 8 else 0
    ensures CountInRow([E, E, E, W, B, E, E, E], c, 8) == if c == E then 6 else 1
    ensures CountInRow([E, E, E, B, W, E, E, E], c, 8) == if c == E then 6 else 1
  {
  }

  /** The counts of a board laid out as the start position, row by row. */
  lemma RowsCounts(b: Board, c: Cell)
    requires b == [EMPTY_ROW, EMPTY_ROW, EMPTY_ROW, [E, E, E, W, B, E, E, E], [E, E, E, B, W, E, E, E],
                   EMPTY_ROW, EMPTY_ROW, EMPTY_ROW]
    ensures Count(b, c) == if c == E then 60 else 2
  {
    var empty, centre := if c == E then 8 else 0, if c == E then 6 else 1;
    CentreRowCounts(c);
    assert b[0] == b[1] == b[2] == b[5] == b[6] == b[7] == EMPTY_ROW;
    assert b[3] == [E, E, E, W, B, E, E, E] && b[4] == [E, E, E, B, W, E, E, E];
    assert CountRows(b, c, 1) == empty;
    assert CountRows(b, c, 2) == 2 * empty;
    assert CountRows(b, c, 3) == 3 * empty;
    assert CountRows(b, c, 4) == 3 * empty + centre;
    assert CountRows(b, c, 5) == 3 * empty + 2 * centre;
    assert CountRows(b, c, 6) == 4 * empty + 2 * centre;
    assert CountRows(b, c, 7) == 5 * empty + 2 * centre;
  }

  // ---------------------------------------------------------------------------
  // count_pieces (Othello.py:176-183)
  // ---------------------------------------------------------------------------

  /** The number of cells among the first n of row r that hold c. */
  function CountInRow(r: Row, c: Cell, n: int): nat
    requires 0 <= n <= BOARD_SIZE
  {
    if n == 0 then 0 else CountInRow(r, c, n - 1) + (if r[n - 1] == c then 1 else 0)
  }

  /** The number of cells of the first n rows that hold c. */
  function CountRows(b: Board, c: Cell, n: int): nat
    requires 0 <= n <= BOARD_SIZE
  {
    if n == 0 then 0 else CountRows(b, c, n - 1) + CountInRow(b[n - 1], c, BOARD_SIZE)
  }

  function Count(b: Board, c: Cell): nat
  {
    CountRows(b, c, BOARD_SIZE)
  }

  lemma {:induction false} RowCountsSum(r: Row, n: int)
    requires 0 <= n <= BOARD_SIZE
    ensures CountInRow(r, W, n) + CountInRow(r, B, n) + CountInRow(r, E, n) == n
  {
    if n > 0 { RowCountsSum(r, n - 1); }
  }

  lemma {:induction false} RowsCountsSum(b: Board, n: int)
    requires 0 <= n <= BOARD_SIZE
    ensures CountRows(b, W, n) + CountRows(b, B, n) + CountRows(b, E, n) == n * 8
  {
    if n > 0 {
      RowsCountsSum(b, n - 1);
      RowCountsSum(b[n - 1], BOARD_SIZE);
    }
  }

  /** The three counts always sum to the 64 cells of the board. */
  lemma CountsSumTo64(b: Board)
    ensures Count(b, W) + Count(b, B) + Count(b, E) == 64
  {
    RowsCountsSum(b, BOARD_SIZE);
  }
}
