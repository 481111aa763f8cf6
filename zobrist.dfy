/** Zobrist hashing (Othello.py: AI.__init__'s table, AI.get_hash_version and the
    hash updates of HashedLocalVersus.place/flip): the hash of a board is the XOR,
    over its 64 cells, of the random value drawn for that cell and its state. */
module Zobrist {
  import opened Constants
  import opened Rules

  const CELLS: int := 64

  /** Python's `^` on non-negative integers, bit by bit from the lowest. The
      source's hash values are Python integers (getrandbits(64) and XORs of them),
      not fixed-width words. */
  function Xor(a: nat, b: nat): nat
    decreases a + b
  {
    if a == 0 && b == 0 then 0
    else 2 * Xor(a / 2, b / 2) + (if a % 2 == b % 2 then 0 else 1)
  }

  lemma XorHalves(a: nat, b: nat)
    ensures Xor(a, b) / 2 == Xor(a / 2, b / 2)
    ensures Xor(a, b) % 2 == (a + b) % 2
  {
    if a != 0 || b != 0 {
      var y, r := Xor(a / 2, b / 2), if a % 2 == b % 2 then 0 else 1;
      assert Xor(a, b) == 2 * y + r;
      HalfOfDouble(y, r);
      ParityOfSum(a, b);
    }
  }

  lemma HalfOfDouble(y: nat, r: nat)
    requires r < 2
    ensures (2 * y + r) / 2 == y && (2 * y + r) % 2 == r
  {
  }

  lemma ParityOfSum(a: nat, b: nat)
    ensures (a + b) % 2 == if a % 2 == b % 2 then 0 else 1
  {
    assert a == 2 * (a / 2) + a % 2 && b == 2 * (b / 2) + b % 2;
  }

  /** Two numbers with the same half and the same parity are equal. */
  lemma SameBits(m: nat, n: nat)
    requires m / 2 == n / 2 && m % 2 == n % 2
    ensures m == n
  {
  }

  lemma {:induction false} XorZero(a: nat)
    ensures Xor(a, 0) == a && Xor(0, a) == a
    decreases a
  {
    if a != 0 {
      XorZero(a / 2);
    }
  }

  lemma {:induction false} XorSelf(a: nat)
    ensures Xor(a, a) == 0
    decreases a
  {
    if a != 0 {
      XorSelf(a / 2);
    }
  }

  lemma {:induction false} XorCommutes(a: nat, b: nat)
    ensures Xor(a, b) == Xor(b, a)
    decreases a + b
  {
    if a != 0 || b != 0 {
      XorCommutes(a / 2, b / 2);
    }
  }

  lemma {:induction false} XorAssociates(a: nat, b: nat, c: nat)
    ensures Xor(Xor(a, b), c) == Xor(a, Xor(b, c))
    decreases a + b + c
  {
    if a != 0 || b != 0 || c != 0 {
      XorAssociates(a / 2, b / 2, c / 2);
      XorHalves(a, b);
      XorHalves(Xor(a, b), c);
      XorHalves(b, c);
      XorHalves(a, Xor(b, c));
      SameBits(Xor(Xor(a, b), c), Xor(a, Xor(b, c)));
    } else {
      XorZero(0);
    }
  }

  /** `AI.table`: for cell y * 8 + x, three random values indexed by XorIndex.
      The source draws them with getrandbits(64); here the table is a parameter. */
  type ZobristTable = t: seq<seq<nat>> | |t| == 64 && forall k :: 0 <= k < 64 ==> |t[k]| == 3
    witness seq(64, k => [0, 0, 0])

  /** The cell with row-major index k = y * 8 + x. */
  function CellOf(k: int): Pos
  {
    (k % 8, k / 8)
  }

  /** The row-major index y * 8 + x of a cell, as the table is indexed. */
  function RowMajor(q: Pos): (k: int)
    ensures InBounds(q) ==> 0 <= k < CELLS
  {
    q.1 * 8 + q.0
  }

  lemma CellOfRowMajor(q: Pos)
    requires InBounds(q)
    ensures 0 <= RowMajor(q) < CELLS && CellOf(RowMajor(q)) == q
  {
  }

  lemma RowMajorCellOf(k: int)
    requires 0 <= k < CELLS
    ensures InBounds(CellOf(k)) && RowMajor(CellOf(k)) == k
  {
  }

  /** The value cell k contributes: `table[k][XOR_INDICES[board[y][x]]]`. */
  function CellValue(b: Board, t: ZobristTable, k: int): nat
    requires 0 <= k < CELLS
  {
    t[k][XorIndex(At(b, CellOf(k)))]
  }

  /** The XOR of the contributions of the first n cells in row-major order. */
  function HashPrefix(b: Board, t: ZobristTable, n: int): nat
    requires 0 <= n <= CELLS
  {
    if n == 0 then 0 else Xor(HashPrefix(b, t, n - 1), CellValue(b, t, n - 1))
  }

  /** The hash computed from scratch, as get_hash_version does. */
  function ZobristHash(b: Board, t: ZobristTable): nat
  {
    HashPrefix(b, t, CELLS)
  }

  /** The hash after replacing value u by value v in a cell: XOR u out, XOR v in. */
  function Rehash(h: nat, u: nat, v: nat): nat
  {
    Xor(Xor(h, u), v)
  }

  /** Only the written cell contributes a different value. */
  lemma CellValueAfterWrite(b: Board, t: ZobristTable, q: Pos, v: Cell, k: int)
    requires InBounds(q) && 0 <= k < CELLS
    ensures k == RowMajor(q) ==> CellValue(Write(b, q, v), t, k) == t[k][XorIndex(v)]
    ensures k != RowMajor(q) ==> CellValue(Write(b, q, v), t, k) == CellValue(b, t, k)
  {
    RowMajorCellOf(k);
    CellOfRowMajor(q);
  }

  /** XORing u in and then rehashing it out for w leaves h with w in. */
  lemma RehashOfAdded(h: nat, u: nat, w: nat)
    ensures Rehash(Xor(h, u), u, w) == Xor(h, w)
  {
    XorAssociates(h, u, u);
    XorSelf(u);
    XorZero(h);
  }

  /** A rehash and a further XOR can be made in either order. */
  lemma RehashThenAdd(h: nat, u: nat, w: nat, x: nat)
    ensures Xor(Rehash(h, u, w), x) == Rehash(Xor(h, x), u, w)
  {
    XorAssociates(Xor(h, u), w, x);
    XorCommutes(w, x);
    XorAssociates(Xor(h, u), x, w);
    XorAssociates(h, u, x);
    XorCommutes(u, x);
    XorAssociates(h, x, u);
  }

  lemma {:induction false} HashPrefixAfterWrite(b: Board, t: ZobristTable, q: Pos, v: Cell, n: int)
    requires InBounds(q) && 0 <= n <= CELLS
    ensures HashPrefix(Write(b, q, v), t, n) ==
      if RowMajor(q) < n
      then Rehash(HashPrefix(b, t, n), t[RowMajor(q)][XorIndex(At(b, q))], t[RowMajor(q)][XorIndex(v)])
      else HashPrefix(b, t, n)
  {
    if n > 0 {
      var k := RowMajor(q);
      CellOfRowMajor(q);
      var u, w := t[k][XorIndex(At(b, q))], t[k][XorIndex(v)];
      HashPrefixAfterWrite(b, t, q, v, n - 1);
      CellValueAfterWrite(b, t, q, v, n - 1);
      var b', h := Write(b, q, v), HashPrefix(b, t, n - 1);
      assert HashPrefix(b', t, n) == Xor(HashPrefix(b', t, n - 1), CellValue(b', t, n - 1));
      assert HashPrefix(b, t, n) == Xor(h, CellValue(b, t, n - 1));
      if n - 1 == k {
        assert CellValue(b, t, k) == u && CellValue(b', t, k) == w;
        RehashOfAdded(h, u, w);
      } else if k < n - 1 {
        RehashThenAdd(h, u, w, CellValue(b, t, n - 1));
      }
    }
  }

  /** Changing one cell from u to v changes the hash by XOR-ing out u's value of
      that cell and XOR-ing in v's, which is what place and flip do. */
  lemma HashAfterWrite(b: Board, t: ZobristTable, q: Pos, v: Cell)
    requires InBounds(q)
    ensures ZobristHash(Write(b, q, v), t) ==
      Rehash(ZobristHash(b, t), t[RowMajor(q)][XorIndex(At(b, q))], t[RowMajor(q)][XorIndex(v)])
  {
    CellOfRowMajor(q);
    HashPrefixAfterWrite(b, t, q, v, CELLS);
  }
}
