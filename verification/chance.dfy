/**
 The chance turn (src/board.rs, `num_empty`, `random_successors`,
 `add_random`): a new tile, 2 with probability 0.9 and 4 with probability
 0.1, lands on an empty cell chosen uniformly.
 */
module Chance {
  import opened Row
  import opened Grid

  /** Probability that a spawned tile is a 2 (exponent 1). */
  const TwoProbability: real := 0.9
  /** Probability that a spawned tile is a 4 (exponent 2). */
  const FourProbability: real := 0.1

  /** The probability of spawning exponent `v`. */
  function SpawnProbability(v: Tile): real
    requires v == 1 || v == 2
  {
    if v == 1 then TwoProbability else FourProbability
  }

  function CountEmpty(s: seq<Tile>): (n: nat)
    ensures n <= |s|
  {
    if |s| == 0 then 0 else (if s[0] == 0 then 1 else 0) + CountEmpty(s[1..])
  }

  /** `num_empty`: the number of empty cells. */
  function NumEmpty(b: Board): (n: nat)
    ensures n <= N * N
  {
    CountEmpty(Flatten(b))
  }

  /** A position on the board: (row, column). */
  type Cell = c: (nat, nat) | c.0 < N && c.1 < N witness (0, 0)

  /** The row-major rank of a cell, 0 to 15 on the 4x4 board. */
  function Rank(c: Cell): (k: nat)
    ensures k < 16
  {
    4 * c.0 + c.1
  }

  function CellAt(b: Board, c: Cell): Tile {
    b[c.0][c.1]
  }

  /** The empty cells at row-major rank `k` and after, in row-major order. */
  function EmptyCellsFrom(b: Board, k: nat): (cs: seq<Cell>)
    requires k <= 16
    decreases 16 - k
  {
    if k == 16 then []
    else
      var c: Cell := (k / 4, k % 4);
      (if CellAt(b, c) == 0 then [c] else []) + EmptyCellsFrom(b, k + 1)
  }

  /** The empty cells in the order the source enumerates them. */
  function EmptyCells(b: Board): (cs: seq<Cell>) {
    EmptyCellsFrom(b, 0)
  }

  /** Every cell listed from rank `k` on is empty and has rank `k` or more. */
  lemma {:induction false} EmptyCellsFromEmpty(b: Board, k: nat)
    requires k <= 16
    ensures forall m :: 0 <= m < |EmptyCellsFrom(b, k)| ==>
      CellAt(b, EmptyCellsFrom(b, k)[m]) == 0 && k <= Rank(EmptyCellsFrom(b, k)[m])
    decreases 16 - k
  {
    if k < 16 {
      EmptyCellsFromEmpty(b, k + 1);
      var c: Cell := (k / 4, k % 4);
      assert Rank(c) == k;
    }
  }

  /** The cells listed from rank `k` on come in strictly increasing rank. */
  lemma {:induction false} EmptyCellsFromSorted(b: Board, k: nat)
    requires k <= 16
    ensures forall m, m' :: 0 <= m < m' < |EmptyCellsFrom(b, k)| ==>
      Rank(EmptyCellsFrom(b, k)[m]) < Rank(EmptyCellsFrom(b, k)[m'])
    decreases 16 - k
  {
    if k < 16 {
      EmptyCellsFromSorted(b, k + 1);
      EmptyCellsFromEmpty(b, k + 1);
      var c: Cell := (k / 4, k % 4);
      assert Rank(c) == k;
    }
  }

  lemma RankInverse(c: Cell)
    ensures Rank(c) / 4 == c.0 && Rank(c) % 4 == c.1
  {
  }

  /** Every empty cell of rank `k` or more is listed. */
  lemma {:induction false} EmptyCellsFromComplete(b: Board, k: nat)
    requires k <= 16
    ensures forall c: Cell :: k <= Rank(c) && CellAt(b, c) == 0 ==> c in EmptyCellsFrom(b, k)
    decreases 16 - k
  {
    if k < 16 {
      EmptyCellsFromComplete(b, k + 1);
      forall c: Cell | Rank(c) == k
        ensures c == (k / 4, k % 4)
      {
        RankInverse(c);
      }
    }
  }

  /**
   `EmptyCells` lists exactly the empty cells, each once, in row-major
   order.
   */
  lemma EmptyCellsExact(b: Board)
    ensures forall m :: 0 <= m < |EmptyCells(b)| ==> CellAt(b, EmptyCells(b)[m]) == 0
    ensures forall m, m' :: 0 <= m < m' < |EmptyCells(b)| ==>
      Rank(EmptyCells(b)[m]) < Rank(EmptyCells(b)[m'])
    ensures forall c: Cell :: CellAt(b, c) == 0 ==> c in EmptyCells(b)
  {
    EmptyCellsFromEmpty(b, 0);
    EmptyCellsFromSorted(b, 0);
    EmptyCellsFromComplete(b, 0);
  }

  lemma {:induction false} EmptyCellsFromCount(b: Board, k: nat)
    requires k <= 16
    ensures |EmptyCellsFrom(b, k)| == CountEmpty(Flatten(b)[k..])
    decreases 16 - k
  {
    if k < 16 {
      EmptyCellsFromCount(b, k + 1);
      FlattenAt(b, k / 4, k % 4);
      assert Flatten(b)[k..][1..] == Flatten(b)[k + 1..];
    }
  }

  /** There are as many enumerated empty cells as `num_empty` counts. */
  lemma EmptyCellsCount(b: Board)
    ensures |EmptyCells(b)| == NumEmpty(b)
  {
    EmptyCellsFromCount(b, 0);
    assert Flatten(b)[0..] == Flatten(b);
  }

  /** The board with cell `c` set to `v`. */
  function Place(b: Board, c: Cell, v: Tile): Board {
    b[c.0 := b[c.0][c.1 := v]]
  }

  /** `next` is `b` with the empty cell `c` set to `v` and nothing else changed. */
  ghost predicate SpawnedAt(b: Board, next: Board, c: Cell, v: Tile) {
    && CellAt(b, c) == 0
    && CellAt(next, c) == v
    && forall d: Cell :: d != c ==> CellAt(next, d) == CellAt(b, d)
  }

  /** Both spawn outcomes for each cell of `cells`, the 2 before the 4. */
  function Spawns(b: Board, cells: seq<Cell>, n: nat): (s: seq<(real, Board)>)
    requires n > 0 || |cells| == 0
    ensures |s| == 2 * |cells|
  {
    if |cells| == 0 then []
    else
      [(TwoProbability / n as real, Place(b, cells[0], 1)),
       (FourProbability / n as real, Place(b, cells[0], 2))]
      + Spawns(b, cells[1..], n)
  }

  /**
   `random_successors`: every board the chance turn can produce, with its
   probability.
   */
  function RandomSuccessors(b: Board): (s: seq<(real, Board)>)
    ensures |s| == 2 * NumEmpty(b)
  {
    EmptyCellsCount(b);
    Spawns(b, EmptyCells(b), NumEmpty(b))
  }

  lemma {:induction false} SpawnsAt(b: Board, cells: seq<Cell>, n: nat, m: nat)
    requires n > 0 && m < 2 * |cells|
    ensures Spawns(b, cells, n)[m]
         == (SpawnProbability(1 + m % 2) / n as real, Place(b, cells[m / 2], 1 + m % 2))
  {
    if m >= 2 {
      SpawnsAt(b, cells[1..], n, m - 2);
    }
  }

  /**
   The shape of the spawn distribution: two outcomes per empty cell; outcome
   m puts a 2 (m even) or a 4 (m odd) on the (m / 2)-th empty cell, changes
   nothing else, and has probability 0.9 / n or 0.1 / n for n empty cells.
   */
  lemma RandomSuccessorsShape(b: Board)
    ensures |RandomSuccessors(b)| == 2 * NumEmpty(b)
    ensures forall m :: 0 <= m < |RandomSuccessors(b)| ==> SpawnOutcome(b, RandomSuccessors(b), m)
  {
    EmptyCellsCount(b);
    forall m | 0 <= m < |RandomSuccessors(b)|
      ensures SpawnOutcome(b, RandomSuccessors(b), m)
    {
      RandomSuccessorAt(b, m);
    }
  }

  lemma RandomSuccessorAt(b: Board, m: nat)
    requires m < 2 * NumEmpty(b)
    ensures |EmptyCells(b)| == NumEmpty(b)
    ensures |RandomSuccessors(b)| == 2 * NumEmpty(b)
    ensures SpawnOutcome(b, RandomSuccessors(b), m)
  {
    EmptyCellsCount(b);
    var cells, n := EmptyCells(b), NumEmpty(b);
    assert RandomSuccessors(b) == Spawns(b, cells, n);
    var c, v := cells[m / 2], 1 + m % 2;
    assert CellAt(b, c) == 0 by {
      EmptyCellsExact(b);
    }
    SpawnsAt(b, cells, n, m);
    PlaceSpawns(b, c, v);
  }

  /**
   Outcome m of `s` puts a 2 (m even) or a 4 (m odd) on the (m / 2)-th empty
   cell of `b`, changes nothing else, and has probability 0.9 / n or 0.1 / n
   for n empty cells.
   */
  ghost predicate SpawnOutcome(b: Board, s: seq<(real, Board)>, m: nat)
    requires m < |s| && m / 2 < |EmptyCells(b)| && NumEmpty(b) > 0
  {
    && s[m].0 == SpawnProbability(1 + m % 2) / NumEmpty(b) as real
    && SpawnedAt(b, s[m].1, EmptyCells(b)[m / 2], 1 + m % 2)
  }

  lemma PlaceSpawns(b: Board, c: Cell, v: Tile)
    requires CellAt(b, c) == 0
    ensures SpawnedAt(b, Place(b, c, v), c, v)
  {
  }

  /** The sum of the probabilities of a list of outcomes. */
  function TotalProbability(s: seq<(real, Board)>): real {
    if |s| == 0 then 0.0 else s[0].0 + TotalProbability(s[1..])
  }

  lemma {:induction false} SpawnsTotal(b: Board, cells: seq<Cell>, n: nat)
    requires n > 0
    ensures TotalProbability(Spawns(b, cells, n)) == |cells| as real / n as real
  {
    if |cells| > 0 {
      var s := Spawns(b, cells, n);
      SpawnsTotal(b, cells[1..], n);
      assert s[1..][1..] == Spawns(b, cells[1..], n);
      var x := n as real;
      calc {
        TotalProbability(s);
        TwoProbability / x + (FourProbability / x + (|cells| - 1) as real / x);
        (TwoProbability + FourProbability + (|cells| - 1) as real) / x;
      }
    }
  }

  lemma {:induction false} SpawnsNonnegative(b: Board, cells: seq<Cell>, n: nat)
    requires n > 0
    ensures forall m :: 0 <= m < |Spawns(b, cells, n)| ==> Spawns(b, cells, n)[m].0 >= 0.0
  {
    if |cells| > 0 {
      SpawnsNonnegative(b, cells[1..], n);
    }
  }

  /** Every spawn outcome has a non-negative probability. */
  lemma RandomSuccessorsNonnegative(b: Board)
    ensures forall m :: 0 <= m < |RandomSuccessors(b)| ==> RandomSuccessors(b)[m].0 >= 0.0
  {
    EmptyCellsCount(b);
    if NumEmpty(b) > 0 {
      SpawnsNonnegative(b, EmptyCells(b), NumEmpty(b));
    }
  }

  /** The spawn probabilities sum to 1 whenever there is an empty cell. */
  lemma RandomSuccessorsTotal(b: Board)
    requires NumEmpty(b) > 0
    ensures TotalProbability(RandomSuccessors(b)) == 1.0
  {
    EmptyCellsCount(b);
    SpawnsTotal(b, EmptyCells(b), NumEmpty(b));
    DivideBySelf(NumEmpty(b) as real);
  }

  lemma DivideBySelf(x: real)
    requires x > 0.0
    ensures x / x == 1.0
  {
  }

  /**
   Every board a legal move produces has room for the next tile, so
   `add_random`'s draw from 0..n never sees n = 0 after a move.
   */
  lemma ApplyLeavesRoomToSpawn(b: Board, a: Action)
    requires Apply(b, a).Some?
    ensures NumEmpty(Apply(b, a).value) > 0
  {
    var next := Apply(b, a).value;
    ApplyLeavesEmptyCell(b, a);
    var i, j :| 0 <= i < N && 0 <= j < N && next[i][j] == 0;
    EmptyCellCounts(next, i, j);
  }

  /** A board with an empty cell has at least one empty cell to count. */
  lemma EmptyCellCounts(b: Board, i: nat, j: nat)
    requires i < N && j < N && b[i][j] == 0
    ensures NumEmpty(b) > 0
  {
    var c: Cell := (i, j);
    assert CellAt(b, c) == 0;
    EmptyCellsExact(b);
    EmptyCellsCount(b);
  }

  /**
   `add_random` with its two random draws as parameters: `picked` indexes
   the empty cells in row-major order, and `coin` is the 0.9 draw that
   chooses a 2 over a 4.
   */
  function AddRandom(b: Board, picked: nat, coin: bool): (r: Board)
    requires picked < NumEmpty(b)
    ensures NumEmpty(r) == NumEmpty(b) - 1
  {
    EmptyCellsCount(b);
    EmptyCellsExact(b);
    PlaceCount(b, EmptyCells(b)[picked], if coin then 1 else 2);
    Place(b, EmptyCells(b)[picked], if coin then 1 else 2)
  }

  /**
   The one-shot draw agrees with the enumeration: drawing `picked` and `coin`
   gives outcome 2 * picked (coin) or 2 * picked + 1 (no coin) of
   `RandomSuccessors`, whose probability is 0.9 / n or 0.1 / n.
   */
  lemma AddRandomIsSuccessor(b: Board, picked: nat, coin: bool)
    requires picked < NumEmpty(b)
    ensures |RandomSuccessors(b)| == 2 * NumEmpty(b)
    ensures var m := 2 * picked + (if coin then 0 else 1);
      && RandomSuccessors(b)[m].1 == AddRandom(b, picked, coin)
      && RandomSuccessors(b)[m].0 == (if coin then TwoProbability else FourProbability) / NumEmpty(b) as real
  {
    EmptyCellsCount(b);
    var cells, n := EmptyCells(b), NumEmpty(b);
    assert RandomSuccessors(b) == Spawns(b, cells, n);
    SpawnPicked(b, cells, n, picked, coin);
    assert AddRandom(b, picked, coin) == Place(b, cells[picked], if coin then 1 else 2);
  }

  /** The spawn outcome for the picked cell and coin sits at index 2 * picked, plus one for a 4. */
  lemma SpawnPicked(b: Board, cells: seq<Cell>, n: nat, picked: nat, coin: bool)
    requires n > 0 && picked < |cells|
    ensures var m, v := 2 * picked + (if coin then 0 else 1), (if coin then 1 else 2);
      Spawns(b, cells, n)[m] == (SpawnProbability(v) / n as real, Place(b, cells[picked], v))
  {
    var m := 2 * picked + (if coin then 0 else 1);
    assert m / 2 == picked && 1 + m % 2 == (if coin then 1 else 2);
    SpawnsAt(b, cells, n, m);
  }

  lemma {:induction false} CountEmptyUpdate(s: seq<Tile>, k: nat, v: Tile)
    requires k < |s| && s[k] == 0 && v != 0
    ensures CountEmpty(s[k := v]) == CountEmpty(s) - 1
  {
    if k > 0 {
      CountEmptyUpdate(s[1..], k - 1, v);
      assert s[k := v][1..] == s[1..][k - 1 := v];
    }
  }

  lemma PlaceCount(b: Board, c: Cell, v: Tile)
    requires CellAt(b, c) == 0 && v != 0
    ensures NumEmpty(Place(b, c, v)) == NumEmpty(b) - 1
  {
    FlattenAt(b, c.0, c.1);
    assert Flatten(Place(b, c, v)) == Flatten(b)[Rank(c) := v];
    CountEmptyUpdate(Flatten(b), Rank(c), v);
  }

  /** A spawn that changes only cell `c` is the board with that one cell written. */
  lemma SpawnedIsPlace(b: Board, next: Board, c: Cell, v: Tile)
    requires SpawnedAt(b, next, c, v)
    ensures next == Place(b, c, v)
  {
    forall i | 0 <= i < N
      ensures next[i] == Place(b, c, v)[i]
    {
      forall j | 0 <= j < N
        ensures next[i][j] == Place(b, c, v)[i][j]
      {
        var d: Cell := (i, j);
        assert CellAt(next, d) == next[i][j];
      }
    }
  }

  /** On a board whose only empty cell is `c`, every spawn outcome writes a 2 or a 4 into `c`. */
  lemma SingleGapSpawns(b: Board, c: Cell)
    requires forall d: Cell :: CellAt(b, d) == 0 ==> d == c
    ensures forall m :: 0 <= m < |RandomSuccessors(b)| ==>
      RandomSuccessors(b)[m].1 == Place(b, c, 1) || RandomSuccessors(b)[m].1 == Place(b, c, 2)
  {
    forall m | 0 <= m < |RandomSuccessors(b)|
      ensures RandomSuccessors(b)[m].1 == Place(b, c, 1) || RandomSuccessors(b)[m].1 == Place(b, c, 2)
    {
      SingleGapSpawn(b, c, m);
    }
  }

  lemma SingleGapSpawn(b: Board, c: Cell, m: nat)
    requires forall d: Cell :: CellAt(b, d) == 0 ==> d == c
    requires m < |RandomSuccessors(b)|
    ensures RandomSuccessors(b)[m].1 == Place(b, c, 1) || RandomSuccessors(b)[m].1 == Place(b, c, 2)
  {
    EmptyCellsCount(b);
    RandomSuccessorAt(b, m);
    var e := EmptyCells(b)[m / 2];
    assert CellAt(b, e) == 0 by {
      EmptyCellsExact(b);
    }
    SpawnedIsPlace(b, RandomSuccessors(b)[m].1, e, 1 + m % 2);
    assert m % 2 == 0 || m % 2 == 1;
  }

  /** Every spawn after the Left move on `StallBefore` blocks the board. */
  lemma StallLeftSpawnsBlock()
    ensures forall m :: 0 <= m < |RandomSuccessors(StallLeft)| ==> Blocked(RandomSuccessors(StallLeft)[m].1)
  {
    SingleGapSpawns(StallLeft, (0, 3));
    StallTopBlocks([4, 5, 6, 1]);
    StallTopBlocks([4, 5, 6, 2]);
    assert StallLeft[0][3 := 1] == [4, 5, 6, 1] && StallLeft[0][3 := 2] == [4, 5, 6, 2];
    assert Place(StallLeft, (0, 3), 1) == [[4, 5, 6, 1], [7, 8, 7, 8], [8, 7, 8, 7], [7, 8, 7, 8]];
    assert Place(StallLeft, (0, 3), 2) == [[4, 5, 6, 2], [7, 8, 7, 8], [8, 7, 8, 7], [7, 8, 7, 8]];
  }

  /** Every spawn after the Right move on `StallBefore` blocks the board. */
  lemma StallRightSpawnsBlock()
    ensures forall m :: 0 <= m < |RandomSuccessors(StallRight)| ==> Blocked(RandomSuccessors(StallRight)[m].1)
  {
    SingleGapSpawns(StallRight, (0, 0));
    StallTopBlocks([1, 4, 5, 6]);
    StallTopBlocks([2, 4, 5, 6]);
    assert StallRight[0][0 := 1] == [1, 4, 5, 6] && StallRight[0][0 := 2] == [2, 4, 5, 6];
    assert Place(StallRight, (0, 0), 1) == [[1, 4, 5, 6], [7, 8, 7, 8], [8, 7, 8, 7], [7, 8, 7, 8]];
    assert Place(StallRight, (0, 0), 2) == [[2, 4, 5, 6], [7, 8, 7, 8], [8, 7, 8, 7], [7, 8, 7, 8]];
  }
}
