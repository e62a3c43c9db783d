/**
 The 4x4 board and the four directional moves (src/board.rs, `Board`,
 `Action`, `ALL_ACTIONS`). Every move is the row primitive `PushLeft` applied
 under one of two self-inverse symmetries: `Transposed` (rows become columns)
 and `Mirrored` (each row read right to left).
 */
module Grid {
  import opened Row
  import opened Optional

  /** N rows of N cells; `b[i][j]` is the cell in row i, column j. */
  type Board = b: seq<Row> | |b| == N witness [EmptyRow, EmptyRow, EmptyRow, EmptyRow]

  /** The completely empty board (not the initial board). */
  const Empty: Board := [EmptyRow, EmptyRow, EmptyRow, EmptyRow]

  datatype Action = Up | Down | Left | Right

  /** The canonical enumeration order; it decides ties between actions. */
  const AllActions: seq<Action> := [Up, Down, Left, Right]

  /** The position of an action in `AllActions`. */
  function Index(a: Action): (i: nat)
    ensures i < |AllActions| && AllActions[i] == a
  {
    match a
    case Up => 0
    case Down => 1
    case Left => 2
    case Right => 3
  }

  /** Column `j`, read from the top row down. */
  function Column(b: Board, j: nat): Row
    requires j < N
  {
    seq(N, i requires 0 <= i < N => b[i][j])
  }

  /** A row read from right to left. */
  function Reversed(r: Row): Row {
    seq(N, j requires 0 <= j < N => r[N - 1 - j])
  }

  /** Rows and columns exchanged (`transposed` in the source). */
  function Transposed(b: Board): (r: Board)
    ensures forall i, j :: 0 <= i < N && 0 <= j < N ==> r[i][j] == b[j][i]
  {
    seq(N, i requires 0 <= i < N => Column(b, i))
  }

  /** Every row read right to left (`swap_lr` in the source). */
  function Mirrored(b: Board): (r: Board)
    ensures forall i, j :: 0 <= i < N && 0 <= j < N ==> r[i][j] == b[i][N - 1 - j]
  {
    seq(N, i requires 0 <= i < N => Reversed(b[i]))
  }

  /** `Board::push_left`: the row primitive on every row. */
  function PushLeftAll(b: Board): Board {
    seq(N, i requires 0 <= i < N => PushLeft(b[i]))
  }

  /** The board an action produces, whether or not anything moved. */
  function Move(b: Board, a: Action): Board {
    match a
    case Left => PushLeftAll(b)
    case Up => Transposed(PushLeftAll(Transposed(b)))
    case Down => Transposed(Mirrored(PushLeftAll(Mirrored(Transposed(b)))))
    case Right => Mirrored(PushLeftAll(Mirrored(b)))
  }

  /**
   `Board::apply`: the resulting board when the action changes at least one
   cell, and `None` when it is not applicable.
   */
  function Apply(b: Board, a: Action): (r: Option<Board>)
    ensures r.Some? ==> r.value != b && r.value == Move(b, a)
    ensures r.None? ==> Move(b, a) == b
  {
    var next := Move(b, a);
    if b != next then Some(next) else None
  }

  lemma TransposeInvolution(b: Board)
    ensures Transposed(Transposed(b)) == b
  {
    forall i | 0 <= i < N
      ensures Transposed(Transposed(b))[i] == b[i]
    {
    }
  }

  lemma MirrorInvolution(b: Board)
    ensures Mirrored(Mirrored(b)) == b
  {
    forall i | 0 <= i < N
      ensures Mirrored(Mirrored(b))[i] == b[i]
    {
    }
  }

  /** The two-index swap loop of `swap_lr` on one row (src/board.rs:284-290). */
  method SwapRow(row: Row) returns (r: Row)
    ensures r == Reversed(row)
  {
    r := row;
    var i := 0;
    var j := N - 1;
    while i < j
      invariant i + j == N - 1 && 0 <= i
      invariant forall k {:trigger r[k]} :: 0 <= k < N ==> r[k] == (if k < i || j < k then row[N - 1 - k] else row[k])
      decreases j - i
    {
      var tmp := r[i];
      assert tmp == row[i] && r[j] == row[j];
      r := r[i := r[j]][j := tmp];
      i := i + 1;
      j := j - 1;
    }
  }

  /** `swap_lr` (src/board.rs:282-292): reverses every row in place. */
  method SwapLr(b: Board) returns (m: Board)
    ensures m == Mirrored(b)
  {
    m := b;
    var i := 0;
    while i < N
      invariant 0 <= i <= N
      invariant forall k :: 0 <= k < N ==> m[k] == (if k < i then Reversed(b[k]) else b[k])
    {
      var row := SwapRow(m[i]);
      m := m[i := row];
      i := i + 1;
    }
  }

  /**
   `transpose` (src/board.rs:295-303): swaps every cell below the diagonal
   with its mirror image above it, in place.
   */
  method Transpose(b: Board) returns (t: Board)
    ensures t == Transposed(b)
  {
    t := b;
    var i := 0;
    while i < N
      invariant 0 <= i <= N
      invariant forall r, c {:trigger t[r][c]} :: 0 <= r < N && 0 <= c < N ==>
        t[r][c] == (if r < i && c < i then b[c][r] else b[r][c])
    {
      var j := 0;
      while j < i
        invariant 0 <= j <= i
        invariant forall r, c {:trigger t[r][c]} :: 0 <= r < N && 0 <= c < N ==>
          t[r][c] == (if (r < i && c < i) || (r == i && c < j) || (c == i && r < j) then b[c][r] else b[r][c])
      {
        var tmp := t[i][j];
        t := t[i := t[i][j := t[j][i]]];
        t := t[j := t[j][i := tmp]];
        j := j + 1;
      }
      i := i + 1;
    }
    forall r | 0 <= r < N
      ensures t[r] == Transposed(b)[r]
    {
    }
  }

  /** `Board::push_left` (src/board.rs:313-317): the row loop on every row. */
  method PushLeftRows(b: Board) returns (p: Board)
    ensures p == PushLeftAll(b)
  {
    p := b;
    var i := 0;
    while i < N
      invariant 0 <= i <= N
      invariant forall k :: 0 <= k < N ==> p[k] == (if k < i then PushLeft(b[k]) else b[k])
    {
      var row := PushLeftInPlace(p[i]);
      p := p[i := row];
      i := i + 1;
    }
  }

  /**
   `Board::apply` as the source writes it (src/board.rs:188-221): copy the
   board, transform the copy in place, compare it with the original.
   */
  method ApplyInPlace(b: Board, a: Action) returns (r: Option<Board>)
    ensures r == Apply(b, a)
  {
    var next := b;
    match a {
      case Left =>
        next := PushLeftRows(next);
      case Up =>
        next := Transpose(next);
        next := PushLeftRows(next);
        next := Transpose(next);
      case Down =>
        next := Transpose(next);
        next := SwapLr(next);
        next := PushLeftRows(next);
        next := SwapLr(next);
        next := Transpose(next);
      case Right =>
        next := SwapLr(next);
        next := PushLeftRows(next);
        next := SwapLr(next);
    }
    if b != next {
      r := Some(next);
    } else {
      r := None;
    }
  }

  /**
   Where the i-th cell of the k-th line of an action lies: lines are read
   starting from the edge the tiles move toward.
   */
  function LineCell(a: Action, k: nat, i: nat): (rc: (nat, nat))
    requires k < N && i < N
    ensures rc.0 < N && rc.1 < N
  {
    match a
    case Left => (k, i)
    case Right => (k, N - 1 - i)
    case Up => (i, k)
    case Down => (N - 1 - i, k)
  }

  /** The k-th line of `b` for action `a`, read toward the edge the tiles move to. */
  function Line(b: Board, a: Action, k: nat): Row
    requires k < N
  {
    seq(N, i requires 0 <= i < N => b[LineCell(a, k, i).0][LineCell(a, k, i).1])
  }

  /** Every cell lies on some line of every action. */
  lemma CellOnLine(a: Action, r: nat, c: nat) returns (k: nat, i: nat)
    requires r < N && c < N
    ensures k < N && i < N && LineCell(a, k, i) == (r, c)
  {
    match a
    case Left => k, i := r, c;
    case Right => k, i := r, N - 1 - c;
    case Up => k, i := c, r;
    case Down => k, i := c, N - 1 - r;
  }

  /** A board is determined by its lines, for any action. */
  lemma LinesDetermineBoard(x: Board, y: Board, a: Action)
    requires forall k :: 0 <= k < N ==> Line(x, a, k) == Line(y, a, k)
    ensures x == y
  {
    forall r | 0 <= r < N
      ensures x[r] == y[r]
    {
      forall c | 0 <= c < N
        ensures x[r][c] == y[r][c]
      {
        var k, i := CellOnLine(a, r, c);
        assert Line(x, a, k)[i] == Line(y, a, k)[i];
      }
    }
  }

  /**
   What a move does: every line of the action is pushed toward its edge with
   the row primitive. With `LinesDetermineBoard` this fixes `Move` completely,
   so the symmetry compositions of `Move` agree with the direct reading.
   */
  lemma MoveSlidesLines(b: Board, a: Action)
    ensures forall k :: 0 <= k < N ==> Line(Move(b, a), a, k) == PushLeft(Line(b, a, k))
  {
    forall k | 0 <= k < N
      ensures Line(Move(b, a), a, k) == PushLeft(Line(b, a, k))
    {
      match a
      case Left =>
        assert Line(b, a, k) == b[k];
      case Right =>
        assert Line(b, a, k) == Mirrored(b)[k];
      case Up =>
        assert Line(b, a, k) == Transposed(b)[k];
      case Down =>
        assert Line(b, a, k) == Mirrored(Transposed(b))[k];
    }
  }

  /** After a move every line is packed toward the edge the tiles moved to. */
  lemma MovePacksLines(b: Board, a: Action)
    ensures forall k :: 0 <= k < N ==> Packed(Line(Move(b, a), a, k))
  {
    MoveSlidesLines(b, a);
  }

  /** The cells in row-major order, as the source's `iter().flatten()` visits them. */
  function Flatten(b: Board): (s: seq<Tile>)
    ensures |s| == 16
  {
    var first: seq<Tile> := b[0];
    first + b[1] + b[2] + b[3]
  }

  lemma FlattenAt(b: Board, i: nat, j: nat)
    requires i < N && j < N
    ensures Flatten(b)[4 * i + j] == b[i][j]
  {
  }

  /** True when `b` has at least one empty cell. */
  predicate HasEmpty(b: Board) {
    exists i, j :: 0 <= i < N && 0 <= j < N && b[i][j] == 0
  }

  /**
   Every board produced by a legal move has an empty cell: the move either
   merged two tiles or slid a tile into an empty cell.
   */
  lemma ApplyLeavesEmptyCell(b: Board, a: Action)
    requires Apply(b, a).Some?
    ensures HasEmpty(Apply(b, a).value)
  {
    var m := Move(b, a);
    MoveSlidesLines(b, a);
    if forall k :: 0 <= k < N ==> Line(m, a, k) == Line(b, a, k) {
      LinesDetermineBoard(m, b, a);
      assert false;
    }
    var k :| 0 <= k < N && Line(m, a, k) != Line(b, a, k);
    PushLeftChangeLeavesGap(Line(b, a, k));
    var rc := LineCell(a, k, N - 1);
    assert m[rc.0][rc.1] == Line(m, a, k)[N - 1];
  }

  /**
   A full board in which no two orthogonal neighbours are equal: the
   game-over position.
   */
  predicate Blocked(b: Board) {
    forall k :: 0 <= k < N ==>
      AllTiles(b[k]) && NoEqualNeighbours(b[k]) && NoEqualNeighbours(Column(b, k))
  }

  /** No action applies to a blocked board. */
  lemma BlockedHasNoMove(b: Board)
    requires Blocked(b)
    ensures forall a :: Apply(b, a).None?
  {
    forall a: Action
      ensures Apply(b, a).None?
    {
      forall k | 0 <= k < N
        ensures AllTiles(Line(b, a, k)) && NoEqualNeighbours(Line(b, a, k))
      {
        BlockedLine(b, a, k);
      }
      FullLinesStay(b, a);
    }
  }

  /** An action whose every line is full and has no two equal neighbours does not apply. */
  lemma FullLinesStay(b: Board, a: Action)
    requires forall k :: 0 <= k < N ==> AllTiles(Line(b, a, k)) && NoEqualNeighbours(Line(b, a, k))
    ensures Apply(b, a).None?
  {
    MoveSlidesLines(b, a);
    forall k | 0 <= k < N
      ensures Line(Move(b, a), a, k) == Line(b, a, k)
    {
      PushLeftBlocked(Line(b, a, k));
    }
    LinesDetermineBoard(Move(b, a), b, a);
  }

  /** Every line of a blocked board is full and has no two equal neighbours. */
  lemma BlockedLine(b: Board, a: Action, k: nat)
    requires Blocked(b) && k < N
    ensures AllTiles(Line(b, a, k)) && NoEqualNeighbours(Line(b, a, k))
  {
    var l := Line(b, a, k);
    match a {
      case Left =>
        assert l == b[k];
      case Right =>
        assert l == Reversed(b[k]);
      case Up =>
        assert l == Column(b, k);
      case Down =>
        assert l == Reversed(Column(b, k));
    }
  }

  /** True when no cell of `b` exceeds `bound`. */
  predicate CellsAtMost(b: Board, bound: nat) {
    forall i, j :: 0 <= i < N && 0 <= j < N ==> b[i][j] <= bound
  }

  /** A move raises the largest exponent on the board by at most one. */
  lemma MoveRaisesByAtMostOne(b: Board, a: Action, bound: nat)
    requires CellsAtMost(b, bound)
    ensures CellsAtMost(Move(b, a), bound + 1)
  {
    MoveSlidesLines(b, a);
    forall r, c | 0 <= r < N && 0 <= c < N
      ensures Move(b, a)[r][c] <= bound + 1
    {
      var k, i := CellOnLine(a, r, c);
      PushLeftBound(Line(b, a, k), bound);
      assert Move(b, a)[r][c] == Line(Move(b, a), a, k)[i];
    }
  }

  /**
   The source keeps exponents in `u8` and computes `value + 1`: on a board
   whose cells are all below 255 that sum never wraps, so the unbounded
   model agrees with the source.
   */
  lemma ApplyFitsByte(b: Board, a: Action)
    requires CellsAtMost(b, 254)
    ensures Apply(b, a).Some? ==> CellsAtMost(Apply(b, a).value, 255)
  {
    MoveRaisesByAtMostOne(b, a, 254);
  }

  /** The tile mass of a board: the sum of the displayed values of its tiles. */
  function BoardMass(b: Board): nat {
    Mass(b[0]) + Mass(b[1]) + Mass(b[2]) + Mass(b[3])
  }

  /** The tile mass of a board is the sum of the masses of its lines, for any action. */
  lemma MassByLines(b: Board, a: Action)
    ensures BoardMass(b) == Mass(Line(b, a, 0)) + Mass(Line(b, a, 1)) + Mass(Line(b, a, 2)) + Mass(Line(b, a, 3))
  {
    MassOfFour(b[0]);
    MassOfFour(b[1]);
    MassOfFour(b[2]);
    MassOfFour(b[3]);
    MassOfFour(Line(b, a, 0));
    MassOfFour(Line(b, a, 1));
    MassOfFour(Line(b, a, 2));
    MassOfFour(Line(b, a, 3));
  }

  /** Moves conserve tile mass: merging 2^k and 2^k gives 2^(k+1). */
  lemma MoveMass(b: Board, a: Action)
    ensures BoardMass(Move(b, a)) == BoardMass(b)
  {
    MoveSlidesLines(b, a);
    MassByLines(b, a);
    MassByLines(Move(b, a), a);
    PushLeftMass(Line(b, a, 0));
    PushLeftMass(Line(b, a, 1));
    PushLeftMass(Line(b, a, 2));
    PushLeftMass(Line(b, a, 3));
  }

  /** The board and the expected result of the source's unit test of `apply`. */
  const DownBefore: Board := [[1, 2, 1, 0], [4, 1, 0, 0], [3, 0, 0, 0], [0, 0, 0, 0]]
  const DownAfter: Board := [[0, 0, 0, 0], [1, 0, 0, 0], [4, 2, 0, 0], [3, 1, 1, 0]]

  lemma DownExampleLinesBefore()
    ensures Line(DownBefore, Down, 0) == [0, 3, 4, 1]
    ensures Line(DownBefore, Down, 1) == [0, 0, 1, 2]
    ensures Line(DownBefore, Down, 2) == [0, 0, 0, 1]
    ensures Line(DownBefore, Down, 3) == [0, 0, 0, 0]
  {
  }

  lemma DownExampleLinesAfter()
    ensures Line(DownAfter, Down, 0) == [3, 4, 1, 0]
    ensures Line(DownAfter, Down, 1) == [1, 2, 0, 0]
    ensures Line(DownAfter, Down, 2) == [1, 0, 0, 0]
    ensures Line(DownAfter, Down, 3) == [0, 0, 0, 0]
  {
  }

  lemma DownExamplePushes()
    ensures PushLeft([0, 3, 4, 1]) == [3, 4, 1, 0]
    ensures PushLeft([0, 0, 1, 2]) == [1, 2, 0, 0]
    ensures PushLeft([0, 0, 0, 1]) == [1, 0, 0, 0]
    ensures PushLeft([0, 0, 0, 0]) == [0, 0, 0, 0]
  {
  }

  /** The source's unit test of `apply` with Down (src/board.rs:393-400). */
  lemma ApplyDownExample()
    ensures Apply(DownBefore, Down) == Some(DownAfter)
  {
    MoveSlidesLines(DownBefore, Down);
    DownExampleLinesBefore();
    DownExamplePushes();
    DownExampleLinesAfter();
    LinesDetermineBoard(Move(DownBefore, Down), DownAfter, Down);
    assert DownBefore[0][0] != DownAfter[0][0];
  }

  /**
   A board on which only Left and Right apply. Each of them merges the two
   3s of the top row and leaves one gap, and whatever spawns there blocks
   the board.
   */
  const StallBefore: Board := [[3, 3, 5, 6], [7, 8, 7, 8], [8, 7, 8, 7], [7, 8, 7, 8]]
  const StallLeft: Board := [[4, 5, 6, 0], [7, 8, 7, 8], [8, 7, 8, 7], [7, 8, 7, 8]]
  const StallRight: Board := [[0, 4, 5, 6], [7, 8, 7, 8], [8, 7, 8, 7], [7, 8, 7, 8]]

  lemma StallMoves()
    ensures Apply(StallBefore, Left) == Some(StallLeft)
    ensures Apply(StallBefore, Right) == Some(StallRight)
    ensures Apply(StallBefore, Up).None? && Apply(StallBefore, Down).None?
  {
    StallLeftMove();
    StallRightMove();
    StallColumnsStay(Up);
    StallColumnsStay(Down);
  }

  lemma StallPushLeft()
    ensures PushLeft([3, 3, 5, 6]) == [4, 5, 6, 0]
  {
  }

  lemma StallPushRight()
    ensures PushLeft([6, 5, 3, 3]) == [6, 5, 4, 0]
  {
  }

  /** The three lower rows, read either way, are full and have no equal neighbours. */
  lemma StallRowsStay()
    ensures PushLeft([7, 8, 7, 8]) == [7, 8, 7, 8]
    ensures PushLeft([8, 7, 8, 7]) == [8, 7, 8, 7]
  {
    PushLeftBlocked([7, 8, 7, 8]);
    PushLeftBlocked([8, 7, 8, 7]);
  }

  lemma StallLeftMove()
    ensures Move(StallBefore, Left) == StallLeft
  {
    StallPushLeft();
    StallRowsStay();
    var m := Move(StallBefore, Left);
    assert m[0] == StallLeft[0] && m[1] == StallLeft[1];
    assert m[2] == StallLeft[2] && m[3] == StallLeft[3];
  }

  lemma StallReversals()
    ensures Reversed([3, 3, 5, 6]) == [6, 5, 3, 3]
    ensures Reversed([6, 5, 4, 0]) == [0, 4, 5, 6]
    ensures Reversed([7, 8, 7, 8]) == [8, 7, 8, 7]
    ensures Reversed([8, 7, 8, 7]) == [7, 8, 7, 8]
  {
  }

  /** Row k of the Right move: the row read backwards, pushed, and read backwards again. */
  lemma StallRightRow(k: nat)
    requires k < N
    ensures Move(StallBefore, Right)[k] == StallRight[k]
  {
    assert Move(StallBefore, Right)[k] == Reversed(PushLeft(Reversed(StallBefore[k])));
    StallReversals();
    if k == 0 {
      StallPushRight();
    } else {
      StallRowsStay();
    }
  }

  lemma StallRightMove()
    ensures Move(StallBefore, Right) == StallRight
  {
    StallRightRow(0);
    StallRightRow(1);
    StallRightRow(2);
    StallRightRow(3);
  }

  lemma StallColumnsStay(a: Action)
    requires a == Up || a == Down
    ensures Apply(StallBefore, a).None?
  {
    forall k | 0 <= k < N
      ensures AllTiles(Line(StallBefore, a, k)) && NoEqualNeighbours(Line(StallBefore, a, k))
    {
    }
    FullLinesStay(StallBefore, a);
  }

  /**
   The lower three rows of `StallBefore` under any full top row without equal
   neighbours that differs from the row below it in every column: a
   blocked board.
   */
  lemma StallTopBlocks(top: Row)
    requires AllTiles(top) && NoEqualNeighbours(top)
    requires forall j :: 0 <= j < N ==> top[j] != StallBefore[1][j]
    ensures Blocked([top, [7, 8, 7, 8], [8, 7, 8, 7], [7, 8, 7, 8]])
  {
    var b: Board := [top, [7, 8, 7, 8], [8, 7, 8, 7], [7, 8, 7, 8]];
    forall k | 0 <= k < N
      ensures AllTiles(b[k]) && NoEqualNeighbours(b[k]) && NoEqualNeighbours(Column(b, k))
    {
      assert Column(b, k) == [top[k], b[1][k], b[2][k], b[3][k]];
    }
  }
}
