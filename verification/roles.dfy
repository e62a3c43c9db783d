/**
 The two roles a board plays in a turn (src/board.rs, `PlayableBoard` and
 `RandableBoard`). A `Playable` board waits for the agent's move, a
 `Randable` board waits for the random tile; each offers only the operations
 of its phase, so a move and a spawn can never be confused or skipped.
 */
module Roles {
  import opened Row
  import opened Grid
  import opened Chance
  import opened Optional

  /** The agent's turn (a MAX node of the search). */
  datatype Playable = Playable(board: Board)

  /** The chance turn (a CHANCE node of the search). */
  datatype Randable = Randable(board: Board)

  lemma EmptyBoardCount()
    ensures NumEmpty(Empty) == N * N
  {
    assert Flatten(Empty) == seq(16, _ => 0);
    ZerosCount(16);
  }

  lemma {:induction false} ZerosCount(n: nat)
    ensures CountEmpty(seq(n, _ => 0)) == n
  {
    if n > 0 {
      assert seq(n, _ => 0)[1..] == seq(n - 1, _ => 0);
      ZerosCount(n - 1);
    }
  }

  /**
   `PlayableBoard::init`: one random tile on the empty board, the two draws
   given as parameters.
   */
  function Init(picked: nat, coin: bool): (p: Playable)
    requires picked < N * N
    ensures NumEmpty(p.board) == N * N - 1
  {
    EmptyBoardCount();
    Playable(AddRandom(Empty, picked, coin))
  }

  /** `PlayableBoard::apply`: the move, handing the turn to chance. */
  function ApplyAction(p: Playable, a: Action): (r: Option<Randable>)
    ensures r.Some? ==> r.value.board != p.board && r.value.board == Move(p.board, a)
    ensures r.None? ==> Move(p.board, a) == p.board
  {
    match Apply(p.board, a)
    case Some(next) => Some(Randable(next))
    case None => None
  }

  predicate Applicable(p: Playable, a: Action) {
    ApplyAction(p, a).Some?
  }

  /** Game over: no action changes the board. */
  predicate IsTerminal(p: Playable) {
    forall a :: !Applicable(p, a)
  }

  /** A full board without equal orthogonal neighbours is game over. */
  lemma BlockedIsTerminal(p: Playable)
    requires Blocked(p.board)
    ensures IsTerminal(p)
  {
    BlockedHasNoMove(p.board);
  }

  /** True when some cell of `s` is at least `i`. */
  function AnyAtLeast(s: seq<Tile>, i: nat): (r: bool)
    ensures r <==> exists k :: 0 <= k < |s| && s[k] >= i
  {
    if |s| == 0 then false
    else if s[0] >= i then true
    else
      assert forall k :: 1 <= k < |s| ==> s[k] == s[1..][k - 1];
      AnyAtLeast(s[1..], i)
  }

  /** `has_at_least_tile`: some cell holds exponent `i` or more. */
  function HasAtLeastTile(p: Playable, i: nat): (r: bool)
    ensures r <==> exists row, col :: 0 <= row < N && 0 <= col < N && p.board[row][col] >= i
  {
    FlattenCovers(p.board);
    AnyAtLeast(Flatten(p.board), i)
  }

  /** The flattened board lists every cell once, in row-major order. */
  lemma FlattenCovers(b: Board)
    ensures forall k :: 0 <= k < 16 ==> Flatten(b)[k] == b[k / 4][k % 4]
    ensures forall row, col :: 0 <= row < N && 0 <= col < N ==> Flatten(b)[4 * row + col] == b[row][col]
  {
    forall k | 0 <= k < 16
      ensures Flatten(b)[k] == b[k / 4][k % 4]
    {
      FlattenAt(b, k / 4, k % 4);
    }
    forall row, col | 0 <= row < N && 0 <= col < N
      ensures Flatten(b)[4 * row + col] == b[row][col]
    {
      FlattenAt(b, row, col);
    }
  }

  /** `RandableBoard::with_random_tile`, the two draws given as parameters. */
  function WithRandomTile(r: Randable, picked: nat, coin: bool): (p: Playable)
    requires picked < NumEmpty(r.board)
    ensures NumEmpty(p.board) == NumEmpty(r.board) - 1
  {
    Playable(AddRandom(r.board, picked, coin))
  }

  /** `RandableBoard::successors`: the spawn distribution, handing the turn back. */
  function Successors(r: Randable): (s: seq<(real, Playable)>)
    ensures |s| == |RandomSuccessors(r.board)|
    ensures forall m :: 0 <= m < |s| ==>
      s[m].0 == RandomSuccessors(r.board)[m].0 && s[m].1.board == RandomSuccessors(r.board)[m].1
  {
    var rs := RandomSuccessors(r.board);
    seq(|rs|, m requires 0 <= m < |rs| => (rs[m].0, Playable(rs[m].1)))
  }

  /** `RandableBoard::evaluate`: the heuristic, a parameter of the model. */
  function Evaluate(h: Board -> real, r: Randable): real {
    h(r.board)
  }
}
