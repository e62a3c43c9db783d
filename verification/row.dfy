/**
 A single row of the 2048 board and the canonical "push left" move on it
 (src/board.rs, `push_left`). Every directional move of the game reduces to
 this one primitive.

 A cell holds a tile exponent: 0 is an empty cell and k > 0 is the tile 2^k.
 */
module Row {

  /** Side length of the board, so the length of every row. */
  const N: nat := 4

  /** A tile exponent. The source stores it in a `u8`; see `PushLeftBound`. */
  type Tile = nat

  type Row = r: seq<Tile> | |r| == N witness [0, 0, 0, 0]

  /** A row of empty cells. */
  const EmptyRow: Row := [0, 0, 0, 0]

  /** True when no cell of `s` is empty. */
  predicate AllTiles(s: seq<Tile>) {
    forall k :: 0 <= k < |s| ==> s[k] != 0
  }

  /** No empty cell comes before a non-empty one: every tile sits at the left. */
  predicate Packed(s: seq<Tile>) {
    forall i, j :: 0 <= i < j < |s| && s[i] == 0 ==> s[j] == 0
  }

  /** The non-empty cells of `s`, in their left-to-right order. */
  function Tiles(s: seq<Tile>): (t: seq<Tile>)
    ensures |t| <= |s|
    ensures AllTiles(t)
  {
    if |s| == 0 then []
    else if s[0] == 0 then Tiles(s[1..])
    else [s[0]] + Tiles(s[1..])
  }

  /**
   One left-to-right merging pass over a run of tiles: two equal neighbours
   become one tile of the next exponent, and the merged tile takes no part in
   a further merge during the same pass.
   */
  function Merge(t: seq<Tile>): (m: seq<Tile>)
    ensures |m| <= |t|
    ensures AllTiles(t) ==> AllTiles(m)
  {
    if |t| >= 2 && t[0] == t[1] then [t[0] + 1] + Merge(t[2..])
    else if |t| >= 1 then [t[0]] + Merge(t[1..])
    else []
  }

  function Zeros(n: nat): (z: seq<Tile>)
  {
    seq(n, _ => 0)
  }

  /**
   Reference definition of pushing a row left: slide the tiles to the left,
   merge them in one pass, and fill the rest of the row with empty cells.
   */
  function PushLeft(r: Row): (p: Row)
    ensures Packed(p)
    ensures forall k :: 0 <= k < N && p[k] != 0 ==> k < |Tiles(r)|
  {
    var m := Merge(Tiles(r));
    m + Zeros(N - |m|)
  }

  /** The tiles seen from position `i` on, taken one cell at a time. */
  lemma TilesStep(s: seq<Tile>, i: nat)
    requires i < |s|
    ensures Tiles(s[i..]) == (if s[i] == 0 then [] else [s[i]]) + Tiles(s[i + 1..])
  {
    assert s[i..][1..] == s[i + 1..];
  }

  /** Merging a run that starts with two equal tiles. */
  lemma MergePair(v: Tile, rest: seq<Tile>)
    ensures Merge([v] + ([v] + rest)) == [v + 1] + Merge(rest)
  {
    var t := [v] + ([v] + rest);
    assert t[2..] == rest;
  }

  /** Merging a run whose first tile differs from the second (or stands alone). */
  lemma MergeSingle(v: Tile, rest: seq<Tile>)
    requires |rest| == 0 || rest[0] != v
    ensures Merge([v] + rest) == [v] + Merge(rest)
  {
    var t := [v] + rest;
    assert t[1..] == rest;
  }

  /**
   The source's two-index, single-pass loop (src/board.rs:333-367): `read`
   scans the row, `write` is the next cell to fill. Each step takes one tile,
   skips the empty cells after it and merges it with the next tile if that
   tile is equal (`TakeTile`). The row is updated in place, which is sound
   because every write lands before a cell that is still to be read.
   */
  method PushLeftInPlace(input: Row) returns (row: Row)
    ensures row == PushLeft(input)
  {
    row := input;
    var write := 0;
    var read := 0;
    while read < N
      invariant write <= read <= N
      invariant forall k :: read <= k < N ==> row[k] == input[k]
      invariant row[..write] + Merge(Tiles(input[read..])) == Merge(Tiles(input))
      decreases N - read
    {
      if row[read] == 0 {
        TilesStep(input, read);
        read := read + 1;
      } else {
        var at := read;
        var x;
        x, read := TakeTile(row, input, at);
        WriteStep(row, write, x, Merge(Tiles(input[read..])));
        row := row[write := x];
        write := write + 1;
      }
    }
    assert input[read..] == [];
    row := FillEmpty(row, write);
  }

  /** Writing `x` at `write` extends the finished prefix by `x`. */
  lemma WriteStep(row: seq<Tile>, write: nat, x: Tile, rest: seq<Tile>)
    requires write < |row|
    ensures row[write := x][..write + 1] + rest == row[..write] + ([x] + rest)
  {
    assert row[write := x][..write + 1] == row[..write] + [x];
  }

  /** The closing `fill(0)` of the source: empties every cell from `write` on. */
  method FillEmpty(row: Row, write: nat) returns (filled: Row)
    requires write <= N
    ensures filled == row[..write] + Zeros(N - write)
  {
    filled := row;
    var k := write;
    while k < N
      invariant write <= k <= N
      invariant filled[..write] == row[..write]
      invariant forall i :: write <= i < k ==> filled[i] == 0
      decreases N - k
    {
      filled := filled[k := 0];
      k := k + 1;
    }
  }

  /**
   One step of the loop of `PushLeftInPlace` from a tile at `at`: skip the
   empty cells after it and merge it with the next tile when that tile is
   equal. Returns the value to write and where reading resumes.
   */
  method TakeTile(row: Row, input: Row, at: nat) returns (x: Tile, read: nat)
    requires at < N && row[at] != 0
    requires forall k :: at <= k < N ==> row[k] == input[k]
    ensures at < read <= N
    ensures Merge(Tiles(input[at..])) == [x] + Merge(Tiles(input[read..]))
  {
    var value := row[at];
    read := at + 1;
    TilesStep(input, at);
    if read < N {
      while read < N && row[read] == 0
        invariant at < read <= N
        invariant Tiles(input[at + 1..]) == Tiles(input[read..])
        decreases N - read
      {
        TilesStep(input, read);
        read := read + 1;
      }
      if read < N && row[read] == value {
        TilesStep(input, read);
        MergePair(value, Tiles(input[read + 1..]));
        x := value + 1;
        read := read + 1;
      } else {
        if read < N {
          TilesStep(input, read);
        } else {
          assert input[read..] == [];
        }
        MergeSingle(value, Tiles(input[read..]));
        x := value;
      }
    } else {
      assert input[read..] == [];
      MergeSingle(value, []);
      x := value;
    }
  }

  /** 2^k. */
  function Pow2(k: nat): (p: nat)
    ensures p >= 1
  {
    if k == 0 then 1 else 2 * Pow2(k - 1)
  }

  /** The displayed value of a cell: 2^k for a tile, nothing for an empty cell. */
  function Weight(t: Tile): nat {
    if t == 0 then 0 else Pow2(t)
  }

  /** The tile mass of a row: the sum of the displayed values of its tiles. */
  function Mass(s: seq<Tile>): nat {
    if |s| == 0 then 0 else Weight(s[0]) + Mass(s[1..])
  }

  /** The tile mass of a four-cell row, term by term. */
  lemma MassOfFour(s: seq<Tile>)
    requires |s| == 4
    ensures Mass(s) == Weight(s[0]) + Weight(s[1]) + Weight(s[2]) + Weight(s[3])
  {
    assert s[1..][1..] == s[2..];
    assert s[2..][1..] == s[3..];
    assert s[3..][1..] == [];
    assert Mass(s[3..]) == Weight(s[3]);
    assert Mass(s[2..]) == Weight(s[2]) + Mass(s[3..]);
    assert Mass(s[1..]) == Weight(s[1]) + Mass(s[2..]);
  }

  lemma {:induction false} MassOfTiles(s: seq<Tile>)
    ensures Mass(Tiles(s)) == Mass(s)
  {
    if |s| > 0 {
      MassOfTiles(s[1..]);
      if s[0] != 0 {
        assert ([s[0]] + Tiles(s[1..]))[1..] == Tiles(s[1..]);
      }
    }
  }

  lemma {:induction false} MergeMass(t: seq<Tile>)
    requires AllTiles(t)
    ensures Mass(Merge(t)) == Mass(t)
  {
    if |t| >= 2 && t[0] == t[1] {
      MergeMass(t[2..]);
      assert ([t[0] + 1] + Merge(t[2..]))[1..] == Merge(t[2..]);
      assert t[1..][1..] == t[2..];
    } else if |t| >= 1 {
      MergeMass(t[1..]);
      assert ([t[0]] + Merge(t[1..]))[1..] == Merge(t[1..]);
    }
  }

  lemma {:induction false} TilesOfTilesThenZeros(m: seq<Tile>, n: nat)
    requires AllTiles(m)
    ensures Tiles(m + Zeros(n)) == m
  {
    if |m| == 0 {
      assert m + Zeros(n) == Zeros(n);
      ZerosHaveNoTiles(n);
    } else {
      TilesOfTilesThenZeros(m[1..], n);
      assert (m + Zeros(n))[1..] == m[1..] + Zeros(n);
    }
  }

  lemma {:induction false} ZerosHaveNoTiles(n: nat)
    ensures Tiles(Zeros(n)) == []
  {
    if n > 0 {
      assert Zeros(n)[1..] == Zeros(n - 1);
      ZerosHaveNoTiles(n - 1);
    }
  }

  /** The tiles of a pushed row are exactly the merged tiles of the original row. */
  lemma TilesOfPushLeft(r: Row)
    ensures Tiles(PushLeft(r)) == Merge(Tiles(r))
  {
    var m := Merge(Tiles(r));
    TilesOfTilesThenZeros(m, N - |m|);
  }

  /** Pushing never increases the number of non-empty cells. */
  lemma PushLeftCount(r: Row)
    ensures |Tiles(PushLeft(r))| <= |Tiles(r)|
  {
    TilesOfPushLeft(r);
  }

  /** Pushing preserves the tile mass (the sum of 2^k over the tiles). */
  lemma PushLeftMass(r: Row)
    ensures Mass(PushLeft(r)) == Mass(r)
  {
    TilesOfPushLeft(r);
    MassOfTiles(PushLeft(r));
    MergeMass(Tiles(r));
    MassOfTiles(r);
  }

  lemma {:induction false} TilesBound(s: seq<Tile>, bound: nat)
    requires forall k :: 0 <= k < |s| ==> s[k] <= bound
    ensures forall k :: 0 <= k < |Tiles(s)| ==> Tiles(s)[k] <= bound
  {
    if |s| > 0 {
      TilesBound(s[1..], bound);
    }
  }

  lemma {:induction false} MergeBound(t: seq<Tile>, bound: nat)
    requires forall k :: 0 <= k < |t| ==> t[k] <= bound
    ensures forall k :: 0 <= k < |Merge(t)| ==> Merge(t)[k] <= bound + 1
  {
    if |t| >= 2 && t[0] == t[1] {
      MergeBound(t[2..], bound);
    } else if |t| >= 1 {
      MergeBound(t[1..], bound);
    }
  }

  /**
   A push raises no exponent by more than one. With every cell below 255 the
   result therefore fits the source's `u8` cells: `value + 1` never wraps.
   */
  lemma PushLeftBound(r: Row, bound: nat)
    requires forall k :: 0 <= k < N ==> r[k] <= bound
    ensures forall k :: 0 <= k < N ==> PushLeft(r)[k] <= bound + 1
  {
    TilesBound(r, bound);
    MergeBound(Tiles(r), bound);
  }

  lemma {:induction false} FullTiles(s: seq<Tile>)
    requires |Tiles(s)| == |s|
    ensures Tiles(s) == s
  {
    if |s| > 0 {
      if s[0] != 0 {
        FullTiles(s[1..]);
      }
    }
  }

  lemma {:induction false} MergeWithoutLoss(t: seq<Tile>)
    requires |Merge(t)| == |t|
    ensures Merge(t) == t
  {
    if |t| >= 1 && !(|t| >= 2 && t[0] == t[1]) {
      MergeWithoutLoss(t[1..]);
    }
  }

  /**
   A push that changes the row always frees its last cell, so a legal move
   leaves room for the next tile.
   */
  lemma PushLeftChangeLeavesGap(r: Row)
    requires PushLeft(r) != r
    ensures PushLeft(r)[N - 1] == 0
  {
    var m := Merge(Tiles(r));
    if |m| == N {
      FullTiles(r);
      MergeWithoutLoss(r);
      assert false;
    }
  }

  /** True when no two neighbouring cells of `s` hold the same value. */
  predicate NoEqualNeighbours(s: seq<Tile>) {
    forall k :: 0 <= k < |s| - 1 ==> s[k] != s[k + 1]
  }

  lemma {:induction false} MergeWithoutPairs(t: seq<Tile>)
    requires NoEqualNeighbours(t)
    ensures Merge(t) == t
  {
    if |t| >= 1 {
      MergeWithoutPairs(t[1..]);
    }
  }

  /** A full row without two equal neighbours is left unchanged by a push. */
  lemma PushLeftBlocked(r: Row)
    requires AllTiles(r) && NoEqualNeighbours(r)
    ensures PushLeft(r) == r
  {
    FullTilesOfAllTiles(r);
    MergeWithoutPairs(r);
  }

  lemma {:induction false} FullTilesOfAllTiles(s: seq<Tile>)
    requires AllTiles(s)
    ensures Tiles(s) == s
  {
    if |s| > 0 {
      FullTilesOfAllTiles(s[1..]);
    }
  }

  /** The sliding cases of the source's unit test (src/board.rs:380-384). */
  lemma PushLeftSlides()
    ensures PushLeft([0, 0, 0, 0]) == [0, 0, 0, 0]
    ensures PushLeft([0, 1, 0, 0]) == [1, 0, 0, 0]
    ensures PushLeft([0, 0, 1, 0]) == [1, 0, 0, 0]
    ensures PushLeft([0, 0, 0, 1]) == [1, 0, 0, 0]
  {
  }

  /** The merging cases of the source's unit test (src/board.rs:385-388). */
  lemma PushLeftMerges()
    ensures PushLeft([1, 1, 0, 1]) == [2, 1, 0, 0]
    ensures PushLeft([0, 0, 1, 1]) == [2, 0, 0, 0]
    ensures PushLeft([0, 1, 0, 1]) == [2, 0, 0, 0]
    ensures PushLeft([1, 2, 0, 1]) == [1, 2, 1, 0]
  {
  }

  /** A merged tile does not merge again in the same pass. */
  lemma PushLeftSinglePass()
    ensures PushLeft([1, 1, 1, 0]) == [2, 1, 0, 0]
    ensures PushLeft([0, 2, 2, 2]) == [3, 2, 0, 0]
  {
  }

  /** A second push can merge again: the push is not idempotent. */
  lemma PushLeftNotIdempotent()
    ensures PushLeft([1, 1, 2, 0]) == [2, 2, 0, 0]
    ensures PushLeft(PushLeft([1, 1, 2, 0])) == [3, 0, 0, 0]
  {
  }
}
