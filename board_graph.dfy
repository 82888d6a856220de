/**
 * The 5x5 grid of a game board: tiles are numbered 0..24 row-major, and the
 * neighbours of a tile are found by trying the eight relative coordinates
 * in the order app/models/game_board.rb lists them.
 */
module BoardGraph {

  /** Game::GRID_SIZE and Game::GRID_SIZE_SQUARED. */
  const GridSize: nat := 5
  const TileCount: nat := GridSize * GridSize

  /** NEIGHBOR_RELATIVE_COORDINATES: (row offset, column offset) pairs. */
  const NeighborOffsets: seq<(int, int)> :=
    [(-1, -1), (-1, 0), (-1, 1), (0, -1), (0, 1), (1, -1), (1, 0), (1, 1)]

  function Row(i: int): int { i / GridSize }

  function Col(i: int): int { i % GridSize }

  /** `(0...GRID_SIZE).cover?` on both coordinates. */
  predicate InGrid(r: int, c: int)
  {
    0 <= r < GridSize && 0 <= c < GridSize
  }

  /** Tile index of the cell at row `r`, column `c`. */
  function Cell(r: int, c: int): (i: nat)
    requires InGrid(r, c)
    ensures i < TileCount && Row(i) == r && Col(i) == c
  {
    r * GridSize + c
  }

  /** The specification of adjacency: two distinct tiles whose rows and whose
      columns each differ by at most one. */
  predicate Adjacent(i: int, j: int)
  {
    && 0 <= i < TileCount && 0 <= j < TileCount && i != j
    && -1 <= Row(i) - Row(j) <= 1 && -1 <= Col(i) - Col(j) <= 1
  }

  /** The neighbours of tile `i` contributed by the first `k` offsets, in the
      order `connect_tiles` adds them. */
  function NeighborsUpTo(i: nat, k: nat): (ns: seq<nat>)
    requires i < TileCount && k <= |NeighborOffsets|
    ensures forall k | 0 <= k < |ns| :: ns[k] < TileCount
  {
    if k == 0 then []
    else
      var r := Row(i) + NeighborOffsets[k - 1].0;
      var c := Col(i) + NeighborOffsets[k - 1].1;
      NeighborsUpTo(i, k - 1) + (if InGrid(r, c) then [Cell(r, c)] else [])
  }

  /** The neighbour list `connect_tiles` gives tile `i`. */
  function NeighborList(i: nat): (ns: seq<nat>)
    requires i < TileCount
    ensures forall k | 0 <= k < |ns| :: ns[k] < TileCount
  {
    NeighborsUpTo(i, |NeighborOffsets|)
  }

  /** A tile `j` is among the first `k` neighbours iff one of the first `k`
      offsets leads from `i` to it. */
  lemma {:induction false} NeighborsUpToMembers(i: nat, k: nat, j: int)
    requires i < TileCount && k <= |NeighborOffsets|
    ensures j in NeighborsUpTo(i, k) <==>
      exists m :: 0 <= m < k && 0 <= j < TileCount
        && Row(j) == Row(i) + NeighborOffsets[m].0 && Col(j) == Col(i) + NeighborOffsets[m].1
  {
    if k > 0 {
      NeighborsUpToMembers(i, k - 1, j);
      var r := Row(i) + NeighborOffsets[k - 1].0;
      var c := Col(i) + NeighborOffsets[k - 1].1;
      if 0 <= j < TileCount && Row(j) == r && Col(j) == c {
        assert InGrid(r, c) && j == Cell(r, c);
      }
    }
  }

  /** The position of a non-zero offset in NeighborOffsets. */
  function OffsetIndex(dr: int, dc: int): (m: nat)
    requires -1 <= dr <= 1 && -1 <= dc <= 1 && (dr, dc) != (0, 0)
    ensures m < |NeighborOffsets| && NeighborOffsets[m] == (dr, dc)
  {
    var idx := (dr + 1) * 3 + (dc + 1);
    if idx < 4 then idx else idx - 1
  }

  /** The neighbour lists are exactly the adjacency relation (game_board.rb:62-80). */
  lemma NeighborListIsAdjacency(i: nat, j: int)
    requires i < TileCount
    ensures j in NeighborList(i) <==> Adjacent(i, j)
  {
    NeighborsUpToMembers(i, |NeighborOffsets|, j);
    if Adjacent(i, j) {
      var dr, dc := Row(j) - Row(i), Col(j) - Col(i);
      assert (dr, dc) != (0, 0) by {
        assert i == Row(i) * GridSize + Col(i) && j == Row(j) * GridSize + Col(j);
      }
      var m := OffsetIndex(dr, dc);
      assert Row(j) == Row(i) + NeighborOffsets[m].0 && Col(j) == Col(i) + NeighborOffsets[m].1;
    }
  }

  /** Adjacency is symmetric and irreflexive, so the neighbour lists are too. */
  lemma NeighborListSymmetricIrreflexive(i: nat, j: nat)
    requires i < TileCount && j < TileCount
    ensures j in NeighborList(i) <==> i in NeighborList(j)
    ensures i !in NeighborList(i)
  {
    NeighborListIsAdjacency(i, j);
    NeighborListIsAdjacency(j, i);
    NeighborListIsAdjacency(i, i);
  }

  /** No offset is listed twice. */
  lemma OffsetsDistinct(n: nat)
    requires n < |NeighborOffsets|
    ensures forall m | 0 <= m < n :: NeighborOffsets[m] != NeighborOffsets[n]
  {
  }

  /** No tile is added twice to the same neighbour list. */
  lemma {:induction false} NeighborsUpToDistinct(i: nat, k: nat)
    requires i < TileCount && k <= |NeighborOffsets|
    ensures forall a, b | 0 <= a < b < |NeighborsUpTo(i, k)| :: NeighborsUpTo(i, k)[a] != NeighborsUpTo(i, k)[b]
  {
    if k > 0 {
      NeighborsUpToDistinct(i, k - 1);
      var r := Row(i) + NeighborOffsets[k - 1].0;
      var c := Col(i) + NeighborOffsets[k - 1].1;
      OffsetsDistinct(k - 1);
      if InGrid(r, c) {
        var j := Cell(r, c);
        NeighborsUpToMembers(i, k - 1, j);
        assert j !in NeighborsUpTo(i, k - 1);
      }
    }
  }

  /** A corner tile has 3 neighbours, an edge tile 5 and an interior tile 8. */
  lemma NeighborCount(i: nat)
    requires i < TileCount
    ensures var edgeRow := Row(i) == 0 || Row(i) == GridSize - 1;
            var edgeCol := Col(i) == 0 || Col(i) == GridSize - 1;
            |NeighborList(i)| == (if edgeRow && edgeCol then 3 else if edgeRow || edgeCol then 5 else 8)
  {
    forall k | 1 <= k <= |NeighborOffsets|
      ensures |NeighborsUpTo(i, k)| == |NeighborsUpTo(i, k - 1)| +
        (if InGrid(Row(i) + NeighborOffsets[k - 1].0, Col(i) + NeighborOffsets[k - 1].1) then 1 else 0)
    {
    }
  }
}
