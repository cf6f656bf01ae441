/** Cell positions and the cell-to-tile ownership invariant. */
module Ownership {
  import opened Wrappers
  import opened Enums
  import opened Cells
  import opened Tiles

  /** The tile position of cell k on an n x n map. CheckCollapsedCells reads cell j + i*n and puts
      its tile at world (i*10, 0, j*10), so cell k sits at x = k / n, z = k % n. */
  function CellPos(k: nat, n: nat): Pos
    requires n > 0
  {
    Pos(k / n, k % n)
  }

  /** The cell-to-tile references: every referenced tile exists, belongs to exactly the cell that
      references it (owner) and sits at that cell's position; every generated tile has an owner. */
  predicate Owned(grid: seq<Cell>, gen: seq<Tile>, owner: seq<nat>, n: nat)
  {
    && n > 0
    && |owner| == |gen|
    && (forall k :: 0 <= k < |grid| && grid[k].tile.Some? ==>
          && grid[k].collapsed
          && grid[k].tile.value < |gen|
          && owner[grid[k].tile.value] == k
          && gen[grid[k].tile.value].pos == CellPos(k, n))
    && (forall t :: 0 <= t < |gen| ==> owner[t] < |grid| && grid[owner[t]].tile == Some(t))
  }

  /** The tiles of gen are still at the front of gen', at the same positions. */
  predicate KeepsPositions(gen: seq<Tile>, gen': seq<Tile>)
  {
    |gen| <= |gen'| && forall t :: 0 <= t < |gen| ==> gen'[t].pos == gen[t].pos
  }

  /** A cell as the generator keeps it with T blueprint tiles: options present and all tile
      indices; an uncollapsed cell has all T options and no tile; a collapsed cell one option. */
  predicate CellOk(c: Cell, T: nat)
  {
    && c.options.Some?
    && (forall i :: 0 <= i < |c.options.value| ==> 0 <= c.options.value[i] < T)
    && (!c.collapsed ==> |c.options.value| == T && c.tile == None)
    && (c.collapsed ==> |c.options.value| == 1)
  }

  predicate CellsWellFormed(grid: seq<Cell>, T: nat)
  {
    forall k :: 0 <= k < |grid| ==> CellOk(grid[k], T)
  }

  /** Replacing one cell by a well-formed one keeps the grid well formed. */
  lemma UpdateWellFormed(grid: seq<Cell>, T: nat, k: nat, c: Cell)
    requires CellsWellFormed(grid, T) && k < |grid| && CellOk(c, T)
    ensures CellsWellFormed(grid[k := c], T)
  {
    var g := grid[k := c];
    forall j | 0 <= j < |g| ensures CellOk(g[j], T) {
      if j != k {
        assert g[j] == grid[j];
      }
    }
  }

  /** Every tile reference of the grid points into the generated tiles. */
  predicate TilesInRange(grid: seq<Cell>, gen: seq<Tile>)
  {
    forall k :: 0 <= k < |grid| && grid[k].tile.Some? ==> grid[k].tile.value < |gen|
  }

  /** Every generated tile carries a signature from the table. */
  predicate SocketsIn(gen: seq<Tile>, table: seq<Sockets>)
  {
    forall t :: 0 <= t < |gen| ==> gen[t].sockets in table
  }

  /** The generator's grid, generated tiles and (for the proof) each tile's owning cell. */
  datatype Board = Board(grid: seq<Cell>, gen: seq<Tile>, owner: seq<nat>)

  /** p has b's cells with only tile references added: every cell keeps its flag, options and
      any tile it owned, and the cells from K on are untouched. */
  predicate CellsKept(b: Board, p: Board, K: nat)
  {
    && |p.grid| == |b.grid|
    && (forall k :: 0 <= k < |b.grid| ==> p.grid[k].collapsed == b.grid[k].collapsed && p.grid[k].options == b.grid[k].options)
    && (forall k :: K <= k < |b.grid| ==> p.grid[k] == b.grid[k])
    && (forall k :: 0 <= k < |b.grid| && b.grid[k].tile.Some? ==> p.grid[k].tile == b.grid[k].tile)
  }

  /** Every collapsed cell among the first K owns a tile with the signature of its one option,
      and signatures still come from the table. */
  predicate SocketsKept(b: Board, p: Board, table: seq<Sockets>, K: nat)
  {
    && (forall k :: 0 <= k < K && k < |b.grid| && k < |p.grid| && b.grid[k].collapsed ==>
          && p.grid[k].tile.Some? && p.grid[k].tile.value < |p.gen|
          && b.grid[k].options.Some? && |b.grid[k].options.value| > 0 && 0 <= b.grid[k].options.value[0] < |table|
          && p.gen[p.grid[k].tile.value].sockets == table[b.grid[k].options.value[0]])
    && (SocketsIn(b.gen, table) ==> SocketsIn(p.gen, table))
  }

  /** How CheckCollapsedCells has left p, started from b, after its first K cells: p's cells are
      well formed and own their tiles, no tile of b has moved, the cells are kept as CellsKept
      says and the signatures as SocketsKept says. */
  predicate Materialised(b: Board, p: Board, T: nat, table: seq<Sockets>, n: nat, K: nat)
  {
    && |b.gen| <= |p.gen|
    && CellsWellFormed(p.grid, T) && TilesInRange(p.grid, p.gen)
    && Owned(p.grid, p.gen, p.owner, n) && KeepsPositions(b.gen, p.gen)
    && CellsKept(b, p, K) && SocketsKept(b, p, table, K)
  }
}
