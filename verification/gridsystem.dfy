/** GridSystem.cs: which grid the cursor works on (the world grid or a tile's local grid), and
    the rule deciding whether an object may be placed at the cursor on the focused tile. A
    placement position is an integer offset, in sub-cells, from the focused tile's centre;
    objects already on the tile are measured in the same frame. */
module Grids {
  import opened Wrappers
  import opened Enums
  import opened Tiles

  /** A Unity Grid, as an opaque id. */
  type GridId = int

  /** The checks of LegalPosition once the tile is known to be on the active grid: not the
      centre, not occupied, and not on a centre line heading into a side with a road. */
  predicate LegalOnTile(t: Tile, at: Pos)
  {
    if at == Pos(0, 0) || ItemAt(t.items, at).Some? then false
    else if at.x == 0 && at.z <= 0 && t.sockets[DOWN] == 1 then false
    else if at.x == 0 && at.z >= 0 && t.sockets[UP] == 1 then false
    else if at.z == 0 && at.x >= 0 && t.sockets[RIGHT] == 1 then false
    else if at.z == 0 && at.x <= 0 && t.sockets[LEFT] == 1 then false
    else true
  }

  /** The side of the tile an off-centre position on a centre line points to. */
  function SideOf(at: Pos): (d: Option<Direction>)
    ensures d == Some(UP) <==> at.x == 0 && at.z > 0
    ensures d == Some(DOWN) <==> at.x == 0 && at.z < 0
    ensures d == Some(RIGHT) <==> at.z == 0 && at.x > 0
    ensures d == Some(LEFT) <==> at.z == 0 && at.x < 0
    ensures d.None? <==> at == Pos(0, 0) || (at.x != 0 && at.z != 0)
  {
    if at.x == 0 && at.z > 0 then Some(UP)
    else if at.x == 0 && at.z < 0 then Some(DOWN)
    else if at.z == 0 && at.x > 0 then Some(RIGHT)
    else if at.z == 0 && at.x < 0 then Some(LEFT)
    else None
  }

  /** The placement rule in one sentence: a position is legal exactly when it is off the
      centre, free, and not on a centre line pointing to a side whose socket carries a road. */
  lemma LegalOnTileCharacterized(t: Tile, at: Pos)
    ensures LegalOnTile(t, at) <==>
              at != Pos(0, 0) && ItemAt(t.items, at).None? &&
              (SideOf(at).Some? ==> t.sockets[SideOf(at).value] != 1)
  {
  }

  /** Off both centre lines only occupancy matters. */
  lemma OffCentreLinesOnlyOccupancy(t: Tile, at: Pos)
    requires at.x != 0 && at.z != 0
    ensures LegalOnTile(t, at) <==> forall k :: 0 <= k < |t.items| ==> t.items[k].pos != at
  {
  }

  /** A tile without roads takes an object anywhere free except its centre. */
  lemma NoRoadsAnywhereFree(t: Tile, at: Pos)
    requires forall d: Direction :: t.sockets[d] != 1
    ensures LegalOnTile(t, at) <==> at != Pos(0, 0) && ItemAt(t.items, at).None?
  {
  }

  class GridSystem {
    var isFocused: bool
    /** The active grid. */
    var grid: GridId
    const defaultGrid: GridId

    /** Start: the active grid is the world grid. */
    constructor (defaultGrid: GridId)
      ensures this.defaultGrid == defaultGrid && grid == defaultGrid && !isFocused
    {
      this.defaultGrid := defaultGrid;
      grid := defaultGrid;
      isFocused := false;
    }

    /** TileMatchesGrid: there is a focused tile and the active grid is that tile's grid. */
    predicate TileMatchesGrid(tile: Option<Tile>)
      reads this
    {
      tile.Some? && tile.value.grid == Some(grid)
    }

    /** LegalPosition: whether an object may go at offset `at` on the focused tile. */
    predicate LegalPosition(tile: Option<Tile>, at: Pos)
      reads this
    {
      TileMatchesGrid(tile) && LegalOnTile(tile.value, at)
    }

    /** SetGrid: flip the focus and make g the active grid. */
    method SetGrid(g: GridId)
      modifies this
      ensures isFocused == !old(isFocused) && grid == g
    {
      isFocused := !isFocused;
      grid := g;
    }

    /** ReturnToWorldGrid: flip the focus and make the world grid active again. */
    method ReturnToWorldGrid()
      modifies this
      ensures isFocused == !old(isFocused) && grid == defaultGrid
    {
      isFocused := !isFocused;
      grid := defaultGrid;
    }

    /** HandOverObject: a tile on another grid refuses the object; otherwise the tile decides. */
    method HandOverObject(tile: Option<Tile>, obj: Item) returns (ok: bool, tile': Option<Tile>)
      ensures ok <==> TileMatchesGrid(tile) && ItemAt(tile.value.items, obj.pos).None?
      ensures ok ==> tile' == Some(tile.value.(items := tile.value.items + [obj]))
      ensures !ok ==> tile' == tile
    {
      if !TileMatchesGrid(tile) {
        return false, tile;
      }
      var t;
      ok, t := ReceiveObject(tile.value, obj);
      tile' := Some(t);
    }
  }

  /** The rule a GridSystem applies: false without a tile on the active grid, else the tile
      rule; and a legal position is never occupied or the centre. */
  lemma LegalPositionSpec(g: GridSystem, tile: Option<Tile>, at: Pos)
    ensures !g.TileMatchesGrid(tile) ==> !g.LegalPosition(tile, at)
    ensures g.LegalPosition(tile, at) ==> at != Pos(0, 0) && ItemAt(tile.value.items, at).None?
    ensures g.TileMatchesGrid(tile) ==> (g.LegalPosition(tile, at) <==> LegalOnTile(tile.value, at))
  {
  }

  /** Focusing a tile's grid and returning to the world grid restores both the focus flag and
      the active grid when it started on the world grid. */
  method FocusAndReturn(g: GridSystem, local: GridId)
    requires g.grid == g.defaultGrid
    modifies g
    ensures g.isFocused == old(g.isFocused) && g.grid == old(g.grid)
  {
    g.SetGrid(local);
    g.ReturnToWorldGrid();
  }
}
