/** The map generator of WFCGenerator.cs as a class over the values of Cells and Tiles: the
    blueprint tiles, the road-socket table (`map`), the grid of cells and the generated tiles
    are fields that its methods update in place, each proved against the pure definitions of
    WfcSpec and WfcPass. */
module WFC {
  import opened Wrappers
  import opened Enums
  import opened Cells
  import opened Tiles
  import opened WfcSpec
  import opened WfcPass
  import opened Ownership

  class Generator {
    /** material.Count: one material per base RoadType. */
    const materialCount: nat
    /** The map is mapSize x mapSize cells. */
    const mapSize: nat
    /** The blueprint tiles; RoadType i is tiles[i]. */
    var tiles: seq<Tile>
    /** `map`: the sockets of RoadType i are roadSockets[i] (the dictionary's keys are 0, 1, ...). */
    var roadSockets: seq<Sockets>
    var grid: seq<Cell>
    var generatedTiles: seq<Tile>
    var done: bool
    /** For the proof: the cell that owns each generated tile. */
    ghost var owner: seq<nat>

    ghost function State(): Board
      reads this
    {
      Board(grid, generatedTiles, owner)
    }

    /** The table is one of the two the setup can leave, with a RoadType for every blueprint. */
    ghost predicate TablesOk()
      reads this
    {
      (roadSockets == Base5 || roadSockets == Full12) && |tiles| <= |roadSockets|
    }

    /** Between calls: the tables are consistent, and the grid is either not yet made or an
      n x n grid of well-formed cells whose tiles are owned and carry table signatures. */
    ghost predicate Valid()
      reads this
    {
      && TablesOk()
      && ((grid == [] && generatedTiles == [] && owner == [])
          || (PassReady(State(), |tiles|, roadSockets, mapSize) && SocketsIn(generatedTiles, roadSockets)))
    }

    /** How far the generation loop of Start is after `passes` passes: with blueprint tiles
      every pass but the last collapses one cell and the last sets `done`; without them, or on an
      empty map, `done` is never set. When done, every cell is collapsed and owns a tile. */
    ghost predicate Progress(passes: nat)
      reads this
    {
      && (done ==> |grid| == mapSize * mapSize && forall k :: 0 <= k < |grid| ==> grid[k].collapsed && grid[k].tile.Some?)
      && (mapSize > 0 && |tiles| >= 1 && done ==> passes == mapSize * mapSize + 1)
      && (mapSize > 0 && |tiles| >= 1 && !done ==> |Uncollapsed(grid)| + passes == mapSize * mapSize)
      && (mapSize > 0 && |tiles| == 0 ==> !done && |Uncollapsed(grid)| == mapSize * mapSize)
      && (mapSize == 0 ==> !done && grid == [])
      && (mapSize > 0 ==> |grid| == mapSize * mapSize && |grid| > 0)
    }

    /** The component as Unity creates it: no tiles, an empty grid and the five-entry table. */
    constructor (materialCount: nat, mapSize: nat)
      ensures this.materialCount == materialCount && this.mapSize == mapSize
      ensures tiles == [] && roadSockets == Base5 && grid == [] && generatedTiles == [] && !done
      ensures Valid()
    {
      this.materialCount := materialCount;
      this.mapSize := mapSize;
      tiles := [];
      roadSockets := Base5;
      grid := [];
      generatedTiles := [];
      done := false;
      owner := [];
    }

    /** StartOver: drop every generated tile and fill the grid with mapSize * mapSize fresh cells,
      each with all blueprint indices as options. */
    method StartOver()
      modifies this
      ensures grid == FreshGrid(mapSize, |tiles|) && generatedTiles == [] && owner == []
      ensures tiles == old(tiles) && roadSockets == old(roadSockets) && done == old(done)
      ensures old(TablesOk()) ==> Valid()
    {
      var g: seq<Cell> := [];
      var i := 0;
      while i < mapSize * mapSize
        invariant 0 <= i <= mapSize * mapSize && |g| == i
        invariant forall k :: 0 <= k < i ==> g[k] == Cell(false, Some(Range(|tiles|)), None)
        invariant unchanged(this)
      {
        var c := NewCell(|tiles|);
        g := g + [c];
        i := i + 1;
      }
      generatedTiles := [];
      owner := [];
      grid := g;
      assert grid == FreshGrid(mapSize, |tiles|);
      if mapSize > 0 {
        FreshGridValid(mapSize, |tiles|);
      }
    }

    /** The body of CheckCollapsedCells for cell k = j + i*n, at world position (i*10, 0, j*10),
      that is tile position pos = (i, j): a collapsed cell that owns a tile gives it the sockets
      map[options[0]] at pos; any other collapsed cell gets a new tile with those sockets at pos,
      appended to generatedTiles. The cell is still as it was when the walk started (b0). */
    method MaterialiseCellAt(k: nat, pos: Pos, ghost b0: Board)
      requires PassReady(b0, |tiles|, roadSockets, mapSize) && k < |b0.grid|
      requires State() == MaterialiseUpTo(b0, |tiles|, roadSockets, mapSize, k) && pos == CellPos(k, mapSize)
      modifies this
      ensures tiles == old(tiles) && roadSockets == old(roadSockets) && done == old(done)
      ensures State() == MaterialiseUpTo(b0, |tiles|, roadSockets, mapSize, k + 1)
    {
      MaterialiseUpToInv(b0, |tiles|, roadSockets, mapSize, k);
      var cell := grid[k];
      assert cell == b0.grid[k] && CellOk(cell, |tiles|);
      if cell.collapsed {
        var index := cell.options.value[0];
        var sockets := roadSockets[index];
        if cell.tile.Some? {
          var t := cell.tile.value;
          generatedTiles := generatedTiles[t := generatedTiles[t].(sockets := sockets, pos := pos)];
        } else {
          var tile := NewTile(sockets).(pos := pos);
          grid := grid[k := cell.(tile := Some(|generatedTiles|))];
          generatedTiles := generatedTiles + [tile];
          owner := owner + [k];
        }
      }
    }

    /** Row i of CheckCollapsedCells: walking j, materialise every collapsed cell j + i*n. */
    method MaterialiseRow(i: nat, ghost b0: Board)
      requires PassReady(b0, |tiles|, roadSockets, mapSize) && i < mapSize
      requires (RowIndex(i, 0, mapSize); State() == MaterialiseUpTo(b0, |tiles|, roadSockets, mapSize, i * mapSize))
      modifies this
      ensures tiles == old(tiles) && roadSockets == old(roadSockets) && done == old(done)
      ensures (RowIndex(i, 0, mapSize); State() == MaterialiseUpTo(b0, |tiles|, roadSockets, mapSize, (i + 1) * mapSize))
    {
      var n := mapSize;
      var start := i * n;
      RowIndex(i, 0, n);
      assert (i + 1) * n == start + n;
      for j := 0 to n
        invariant tiles == old(tiles) && roadSockets == old(roadSockets) && done == old(done)
        invariant State() == MaterialiseUpTo(b0, |tiles|, roadSockets, n, start + j)
      {
        RowIndex(i, j, n);
        DivModUnique(start + j, n, i, j);
        assert start + j < |b0.grid| && Pos(i, j) == CellPos(start + j, n);
        MaterialiseCellAt(start + j, Pos(i, j), b0);
      }
    }

    /** CheckCollapsedCells: walking i, then j, materialise every collapsed cell j + i*n. */
    method CheckCollapsedCells()
      requires PassReady(State(), |tiles|, roadSockets, mapSize)
      modifies this
      ensures tiles == old(tiles) && roadSockets == old(roadSockets) && done == old(done)
      ensures State() == MaterialiseUpTo(old(State()), |tiles|, roadSockets, mapSize, mapSize * mapSize)
    {
      ghost var b0 := State();
      for i := 0 to mapSize
        invariant tiles == old(tiles) && roadSockets == old(roadSockets) && done == old(done)
        invariant State() == MaterialiseUpTo(b0, |tiles|, roadSockets, mapSize, i * mapSize)
      {
        RowIndex(i, 0, mapSize);
        MaterialiseRow(i, b0);
      }
    }

    /** GetRoadType: the first table entry whose four sockets all equal `sockets`, or NONE. */
    method GetRoadType(sockets: Sockets) returns (r: RoadType)
      ensures r == RoadTypeOf(roadSockets, sockets)
    {
      var i := 0;
      while i < |roadSockets|
        invariant 0 <= i <= |roadSockets|
        invariant forall u :: 0 <= u < i ==> roadSockets[u] != sockets
      {
        var j := 0;
        while j < 4
          invariant 0 <= j <= 4
          invariant forall v :: 0 <= v < j ==> sockets[v] == roadSockets[i][v]
        {
          if sockets[j] != roadSockets[i][j] {
            break;
          }
          if j == 3 {
            assert sockets == roadSockets[i];
            return i;
          }
          j := j + 1;
        }
        i := i + 1;
      }
      return NONE;
    }

    /** GetNeighbour: whether some generated tile sits at `position`, and the first such tile. */
    method GetNeighbour(position: Pos) returns (found: bool, neighbour: nat)
      ensures found == TileIndexAt(generatedTiles, position).Some?
      ensures found ==> neighbour == TileIndexAt(generatedTiles, position).value
    {
      for t := 0 to |generatedTiles|
        invariant forall u :: 0 <= u < t ==> generatedTiles[u].pos != position
      {
        if generatedTiles[t].pos == position {
          return true, t;
        }
      }
      return false, 0;
    }

    /** GetTile: the first generated tile at `position`, or None (null). */
    method GetTile(position: Pos) returns (r: Option<nat>)
      ensures r == TileIndexAt(generatedTiles, position)
    {
      for t := 0 to |generatedTiles|
        invariant forall u :: 0 <= u < t ==> generatedTiles[u].pos != position
      {
        if generatedTiles[t].pos == position {
          return Some(t);
        }
      }
      return None;
    }

    /** The body of FinaliseConfig for generated tile t: the sockets of the tile one step away in
      each direction (or null), Finalise on them, and, unless that gives NONE, the tile takes
      the table entry and syncs its ValidDirections; a RoadType without a blueprint throws. */
    method FinaliseTileAt(t: nat) returns (ok: bool)
      requires t < |generatedTiles|
      modifies this
      ensures tiles == old(tiles) && roadSockets == old(roadSockets) && grid == old(grid)
      ensures owner == old(owner) && done == old(done)
      ensures Finalised(ok, generatedTiles) == FinaliseTile(old(generatedTiles), t, |tiles|, roadSockets)
    {
      var neighbours: seq<Option<Sockets>> := [];
      for i := 0 to 4
        invariant unchanged(this) && |neighbours| == i
        invariant forall d :: 0 <= d < i ==> neighbours[d] == NeighbourSockets(generatedTiles, t)[d]
      {
        var found, neighbour := GetNeighbour(Step(generatedTiles[t].pos, i));
        if found {
          neighbours := neighbours + [Some(generatedTiles[neighbour].sockets)];
        } else {
          neighbours := neighbours + [None];
        }
      }
      assert neighbours == NeighbourSockets(generatedTiles, t);
      var test := FinaliseProbe(neighbours);
      var roadType := GetRoadType(test);
      if roadType == NONE {
        return true;
      }
      if roadType >= |tiles| {
        return false;
      }
      var tile := generatedTiles[t].(sockets := roadSockets[roadType]);
      tile := SyncSockets(tile);
      generatedTiles := generatedTiles[t := tile];
      return true;
    }

    /** FinaliseConfig: every generated tile in list order, each seeing the sockets the earlier
      ones took; false when a tile throws, with the tiles as they were at the throw. */
    method FinaliseConfig() returns (ok: bool)
      modifies this
      ensures tiles == old(tiles) && roadSockets == old(roadSockets) && grid == old(grid)
      ensures owner == old(owner) && done == old(done)
      ensures Finalised(ok, generatedTiles) == FinalisePass(old(generatedTiles), |tiles|, roadSockets)
    {
      ghost var gen0 := generatedTiles;
      var count := |generatedTiles|;
      for t := 0 to count
        invariant tiles == old(tiles) && roadSockets == old(roadSockets) && grid == old(grid)
        invariant owner == old(owner) && done == old(done)
        invariant FinaliseUpTo(gen0, |tiles|, roadSockets, t) == Finalised(true, generatedTiles)
      {
        ok := FinaliseTileAt(t);
        if !ok {
          FinaliseUpToStops(gen0, |tiles|, roadSockets, t + 1, |gen0|);
          return;
        }
      }
      ok := true;
    }

    /** RemoveDuplicatedTiles: keep the first tile for each key, in the order the keys were
      first met. The dictionary is its keys and its values, both in insertion order. */
    method RemoveDuplicatedTiles(ts: seq<Tile>) returns (r: seq<Tile>)
      ensures r == Dedup(ts, Key)
    {
      var keys: seq<string> := [];
      r := [];
      for i := 0 to |ts|
        invariant r == Dedup(ts[..i], Key) && keys == KeysOf(r, Key)
      {
        var key := Key(ts[i].sockets);
        DedupSnoc(ts, i, Key);
        if key !in keys {
          keys := keys + [key];
          r := r + [ts[i]];
        }
      }
      assert ts[..|ts|] == ts;
    }

    /** The first step of SortGridCopy: gridCopy, the uncollapsed cells in grid order (as indices). */
    method UncollapsedCells() returns (gridCopy: seq<nat>)
      ensures gridCopy == Uncollapsed(grid)
    {
      gridCopy := [];
      for k := 0 to |grid|
        invariant gridCopy == Uncollapsed(grid[..k])
      {
        assert grid[..k + 1][..k] == grid[..k];
        if !grid[k].collapsed {
          gridCopy := gridCopy + [k];
        }
      }
      assert grid[..|grid|] == grid;
    }

    /** len in SortGridCopy: the fewest options among the cells of gridCopy, read off the front
      of the sorted copy. */
    method FewestOptions(gridCopy: seq<nat>) returns (len: nat)
      requires gridCopy == Uncollapsed(grid) && |gridCopy| > 0
      ensures len == MinCount(grid)
    {
      UncollapsedExactly(grid);
      len := OptionCount(grid[gridCopy[0]]);
      ghost var at := gridCopy[0];
      for u := 1 to |gridCopy|
        invariant at in gridCopy && len == OptionCount(grid[at])
        invariant forall v :: 0 <= v < u ==> len <= OptionCount(grid[gridCopy[v]])
      {
        if OptionCount(grid[gridCopy[u]]) < len {
          len := OptionCount(grid[gridCopy[u]]);
          at := gridCopy[u];
        }
      }
      ghost var w := gridCopy[ArgMin(grid, gridCopy)];
      assert w in gridCopy && MinCount(grid) == OptionCount(grid[w]);
    }

    /** What RemoveRange leaves of the sorted copy: the cells of gridCopy with exactly len options. */
    method TiedCells(gridCopy: seq<nat>, len: nat) returns (ties: seq<nat>)
      requires gridCopy == Uncollapsed(grid) && |gridCopy| > 0 && len == MinCount(grid)
      ensures ties == Ties(grid)
    {
      ties := [];
      for u := 0 to |gridCopy|
        invariant ties == WithCount(grid, gridCopy[..u], len)
      {
        assert gridCopy[..u + 1][..u] == gridCopy[..u];
        if OptionCount(grid[gridCopy[u]]) == len {
          ties := ties + [gridCopy[u]];
        }
      }
      assert gridCopy[..|gridCopy|] == gridCopy;
    }

    /** SortGridCopy, with oracle values cellRand and optRand for its two Random.Range calls. With
      no cell left to collapse: FinaliseConfig twice and `done`. Otherwise the cell chosen among
      those with the fewest options collapses to one of them, or, having none, the grid starts
      over. False when a FinaliseConfig throws. */
    method SortGridCopy(cellRand: nat, optRand: nat) returns (ok: bool)
      modifies this
      ensures tiles == old(tiles) && roadSockets == old(roadSockets)
      ensures var p := SortSpec(old(State()), |tiles|, roadSockets, mapSize, cellRand, optRand);
        ok == p.ok && State() == p.b && done == (old(done) || p.done)
    {
      var gridCopy := UncollapsedCells();
      if |gridCopy| == 0 {
        ok := FinaliseConfig();
        if !ok {
          return;
        }
        ok := FinaliseConfig();
        if !ok {
          return;
        }
        done := true;
        return;
      }
      var len := FewestOptions(gridCopy);
      var ties := TiedCells(gridCopy, len);
      var k := ties[cellRand % |ties|];
      CollapseChosen(k, cellRand, optRand);
      ok := true;
    }

    /** The collapsing branch of SortGridCopy for the chosen cell k: no option left starts the
      grid over; otherwise the cell is collapsed to option optRand % Length and keeps its tile. */
    method CollapseChosen(k: nat, ghost cellRand: nat, optRand: nat)
      requires |Uncollapsed(grid)| > 0 && k == Chosen(grid, cellRand)
      modifies this
      ensures tiles == old(tiles) && roadSockets == old(roadSockets) && done == old(done)
      ensures State() == StepSort(old(State()), |tiles|, mapSize, cellRand, optRand).b
    {
      var nextCell := grid[k];
      if OptionCount(nextCell) < 1 {
        StartOver();
        return;
      }
      var opts := nextCell.options.value;
      var pick := opts[optRand % |opts|];
      grid := grid[k := Cell(true, Some([pick]), nextCell.tile)];
    }

    /** Collapse, with oracle values for SortGridCopy: nothing on an empty grid, otherwise
      CheckCollapsedCells, SortGridCopy and, unless that threw, CheckNeighbours. A pass that
      does not throw keeps the invariants. */
    method Collapse(cellRand: nat, optRand: nat) returns (ok: bool)
      requires Valid()
      modifies this
      ensures tiles == old(tiles) && roadSockets == old(roadSockets)
      ensures old(grid) == [] ==> ok && State() == old(State()) && done == old(done)
      ensures old(grid) != [] ==>
        var p := CollapseSpec(old(State()), tiles, roadSockets, mapSize, cellRand, optRand);
        ok == p.ok && State() == p.b && done == (old(done) || p.done)
      ensures ok ==> Valid()
      ensures ok && old(grid) != [] ==> PassReady(State(), |tiles|, roadSockets, mapSize)
    {
      if |grid| == 0 {
        return true;
      }
      ghost var b := State();
      CheckCollapsedCells();
      ghost var m := State();
      MaterialiseUpToInv(b, |tiles|, roadSockets, mapSize, mapSize * mapSize);
      SortShape(m, |tiles|, roadSockets, mapSize, cellRand, optRand);
      ok := SortGridCopy(cellRand, optRand);
      CollapseSpecValid(b, tiles, roadSockets, mapSize, cellRand, optRand);
      if !ok {
        return;
      }
      CheckNeighbours();
    }

    /** The first loop of CheckInitialSetup: one fresh blueprint tile per material, with the
      sockets map[i]; a material without a table entry throws (false). */
    method MakeBaseTiles() returns (ok: bool)
      modifies this
      ensures roadSockets == old(roadSockets) && grid == old(grid) && generatedTiles == old(generatedTiles)
      ensures owner == old(owner) && done == old(done)
      ensures ok == (materialCount <= |roadSockets|)
      ensures tiles == BaseTiles(roadSockets, if ok then materialCount else |roadSockets|)
    {
      tiles := [];
      for i := 0 to materialCount
        invariant roadSockets == old(roadSockets) && grid == old(grid) && generatedTiles == old(generatedTiles)
        invariant owner == old(owner) && done == old(done)
        invariant i <= |roadSockets| && tiles == BaseTiles(roadSockets, i)
      {
        if i >= |roadSockets| {
          return false;
        }
        tiles := tiles + [NewTile(roadSockets[i])];
      }
      return true;
    }

    /** The second loop of CheckInitialSetup: the four rotations of every base tile, appended
      tile by tile. */
    method AddRotations()
      modifies this
      ensures roadSockets == old(roadSockets) && grid == old(grid) && generatedTiles == old(generatedTiles)
      ensures owner == old(owner) && done == old(done)
      ensures tiles == old(tiles) + Rotations(old(tiles))
    {
      ghost var base := tiles;
      var initialTileCount := |tiles|;
      assert base[..0] == [] && base + Rotations([]) == base;
      for i := 0 to initialTileCount
        invariant roadSockets == old(roadSockets) && grid == old(grid) && generatedTiles == old(generatedTiles)
        invariant owner == old(owner) && done == old(done)
        invariant tiles == base + Rotations(base[..i])
      {
        assert tiles[i] == base[i];
        var tempTiles := TurnedTiles(tiles[i]);
        RotationsSnoc(base, i);
        tiles := tiles + tempTiles;
      }
      assert base[..initialTileCount] == base;
    }

    /** The third loop of CheckInitialSetup, taken when the table is not yet complete: map.Add
      the sockets of every deduplicated tile from initialTileCount on under key i; a key the
      table already has throws (false). */
    method ExtendTable(initialTileCount: nat) returns (ok: bool)
      requires |roadSockets| != 12 && initialTileCount <= |roadSockets|
      modifies this
      ensures tiles == old(tiles) && grid == old(grid) && generatedTiles == old(generatedTiles)
      ensures owner == old(owner) && done == old(done)
      ensures ok == !(initialTileCount < |tiles| && initialTileCount < |old(roadSockets)|)
      ensures roadSockets == if ok && initialTileCount < |tiles| then old(roadSockets) + SocketsOf(tiles[|old(roadSockets)|..]) else old(roadSockets)
    {
      if initialTileCount >= |tiles| {
        return true;
      }
      ghost var table0 := roadSockets;
      for i := initialTileCount to |tiles|
        invariant tiles == old(tiles) && grid == old(grid) && generatedTiles == old(generatedTiles)
        invariant owner == old(owner) && done == old(done)
        invariant roadSockets == table0 + SocketsOf(tiles[initialTileCount..i])
        invariant i > initialTileCount ==> |table0| == initialTileCount
      {
        if i < |roadSockets| {
          return false;
        }
        assert tiles[initialTileCount..i + 1] == tiles[initialTileCount..i] + [tiles[i]];
        roadSockets := roadSockets + [tiles[i].sockets];
      }
      assert tiles[initialTileCount..|tiles|] == tiles[|table0|..];
      return true;
    }

    /** The last loop of CheckInitialSetup: every blueprint tile analysed against the list, in
      place; Analyse reads only the other tiles' sockets, which it does not change. */
    method AnalyseTiles()
      modifies this
      ensures roadSockets == old(roadSockets) && grid == old(grid) && generatedTiles == old(generatedTiles)
      ensures owner == old(owner) && done == old(done)
      ensures tiles == AnalyseAll(old(tiles), roadSockets)
    {
      ghost var ts := tiles;
      for i := 0 to |tiles|
        invariant roadSockets == old(roadSockets) && grid == old(grid) && generatedTiles == old(generatedTiles)
        invariant owner == old(owner) && done == old(done)
        invariant |tiles| == |ts| && SocketsOf(tiles) == SocketsOf(ts)
        invariant forall u :: 0 <= u < i ==> tiles[u] == AnalyseAll(ts, roadSockets)[u]
        invariant forall u :: i <= u < |ts| ==> tiles[u] == ts[u]
      {
        AnalysedEdgesSocketsOnly(ts[i], tiles, ts, roadSockets);
        var thisTile := Analyse(tiles[i], tiles, roadSockets);
        tiles := tiles[i := thisTile];
      }
    }

    /** CheckInitialSetup on the `map` it finds: the base tiles, their rotations, the
      duplicates removed, the table extended when it is not yet complete, and every tile
      analysed. False where the source throws. */
    method CheckInitialSetup() returns (ok: bool)
      modifies this
      ensures grid == old(grid) && generatedTiles == old(generatedTiles) && owner == old(owner) && done == old(done)
      ensures var s := SetupSpec(materialCount, old(roadSockets));
        ok == s.ok && tiles == s.tiles && roadSockets == s.table
    {
      ok := MakeBaseTiles();
      if !ok {
        return;
      }
      var initialTileCount := |tiles|;
      AddRotations();
      tiles := RemoveDuplicatedTiles(tiles);
      if |roadSockets| != 12 {
        ok := ExtendTable(initialTileCount);
        if !ok {
          return;
        }
      }
      AnalyseTiles();
    }

    /** Start, with oracle values cellRands[p] and optRands[p] for pass p of `while (!done)
      Collapse()`, the loop cut off after |cellRands| passes: CheckInitialSetup, StartOver, then
      passes until `done`. False where the setup or a pass throws. With blueprint tiles the
      map is done after exactly mapSize * mapSize + 1 passes, every cell collapsed and owning a
      tile; without them, or on an empty map, it is never done. */
    method Start(cellRands: seq<nat>, optRands: seq<nat>) returns (ok: bool, passes: nat)
      requires (roadSockets == Base5 || roadSockets == Full12) && |cellRands| == |optRands|
      modifies this
      ensures ok ==> Valid() && passes <= |cellRands|
      ensures ok && !done ==> passes == |cellRands|
      ensures ok && done ==> |grid| == mapSize * mapSize && forall k :: 0 <= k < |grid| ==> grid[k].collapsed && grid[k].tile.Some?
      ensures ok && mapSize > 0 && |tiles| >= 1 ==> (done ==> passes == mapSize * mapSize + 1) && (|cellRands| > mapSize * mapSize ==> done)
      ensures ok && (mapSize == 0 || |tiles| == 0) ==> !done
      ensures tiles == SetupSpec(materialCount, old(roadSockets)).tiles
      ensures roadSockets == SetupSpec(materialCount, old(roadSockets)).table
      ensures !SetupSpec(materialCount, old(roadSockets)).ok ==> !ok
      ensures SetupSpec(materialCount, old(roadSockets)).ok && |tiles| >= |roadSockets| ==> ok
    {
      passes := 0;
      ok := CheckInitialSetup();
      if !ok {
        return;
      }
      SetupKeepsTables(materialCount, old(roadSockets));
      Restart();
      ok, passes := RunPasses(cellRands, optRands);
    }

    /** The part of Start between the setup and the loop: StartOver and a cleared `done`. */
    method Restart()
      requires TablesOk()
      modifies this
      ensures tiles == old(tiles) && roadSockets == old(roadSockets)
      ensures grid == FreshGrid(mapSize, |tiles|) && generatedTiles == [] && owner == [] && !done
      ensures Valid() && Progress(0)
    {
      StartOver();
      if mapSize > 0 {
        FreshGridValid(mapSize, |tiles|);
        MulLe(1, mapSize, mapSize);
      }
      done := false;
    }

    /** The loop of Start: a Collapse per pass until one sets `done` or the draws run out. */
    method RunPasses(cellRands: seq<nat>, optRands: seq<nat>) returns (ok: bool, passes: nat)
      requires Valid() && !done && Progress(0) && |cellRands| == |optRands|
      modifies this
      ensures tiles == old(tiles) && roadSockets == old(roadSockets)
      ensures ok ==> Valid() && passes <= |cellRands| && Progress(passes)
      ensures ok && !done ==> passes == |cellRands|
      ensures |tiles| >= |roadSockets| ==> ok
    {
      passes := 0;
      ok := true;
      while !done && passes < |cellRands|
        invariant tiles == old(tiles) && roadSockets == old(roadSockets)
        invariant Valid() && passes <= |cellRands| && Progress(passes)
        decreases |cellRands| - passes
      {
        ok := GenerationPass(cellRands[passes], optRands[passes], passes);
        passes := passes + 1;
        if !ok {
          return;
        }
      }
    }

    /** One turn of the loop in Start: a Collapse on a board that is not yet done. */
    method GenerationPass(cellRand: nat, optRand: nat, ghost passes: nat) returns (ok: bool)
      requires Valid() && !done && Progress(passes)
      modifies this
      ensures tiles == old(tiles) && roadSockets == old(roadSockets)
      ensures ok ==> Valid() && Progress(passes + 1)
      ensures |tiles| >= |roadSockets| ==> ok
    {
      if mapSize > 0 {
        assert PassReady(State(), |tiles|, roadSockets, mapSize);
        if |tiles| >= |roadSockets| {
          CollapseSpecOk(State(), tiles, roadSockets, mapSize, cellRand, optRand);
        }
        if |tiles| >= 1 {
          CollapseSpecProgress(State(), tiles, roadSockets, mapSize, cellRand, optRand);
        } else {
          CollapseSpecRestarts(State(), tiles, roadSockets, mapSize, cellRand, optRand);
        }
      }
      ok := Collapse(cellRand, optRand);
    }

    /** CheckValid: copy the array into a list, walk it from the back removing (first occurrence
      of) every entry not in `valid`, and write the list back over the front of the array. */
    method CheckValid(arr: array<int>, valid: seq<RoadType>)
      modifies arr
      ensures arr[..] == CheckValidSpec(old(arr[..]), valid)
    {
      var list := CopyToList(arr);
      list := RemoveInvalid(list, valid);
      WriteFront(arr, list);
    }

    /** CheckNeighbour: gather edges[d] of the blueprint of every option of cell `index` and
      filter `options` by them with CheckValid. */
    method CheckNeighbour(index: nat, d: Direction, options: array<int>)
      requires index < |grid| && CellOk(grid[index], |tiles|)
      modifies options
      ensures options[..] == CheckValidSpec(old(options[..]), ValidOptions(grid, tiles, index, d))
    {
      var opts := grid[index].options.value;
      var validOptions: seq<RoadType> := [];
      for u := 0 to |opts|
        invariant validOptions == EdgesUnion(tiles, opts[..u], d)
      {
        assert opts[..u + 1][..u] == opts[..u];
        validOptions := validOptions + tiles[opts[u]].edges[d];
      }
      assert opts[..|opts|] == opts;
      CheckValid(options, validOptions);
    }

    /** One of the four guarded calls in CheckNeighbours, for cell k: when the neighbour in
      direction d is inside the map (`inside`), CheckNeighbour(idx, d, options). The calls come in
      the order UP, RIGHT, DOWN, LEFT, so before this one the options have been through d of them. */
    method CheckNeighbourIf(inside: bool, idx: int, d: Direction, options: array<int>, ghost k: nat)
      requires mapSize > 0 && |grid| == mapSize * mapSize && k < |grid| && CellsWellFormed(grid, |tiles|)
      requires inside == Inside(mapSize, k, d) && idx == NeighbourIndex(mapSize, k, d)
      requires options[..] == FilteredUpTo(grid, tiles, mapSize, k, d)
      modifies options
      ensures options[..] == FilteredUpTo(grid, tiles, mapSize, k, d + 1)
    {
      if inside {
        CheckNeighbour(idx, d, options);
      }
    }

    /** The body of CheckNeighbours for an uncollapsed cell index = i + j*n: all tile indices,
      filtered by the in-grid neighbours above (j > 0), right (i < n-1), below (j < n-1) and
      left (i > 0), in that order, then new Cell(options). */
    method PropagateCell(index: nat) returns (c: Cell)
      requires mapSize > 0 && |grid| == mapSize * mapSize && index < |grid| && CellsWellFormed(grid, |tiles|)
      requires !grid[index].collapsed
      ensures c == NextCell(grid, tiles, mapSize, index)
    {
      var n := mapSize;
      var i, j := index % n, index / n;
      var options := new int[|tiles|](k => k);
      assert options[..] == FilteredUpTo(grid, tiles, n, index, 0);
      CheckNeighbourIf(j > 0, index - n, UP, options, index);
      CheckNeighbourIf(i < n - 1, index + 1, RIGHT, options, index);
      CheckNeighbourIf(j < n - 1, index + n, DOWN, options, index);
      CheckNeighbourIf(i > 0, index - 1, LEFT, options, index);
      PropagatedWithin(grid, tiles, n, index);
      c := NewCellFrom(options);
    }

    /** The inner step of CheckNeighbours for cell index: a collapsed cell is carried over, any
      other one rebuilt by PropagateCell; nothing else in nextGrid changes. */
    method RebuildCell(index: nat, nextGrid: array<Cell>)
      requires mapSize > 0 && |grid| == mapSize * mapSize && index < |grid| && CellsWellFormed(grid, |tiles|)
      requires nextGrid.Length == |grid|
      modifies nextGrid
      ensures nextGrid[..] == old(nextGrid[..])[index := NextCell(grid, tiles, mapSize, index)]
    {
      if grid[index].collapsed {
        nextGrid[index] := grid[index];
      } else {
        var c := PropagateCell(index);
        nextGrid[index] := c;
      }
    }

    /** CheckNeighbours: walking j, then i, every collapsed cell i + j*n is carried over and every
      other one is rebuilt from its neighbours' options. */
    method CheckNeighbours()
      requires mapSize > 0 && |grid| == mapSize * mapSize && CellsWellFormed(grid, |tiles|)
      modifies this
      ensures tiles == old(tiles) && roadSockets == old(roadSockets) && generatedTiles == old(generatedTiles)
      ensures owner == old(owner) && done == old(done)
      ensures grid == NextGrid(old(grid), tiles, mapSize)
    {
      var n := mapSize;
      var nextGrid := new Cell[|grid|](_ => Cell(false, None, None));
      for j := 0 to n
        invariant unchanged(this) && nextGrid.Length == |grid|
        invariant forall k :: 0 <= k < |grid| && k < j * n ==> nextGrid[k] == NextCell(grid, tiles, n, k)
      {
        MulLe(j, n - 1, n);
        for i := 0 to n
          invariant unchanged(this)
          invariant forall k :: 0 <= k < |grid| && k < j * n + i ==> nextGrid[k] == NextCell(grid, tiles, n, k)
        {
          RebuildCell(i + j * n, nextGrid);
        }
        assert j * n + n == (j + 1) * n;
      }
      MulLe(n, n, n);
      grid := nextGrid[..];
    }
  }

  /** The inner loop of CheckInitialSetup's rotation step: Rotate(1), ..., Rotate(4) of t. */
  method TurnedTiles(t: Tile) returns (tempTiles: seq<Tile>)
    ensures tempTiles == RotationsOf(t)
  {
    tempTiles := [];
    for j := 1 to 5
      invariant |tempTiles| == j - 1
      invariant forall v :: 0 <= v < j - 1 ==> tempTiles[v] == NewTile(Rotate(t.sockets, v + 1))
    {
      var r := RotateTile(t, j);
      tempTiles := tempTiles + [r];
    }
  }

  /** The first loop of CheckValid: the array's entries as a list. */
  method CopyToList(arr: array<int>) returns (list: seq<int>)
    ensures list == arr[..]
  {
    list := [];
    for i := 0 to arr.Length
      invariant list == arr[..i]
    {
      list := list + [arr[i]];
    }
  }

  /** The second loop of CheckValid: walking from the back, List.Remove every entry not in
      `valid`; what is left is exactly the valid entries in order. */
  method RemoveInvalid(list0: seq<int>, valid: seq<RoadType>) returns (list: seq<int>)
    ensures list == Filter(list0, valid)
  {
    list := list0;
    assert list[..|list|] == list && list[|list|..] == [];
    for i := |list0| downto 0
      invariant i <= |list|
      invariant Filter(list[..i], valid) + list[i..] == Filter(list0, valid)
    {
      var element := list[i];
      if element !in valid {
        CheckValidDropStep(list, i, valid, Filter(list0, valid));
        var p := FirstIndex(list, element);
        list := list[..p] + list[p + 1..];
      } else {
        CheckValidKeepStep(list, i, valid, Filter(list0, valid));
      }
    }
  }

  /** The third loop of CheckValid: the list written over the front of the array. */
  method WriteFront(arr: array<int>, list: seq<int>)
    requires |list| <= arr.Length
    modifies arr
    ensures arr[..] == list + old(arr[..])[|list|..]
  {
    for i := 0 to |list|
      invariant forall k :: 0 <= k < i ==> arr[k] == list[k]
      invariant forall k :: i <= k < arr.Length ==> arr[k] == old(arr[k])
    {
      arr[i] := list[i];
    }
  }

  /** The game's configuration: five materials on the initial table. Generation then never
    throws, and with more draws than cells it finishes with every cell collapsed and owning a
    tile. */
  method StartFiveMaterials(g: Generator, cellRands: seq<nat>, optRands: seq<nat>) returns (ok: bool, passes: nat)
    requires g.materialCount == 5 && g.roadSockets == Base5 && g.mapSize > 0
    requires |cellRands| == |optRands| && |cellRands| > g.mapSize * g.mapSize
    modifies g
    ensures ok && g.done && passes == g.mapSize * g.mapSize + 1
    ensures forall k :: 0 <= k < |g.grid| ==> g.grid[k].collapsed && g.grid[k].tile.Some?
  {
    SetupFiveSizes();
    ok, passes := g.Start(cellRands, optRands);
  }
}
