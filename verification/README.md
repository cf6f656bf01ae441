# A verified model of the city builder's map generator, pathfinder, scheduler and economy rules

The game is a Unity city builder. Its world is a square map of road tiles, produced by a
wave-function-collapse (WFC) generator. Walkers move along the roads with a best-first
pathfinder. A coroutine-driven scheduler sends TICK, DAY and WEEK events to every entity. A debt
manager reviews the tax and splits payments. Objects are placed on tiles through a build menu and
a placement rule. This project models that core in Dafny and proves what the code promises about
it.

The modules follow the source files:

- `Wrappers`, `Enums` (common.dfy) hold `Option`, the no-duplicates predicate, and the
  `RoadType` (NONE = -1, then 0..11) and `Direction` (UP, RIGHT, DOWN, LEFT = 0..3) values.
  They also hold positions in whole tile units: one unit is the source's 10 world units.
- `Cells` (cell.dfy) models Cell.cs: a cell is a value with `collapsed`, `options` (None is a null
  array) and a reference to the tile it owns.
- `Tiles` (tile.dfy) models Tile.cs. A tile is a value with four sockets, a position, the four
  `edges` lists, `ValidDirections`, the items on it and its local grid. `Rotate`, `Finalise`,
  `Analyse`, `SyncSockets`, `ReceiveObject` and `RemoveObjAtPos` work on that value.
- `WFC.Generator` (wfc.dfy) models WFCGenerator.cs as a class. Its fields are the blueprint
  tiles, the socket table `map`, the grid, the generated tiles and `done`, and its methods update
  them in place. Each method is proved against the pure definitions in `WfcSpec` (wfc_spec.dfy:
  tile-set construction, `CheckValid`) and `WfcPass` (wfc_pass.dfy: one generation pass, the
  finalise pass). `Ownership` (ownership.dfy) states the invariant linking cells to the tiles they
  own.
- `TileNodes` and `Pathfinding` (tilenode.dfy, pathfinder.dfy) model TileNode.cs and
  PathFinder.cs. Nodes are heap objects with a write-once parent. The search keeps the source's
  queue, visited list and parent walk. The in-place `Sort` followed by taking the front is
  modelled as choosing a queued node of least `Steps + DistanceToTarget`, with ties chosen by an
  oracle; the queue itself stays in insertion order.
- `Scheduler` (scheduler.dfy) models GameManager.cs: the event lists, the tick step, the speed
  level, pause, the job and shop searches, and `Singleton.Instance`.
- `Debt`, `Tools`, `Buildables` and `Grids` (debt.dfy, tools.dfy, buildable.dfy, gridsystem.dfy)
  model DebtManager.cs, Tools.cs, BuildableObject.cs and GridSystem.cs.

## Behaviour of the code as written

The model keeps the following behaviour of the code:

- `CheckValid` never shrinks its array. It writes the valid entries over a prefix and leaves the
  tail as it was.
- `Cell(int[])` writes every value at the index equal to that value. An index that never occurs
  keeps the default 0 (CROSSROAD).
- Because of those two rules, every uncollapsed cell still has all `tiles.Count` options after
  `CheckNeighbours`. So every uncollapsed cell ties at the fewest options
  (`WfcPass.TiesAreAllUncollapsed`).
- `CheckCollapsedCells` numbers cell k as `j + i*n` and places it at world `(i*10, 0, j*10)`.
  `CheckNeighbours` numbers it `i + j*n`. Both loops reach every index in turn, and the model keeps
  each numbering where it is used.
- `FinaliseConfig` reads `this.tiles[roadType]`. This throws when the table has more entries than
  there are blueprint tiles. The model returns `ok == false` at that point and keeps the tiles as
  far as the pass got. With fewer materials than table entries this happens: with one material on
  the initial five-entry table there is one blueprint tile, and any cell whose neighbours select a
  type of 1 or more makes `this.tiles[roadType]` throw (`WfcPass.CollapseSpecOk` shows it cannot
  happen with at least as many tiles as entries; the game's five materials give twelve of each,
  `WFC.StartFiveMaterials`).
- `CheckInitialSetup` throws in two cases: a material without a table entry (`KeyNotFound`), and
  a `map.Add` on a key that is already present. The model returns `ok == false` for both.
- `RemoveDuplicatedTiles` keys tiles by the four socket values written one after the other. With
  multi-digit sockets two different signatures can share a key (`WfcSpec.KeyCollides`). With the
  game's 0/1 sockets the key is exact (`WfcSpec.KeyInjective`).
- `RemoveDuplicatedTiles` returns `uniqueTilesMap.Values.ToList()`, and the model takes that to be
  insertion order. .NET's `Dictionary` enumerates in insertion order when nothing has been
  removed, as here, but does not document this as a guarantee.
- `GetPath` with no tile at the start wraps null in a `TileNode`, which throws. It also throws at
  `queue.First()` when the queue is empty and the end was never generated. The model reports these
  as the outcomes `NoStartTile` and `QueueEmpty`. It proves that `QueueEmpty` happens exactly when
  the end cannot be reached.
- `TickRateUP` tests the level with `==` against `maxTickIncreaseLevel`. With a maximum below 1
  the level grows without bound (`Scheduler.LevelUnboundedBelowOne`).
- In `PayOffDebt` the debt is lowered inside the argument of `UpdateDebtWallet?.Invoke(...)`.
  C# does not evaluate that argument when the event has no subscriber. So until something calls
  `GetUpdatesForDebtChanges`, a payment is taxed and credited but the debt does not fall
  (`Debt.UnheardPaymentKeepsDebt`).
- With a tax below the 0.1 development share, an unclamped payment makes the debt grow
  (`Debt.PaymentBelowDevShare`).
- `BuildableObject.ItemWasDestroyed` never removes the item from `objects`. Destroying the same
  instance twice therefore counts down twice (`Buildables.DestroyTwice`).

Randomness (`UnityEngine.Random.Range`) is an oracle argument: a value `v` picks entry
`v % count`. Unstable `List.Sort` orders are an oracle among the tied minimal elements. Floats are
`real`, so float rounding is abstracted away. `Vector3.Distance` is an abstract function
parameter. The 0.1 tolerance in `GetObjectAtPos` and the 0.001 tolerances in `LegalPosition`
become exact equality.

## Model

| member | source | states |
|---|---|---|
| Enums.Opposite | Assets/Scripts/MapCreation/Tile.cs:128 | the socket facing back, `(d + 2) % 4`, is another direction whose opposite is `d` again |
| Enums.Step | Assets/Scripts/Pathfinding/PathFinder.cs:18-23 | a move is one unit along one axis; UP and DOWN keep x, RIGHT and LEFT keep z |
| Enums.Range | Assets/Scripts/MapCreation/WFCGenerator.cs:164 | `Enumerable.Range(0, n)`: n entries, entry i is i |
| Cells.NewCell | Assets/Scripts/MapCreation/Cell.cs:9-19 | `Cell(n)` is uncollapsed, owns no tile and has exactly the options 0, 1, ..., n-1 |
| Cells.NewCellFrom | Assets/Scripts/MapCreation/Cell.cs:21-29 | `Cell(null)` leaves the options null; otherwise the options are the array with each value written at its own index; the cell is uncollapsed |
| Cells.IndexedOptions | Assets/Scripts/MapCreation/Cell.cs:24 | the options array has the length of the input array |
| Cells.IndexedOptionsValues | Assets/Scripts/MapCreation/Cell.cs:25-28 | every input value becomes an option, and every option is an input value or CROSSROAD (the array default) |
| Cells.IndexedOptionsIdempotent | Assets/Scripts/MapCreation/Cell.cs:21-29 | building a cell from the options of a built cell gives the same options again |
| Tiles.NewTile | Assets/Scripts/MapCreation/Tile.cs:29-53 | a new tile has the given sockets at the origin, empty edge lists, no ValidDirections, no items and no grid |
| Tiles.Rotate | Assets/Scripts/MapCreation/Tile.cs:141-147 | new socket i is old socket `(i + num + 4) % 4` |
| Tiles.RotateTile | Assets/Scripts/MapCreation/Tile.cs:139-152 | `Rotate` returns a fresh tile with the turned sockets; the receiver is not changed |
| Tiles.RotateFour | Assets/Scripts/MapCreation/Tile.cs:139-152 | `Rotate(4)`, and four quarter turns, give back the original signature |
| Tiles.RotateIsSplice | Assets/Scripts/MapCreation/Tile.cs:141-147 | rotating by num moves the first `(num + 4) % 4` sockets to the back |
| Tiles.RotatePermutes | Assets/Scripts/MapCreation/Tile.cs:139-152 | the rotated sockets are a permutation of the original ones |
| Tiles.RoadTypeOf | Assets/Scripts/MapCreation/WFCGenerator.cs:331-349 | the RoadType of a signature is the smallest table index holding it, and NONE exactly when no entry holds it |
| Tiles.Probe | Assets/Scripts/MapCreation/Tile.cs:119-130 | probe entry i is neighbour i's socket `(i + 2) % 4`, or 0 when neighbour i is null |
| Tiles.Finalise | Assets/Scripts/MapCreation/Tile.cs:117-133 | the result is NONE exactly when the probe is not in the table, otherwise a table index whose entry is the probe |
| Tiles.FinaliseProbe | Assets/Scripts/MapCreation/Tile.cs:119-130 | the loop of `Finalise` builds exactly the probe |
| Tiles.FinaliseFitsNeighbours | Assets/Scripts/MapCreation/Tile.cs:117-133 | a tile adopting the found signature matches the facing socket of every present neighbour and has 0 towards every absent one |
| Tiles.CompareEdge | Assets/Scripts/MapCreation/Tile.cs:68 | two sockets fit exactly when they are equal; used by `Fits` and by the `Finalise` lemmas |
| Tiles.Fits | Assets/Scripts/MapCreation/Tile.cs:76-110 | the test `Analyse` applies: the other tile's facing socket equals this tile's socket in that direction; `EdgesAfterMembership` states what it adds |
| Tiles.EdgesAfter | Assets/Scripts/MapCreation/Tile.cs:76-110 | the list edges[d] after the loop over the tiles; `EdgesAfterMembership`, `EdgesAfterNoDuplicates`, `EdgesAfterExtends` and `EdgesAfterSaturated` give its contents |
| Tiles.AnalysedEdges | Assets/Scripts/MapCreation/Tile.cs:74-110 | all four lists after `Analyse`; `Tiles.Analyse` is proved to leave exactly these and `AnalyseIdempotent` that a second run keeps them |
| Tiles.Include | Assets/Scripts/MapCreation/Tile.cs:81-84 | after `if (!Contains) Add` the list holds exactly the old entries and the new one |
| Tiles.Analyse | Assets/Scripts/MapCreation/Tile.cs:74-111 | `Analyse` changes only the edge lists, to the lists its loop over the tiles builds |
| Tiles.EdgesAfterMembership | Assets/Scripts/MapCreation/Tile.cs:76-110 | type T is in edges[d] after `Analyse` exactly when it was there before or some listed tile with RoadType T fits in direction d (UP pairs 2 with 0, RIGHT 3 with 1, DOWN 0 with 2, LEFT 1 with 3) |
| Tiles.EdgesAfterNoDuplicates | Assets/Scripts/MapCreation/Tile.cs:76-110 | `Analyse` never puts a RoadType into a list twice |
| Tiles.EdgesAfterExtends | Assets/Scripts/MapCreation/Tile.cs:76-110 | `Analyse` only appends: the old list is a prefix of the new one |
| Tiles.EdgesAfterSaturated | Assets/Scripts/MapCreation/Tile.cs:76-110 | a list that already holds every type `Analyse` would add is left as it is |
| Tiles.AnalyseIdempotent | Assets/Scripts/MapCreation/Tile.cs:74-111 | running `Analyse` again over the same tile list leaves the edges unchanged |
| Tiles.EdgesAfterSocketsOnly | Assets/Scripts/MapCreation/Tile.cs:76-110 | `Analyse` reads only the other tiles' sockets |
| Tiles.AnalysedEdgesSocketsOnly | Assets/Scripts/MapCreation/Tile.cs:76-110 | tile lists with the same sockets in the same order give the same four edge lists |
| Tiles.DirectionMap | Assets/Scripts/MapCreation/Tile.cs:156-163 | the map holds every direction, with the socket of that direction |
| Tiles.SyncSockets | Assets/Scripts/MapCreation/Tile.cs:156-163 | afterwards `ValidDirections[d] == Sockets[d]` for all four directions, whatever it held before; nothing else changes |
| Tiles.ItemAt | Assets/Scripts/MapCreation/Tile.cs:211-215 | `GetObjectAtPos` finds the first item at the position, and null exactly when no item is there |
| Tiles.ReceiveObject | Assets/Scripts/MapCreation/Tile.cs:195-205 | true exactly when no item sits at the object's position; then the object is appended, otherwise the tile is unchanged |
| Tiles.RemoveObjAtPos | Assets/Scripts/MapCreation/Tile.cs:237-243 | no change when no item is found; otherwise exactly the found item is removed |
| Tiles.ReceiveThenRemove | Assets/Scripts/MapCreation/Tile.cs:195-243 | removing at the position of an object just received takes away exactly that object |
| Ownership.UpdateWellFormed | Assets/Scripts/MapCreation/WFCGenerator.cs:131-141 | replacing one cell by a well-formed cell keeps the grid well formed |
| WfcSpec.Filter | Assets/Scripts/MapCreation/WFCGenerator.cs:84-92 | the valid entries of a list, in order; never longer than the list |
| WfcSpec.FilterAppend | Assets/Scripts/MapCreation/WFCGenerator.cs:84-92 | filtering distributes over concatenation |
| WfcSpec.FilterMembership | Assets/Scripts/MapCreation/WFCGenerator.cs:84-92 | an entry survives exactly when it is in the list and in `valid` |
| WfcSpec.FilterAllValid | Assets/Scripts/MapCreation/WFCGenerator.cs:84-92 | a list of valid entries passes unchanged |
| WfcSpec.FilterRemoveInvalid | Assets/Scripts/MapCreation/WFCGenerator.cs:88-91 | removing an invalid entry anywhere does not change the filtered list |
| WfcSpec.CheckValidKeepStep | Assets/Scripts/MapCreation/WFCGenerator.cs:84-92 | a valid entry met by the backward walk stays, and the walk's invariant moves one index down |
| WfcSpec.CheckValidDropStep | Assets/Scripts/MapCreation/WFCGenerator.cs:88-91 | `List.Remove` of an invalid entry (its first occurrence) keeps the walk's invariant |
| WfcSpec.CheckValidSpec | Assets/Scripts/MapCreation/WFCGenerator.cs:77-97 | the array keeps its length and gains no new value |
| WfcSpec.CheckValidKeeps | Assets/Scripts/MapCreation/WFCGenerator.cs:77-97 | a valid entry of the array is still in it after `CheckValid` |
| WfcSpec.FirstIndex | Assets/Scripts/MapCreation/WFCGenerator.cs:90 | `List.Remove(v)` removes the first index holding v |
| WfcSpec.NatString | Assets/Scripts/MapCreation/WFCGenerator.cs:312 | the decimal text of a number is non-empty, and one digit for 0..9 |
| WfcSpec.DecimalString | Assets/Scripts/MapCreation/WFCGenerator.cs:312 | an interpolated integer in 0..9 is its one digit |
| WfcSpec.Key | Assets/Scripts/MapCreation/WFCGenerator.cs:312 | the dictionary key; `KeyInjective` and `KeyCollides` say when it tells signatures apart |
| WfcSpec.KeyInjective | Assets/Scripts/MapCreation/WFCGenerator.cs:312 | for single-digit sockets two tiles share a key exactly when they share a signature |
| WfcSpec.KeyCollides | Assets/Scripts/MapCreation/WFCGenerator.cs:312 | sockets [1,11,0,0] and [11,1,0,0] share the key "11100" |
| WfcSpec.KeysOf | Assets/Scripts/MapCreation/WFCGenerator.cs:312 | the key of every tile, position by position |
| WfcSpec.Dedup | Assets/Scripts/MapCreation/WFCGenerator.cs:307-324 | the deduplicated list is never longer than the input |
| WfcSpec.DedupSnoc | Assets/Scripts/MapCreation/WFCGenerator.cs:310-322 | one more tile is kept exactly when its key is new, which adds the key |
| WfcSpec.DedupCovers | Assets/Scripts/MapCreation/WFCGenerator.cs:307-324 | every kept tile comes from the input, and every input key is kept |
| WfcSpec.DedupKeysDistinct | Assets/Scripts/MapCreation/WFCGenerator.cs:314-317 | no two kept tiles share a key |
| WfcSpec.KeptIndices | Assets/Scripts/MapCreation/WFCGenerator.cs:307-324 | the input positions of the kept tiles |
| WfcSpec.FirstWithKeyPrefix | Assets/Scripts/MapCreation/WFCGenerator.cs:310-322 | whether a tile is the first with its key depends only on the tiles before it |
| WfcSpec.LastKeyFirst | Assets/Scripts/MapCreation/WFCGenerator.cs:314 | the `ContainsKey` test is false exactly for the first tile with its key |
| WfcSpec.DedupOnlyFirst | Assets/Scripts/MapCreation/WFCGenerator.cs:307-324 | every kept tile is the first input with its key, and kept tiles stay in input order |
| WfcSpec.DedupKeepsFirst | Assets/Scripts/MapCreation/WFCGenerator.cs:307-324 | every input that is first with its key is kept |
| WfcSpec.DedupSignaturesDistinct | Assets/Scripts/MapCreation/WFCGenerator.cs:307-324 | no two kept tiles share a signature |
| WfcSpec.DedupSignaturesCovered | Assets/Scripts/MapCreation/WFCGenerator.cs:307-324 | when the key tells signatures apart, every input signature is kept |
| WfcSpec.DedupDigitSignatures | Assets/Scripts/MapCreation/WFCGenerator.cs:307-324 | with 0..9 sockets every input signature is kept exactly once |
| WfcSpec.DedupInjectiveSockets | Assets/Scripts/MapCreation/WFCGenerator.cs:307-324 | under a separating key the kept signatures are the input signatures deduplicated first-first |
| WfcSpec.DedupDigitsSockets | Assets/Scripts/MapCreation/WFCGenerator.cs:307-324 | the same for single-digit sockets and the string key |
| WfcSpec.SocketsOf | Assets/Scripts/MapCreation/WFCGenerator.cs:387 | the signatures of a tile list, in order |
| WfcSpec.BaseTiles | Assets/Scripts/MapCreation/WFCGenerator.cs:362-366 | one new tile per material, with the table entry of its index |
| WfcSpec.RotationsOf | Assets/Scripts/MapCreation/WFCGenerator.cs:372-377 | the four tiles `Rotate(1)` to `Rotate(4)` make |
| WfcSpec.Rotations | Assets/Scripts/MapCreation/WFCGenerator.cs:369-379 | four rotations for every base tile |
| WfcSpec.RotationsOfSockets | Assets/Scripts/MapCreation/Tile.cs:141-147 | the four rotated signatures written out: the last one is the original |
| WfcSpec.AnalyseAll | Assets/Scripts/MapCreation/WFCGenerator.cs:391-396 | every tile analysed against the whole list; signatures unchanged |
| WfcSpec.SetupSpec | Assets/Scripts/MapCreation/WFCGenerator.cs:353-397 | the tiles and table `CheckInitialSetup` leaves, and whether it throws; `SetupExtendsTable`, `SetupNonEmpty`, `SetupFive`, `SetupComplete` and `SetupKeepsTables` prove what it leaves |
| WfcSpec.SetupExtendsTable | Assets/Scripts/MapCreation/WFCGenerator.cs:383-389 | setup only appends to the table, leaves a 12-entry table alone, and leaves it untouched when it throws |
| WfcSpec.SetupNonEmpty | Assets/Scripts/MapCreation/WFCGenerator.cs:362-381 | with at least one material a completed setup has a tile |
| WfcSpec.KeyedIffSocketed | Assets/Scripts/MapCreation/WFCGenerator.cs:314 | under a separating key, "key already met" means "signature already met" |
| WfcSpec.RotationsDigits | Assets/Scripts/MapCreation/Tile.cs:141-147 | rotating single-digit signatures gives single-digit signatures |
| WfcSpec.FiveMaterialTiles | Assets/Scripts/MapCreation/WFCGenerator.cs:362-381 | five materials on the initial table give exactly the twelve signatures of the complete table, in table order |
| WfcSpec.Full12Closed | Assets/Scripts/MapCreation/WFCGenerator.cs:369-379 | every rotation of a complete-table signature is in the complete table |
| WfcSpec.Full12RotationClosed | Assets/Scripts/MapCreation/WFCGenerator.cs:369-379 | the complete table holds every rotation of each entry |
| WfcSpec.RotationsWithin | Assets/Scripts/MapCreation/WFCGenerator.cs:369-379 | rotations of table signatures stay in a rotation-closed table |
| WfcSpec.Pigeonhole | Assets/Scripts/MapCreation/WFCGenerator.cs:381 | a repetition-free list drawn from a table is no longer than the table |
| WfcSpec.SetupFiveSizes | Assets/Scripts/MapCreation/WFCGenerator.cs:353-397 | five materials on the initial table leave twelve blueprint tiles and twelve table entries |
| WfcSpec.SetupFive | Assets/Scripts/MapCreation/WFCGenerator.cs:353-397 | five materials on the initial table: setup completes, the table grows to the twelve entries, one tile per entry in table order |
| WfcSpec.DedupWithin | Assets/Scripts/MapCreation/WFCGenerator.cs:362-381 | over a rotation-closed table the deduplicated tiles carry table signatures and are at most as many as the entries |
| WfcSpec.SetupComplete | Assets/Scripts/MapCreation/WFCGenerator.cs:383-389 | a second setup on the complete table leaves it unchanged, completes exactly when there are at most 12 materials, and yields at most 12 tiles with listed signatures |
| WfcSpec.SetupKeepsTables | Assets/Scripts/MapCreation/WFCGenerator.cs:353-397 | setup leaves either the initial five-entry table or the complete twelve, and never more tiles than entries |
| WfcPass.RowIndex | Assets/Scripts/MapCreation/WFCGenerator.cs:213-218 | cell `j + i*n` of row i lies in the grid, and row i ends where row i+1 starts |
| WfcPass.CellPosInjective | Assets/Scripts/MapCreation/WFCGenerator.cs:229-239 | distinct cells get distinct positions |
| WfcPass.CellPosInSquare | Assets/Scripts/MapCreation/WFCGenerator.cs:229-239 | every cell's position is inside the n x n square |
| WfcPass.CellPosCovers | Assets/Scripts/MapCreation/WFCGenerator.cs:213-239 | every position of the square belongs to some cell |
| WfcPass.NeighbourIndices | Assets/Scripts/MapCreation/WFCGenerator.cs:157-183 | every neighbour `CheckNeighbours` reads under its guards is inside the grid |
| WfcPass.OwnedPositionsDistinct | Assets/Scripts/MapCreation/WFCGenerator.cs:229-239 | generated tiles never share a position |
| WfcPass.FreshGrid | Assets/Scripts/MapCreation/WFCGenerator.cs:66-70 | n*n cells, each `Cell(T)` |
| WfcPass.FreshGridValid | Assets/Scripts/MapCreation/WFCGenerator.cs:59-71 | a fresh grid with no generated tiles meets the generator's invariants |
| WfcPass.Uncollapsed | Assets/Scripts/MapCreation/WFCGenerator.cs:103-104 | `gridCopy` lists only uncollapsed cells, in grid order, each once |
| WfcPass.UncollapsedComplete | Assets/Scripts/MapCreation/WFCGenerator.cs:104 | every uncollapsed cell is listed |
| WfcPass.UncollapsedExactly | Assets/Scripts/MapCreation/WFCGenerator.cs:104 | a cell is listed exactly when it is uncollapsed |
| WfcPass.UncollapsedAll | Assets/Scripts/MapCreation/WFCGenerator.cs:104-106 | nothing is listed exactly when every cell is collapsed |
| WfcPass.UncollapsedSameFlags | Assets/Scripts/MapCreation/WFCGenerator.cs:104 | grids with the same collapse flags list the same cells |
| WfcPass.UncollapsedAfterCollapse | Assets/Scripts/MapCreation/WFCGenerator.cs:131 | collapsing one listed cell lists one cell fewer |
| WfcPass.ArgMin | Assets/Scripts/MapCreation/WFCGenerator.cs:115-117 | the front of the sorted copy has no more options than any listed cell |
| WfcPass.MinCount | Assets/Scripts/MapCreation/WFCGenerator.cs:117 | `len` is the fewest options of any uncollapsed cell, reached by one of them |
| WfcPass.WithCount | Assets/Scripts/MapCreation/WFCGenerator.cs:118-128 | the cells with exactly that option count, in order |
| WfcPass.Ties | Assets/Scripts/MapCreation/WFCGenerator.cs:115-128 | what `RemoveRange` leaves: exactly the uncollapsed cells with the fewest options, non-empty |
| WfcPass.Chosen | Assets/Scripts/MapCreation/WFCGenerator.cs:130 | the chosen cell is uncollapsed and has no more options than any uncollapsed cell |
| WfcPass.TiesAreAllUncollapsed | Assets/Scripts/MapCreation/WFCGenerator.cs:115-128 | since every uncollapsed cell has all T options, all of them tie |
| WfcPass.CollapsedCell | Assets/Scripts/MapCreation/WFCGenerator.cs:131-141 | the chosen cell becomes collapsed with one option, one of its previous options |
| WfcPass.EdgesUnion | Assets/Scripts/MapCreation/WFCGenerator.cs:199-205 | `validOptions` built over a neighbour's options; `EdgesUnionMembership` gives its members |
| WfcPass.ValidOptions | Assets/Scripts/MapCreation/WFCGenerator.cs:197-205 | the types `CheckNeighbour` lets through from one neighbour; `Generator.CheckNeighbour` filters by exactly these |
| WfcPass.EdgesUnionMembership | Assets/Scripts/MapCreation/WFCGenerator.cs:199-205 | a type is in `validOptions` exactly when the blueprint of some option of the neighbour lists it in edges[d] |
| WfcPass.NeighbourIndex | Assets/Scripts/MapCreation/WFCGenerator.cs:166-183 | a neighbour that the direction's guard admits lies inside the grid |
| WfcPass.FilteredUpTo | Assets/Scripts/MapCreation/WFCGenerator.cs:164-184 | the options after the first s guarded calls keep the length T |
| WfcPass.Propagated | Assets/Scripts/MapCreation/WFCGenerator.cs:164-184 | the options after all four guarded calls keep the length T |
| WfcPass.FilteredUpToWithin | Assets/Scripts/MapCreation/WFCGenerator.cs:164-184 | the filters never invent an option |
| WfcPass.PropagatedWithin | Assets/Scripts/MapCreation/WFCGenerator.cs:164-184 | propagation yields only tile indices |
| WfcPass.FilteredUpToKeeps | Assets/Scripts/MapCreation/WFCGenerator.cs:164-184 | a type every neighbour looked at so far admits survives |
| WfcPass.PropagatedKeeps | Assets/Scripts/MapCreation/WFCGenerator.cs:164-184 | a type all in-grid neighbours admit survives; nothing past the edge constrains |
| WfcPass.NextGrid | Assets/Scripts/MapCreation/WFCGenerator.cs:152-189 | the new grid has the old grid's size |
| WfcPass.NextGridKeepsCollapsed | Assets/Scripts/MapCreation/WFCGenerator.cs:158-161 | `CheckNeighbours` keeps every collapse flag and carries collapsed cells over unchanged |
| WfcPass.NextCell | Assets/Scripts/MapCreation/WFCGenerator.cs:158-185 | the cell `CheckNeighbours` rebuilds; `NextCellProperties` gives its options and `Generator.CheckNeighbours` builds exactly these |
| WfcPass.NextCellProperties | Assets/Scripts/MapCreation/WFCGenerator.cs:164-185 | a rebuilt cell is well formed and holds exactly the propagated options plus CROSSROAD where an index is missing |
| WfcPass.NextGridProperties | Assets/Scripts/MapCreation/WFCGenerator.cs:150-190 | `CheckNeighbours` keeps the grid well formed; every rebuilt cell has all T options, every propagated option, and nothing else but CROSSROAD |
| WfcPass.NextGridOwned | Assets/Scripts/MapCreation/WFCGenerator.cs:150-190 | `CheckNeighbours` keeps the ownership of tiles by cells |
| WfcPass.NextGridAllCollapsed | Assets/Scripts/MapCreation/WFCGenerator.cs:150-190 | on a fully collapsed grid `CheckNeighbours` changes nothing |
| WfcPass.MaterialiseCell | Assets/Scripts/MapCreation/WFCGenerator.cs:219-241 | materialising one cell keeps the grid's size and never drops a generated tile |
| WfcPass.MaterialiseStep | Assets/Scripts/MapCreation/WFCGenerator.cs:218-219 | one step of the walk keeps the grid's size and never drops a generated tile |
| WfcPass.MaterialiseUpTo | Assets/Scripts/MapCreation/WFCGenerator.cs:211-246 | the walk never drops a generated tile or cell |
| WfcPass.MaterialiseSkip | Assets/Scripts/MapCreation/WFCGenerator.cs:219 | an uncollapsed cell changes nothing |
| WfcPass.MaterialiseRefresh | Assets/Scripts/MapCreation/WFCGenerator.cs:222-233 | a cell that owns tile t gives t the cell's signature at the cell's position, and nothing else changes |
| WfcPass.MaterialiseAppend | Assets/Scripts/MapCreation/WFCGenerator.cs:234-241 | a cell without a tile gets a new tile with its signature at its position, appended and referenced |
| WfcPass.MaterialiseAppendCells | Assets/Scripts/MapCreation/WFCGenerator.cs:236 | only that cell changes, and only by its new tile |
| WfcPass.MaterialiseAppendOwned | Assets/Scripts/MapCreation/WFCGenerator.cs:236-237 | the new tile belongs to that cell alone |
| WfcPass.MaterialiseAppendSockets | Assets/Scripts/MapCreation/WFCGenerator.cs:236-237 | old tiles keep their places; the new one has the signature of the cell's option |
| WfcPass.MaterialiseStepInv | Assets/Scripts/MapCreation/WFCGenerator.cs:218-242 | one step of the walk keeps every invariant of the walk |
| WfcPass.MaterialiseUpToInv | Assets/Scripts/MapCreation/WFCGenerator.cs:211-246 | after k cells ownership, flags, options and old tiles are kept, and every collapsed cell among the first k owns a tile with its option's signature |
| WfcPass.MaterialiseIdempotent | Assets/Scripts/MapCreation/WFCGenerator.cs:211-246 | materialising a materialised grid changes nothing |
| WfcPass.TileIndexAt | Assets/Scripts/MapCreation/WFCGenerator.cs:289-301 | the first generated tile at the position, or none exactly when no tile is there |
| WfcPass.NeighbourSockets | Assets/Scripts/MapCreation/WFCGenerator.cs:254-262 | four entries: the sockets of the tile one step away in each direction, or null |
| WfcPass.FinaliseUpTo | Assets/Scripts/MapCreation/WFCGenerator.cs:252-280 | the pass keeps the number of tiles, every position and every item list, leaves the tiles after K untouched, keeps table signatures, and cannot throw while there are as many blueprint tiles as table entries |
| WfcPass.FinaliseUpToStops | Assets/Scripts/MapCreation/WFCGenerator.cs:274 | once the pass throws it stays thrown, with the tiles as they were |
| WfcPass.FinaliseTile | Assets/Scripts/MapCreation/WFCGenerator.cs:252-280 | one tile of `FinaliseConfig`; `FinaliseTileFits` proves the new signature matches its neighbours and `FinaliseUpTo` that it throws only past the blueprint tiles |
| WfcPass.FinaliseTileFits | Assets/Scripts/MapCreation/WFCGenerator.cs:252-280 | a re-signed tile matches the facing socket of each neighbouring tile, has 0 towards the map edge, and its ValidDirections equal its sockets |
| WfcPass.FinaliseKeepsOwned | Assets/Scripts/MapCreation/WFCGenerator.cs:250-281 | the finalise pass keeps the ownership invariant |
| WfcPass.FinalisePass | Assets/Scripts/MapCreation/WFCGenerator.cs:250-281 | the whole pass keeps the number and positions of the tiles |
| WfcPass.SortShape | Assets/Scripts/MapCreation/WFCGenerator.cs:101-145 | `SortGridCopy` keeps a well-formed n x n grid well formed |
| WfcPass.CollapseKeepsOwned | Assets/Scripts/MapCreation/WFCGenerator.cs:131-141 | collapsing a cell that owns no tile keeps ownership |
| WfcPass.NoneUncollapsed | Assets/Scripts/MapCreation/WFCGenerator.cs:104-106 | no cell left to collapse exactly when every cell is collapsed |
| WfcPass.FinishSort | Assets/Scripts/MapCreation/WFCGenerator.cs:106-113 | the branch with no cell left; `FinishSortValid` and `FinishSortDone` state what it keeps and sets |
| WfcPass.StepSort | Assets/Scripts/MapCreation/WFCGenerator.cs:115-144 | the collapsing branch; `StepSortValid` and `StepSortProgress` state what it keeps and collapses |
| WfcPass.SortSpec | Assets/Scripts/MapCreation/WFCGenerator.cs:101-145 | `SortGridCopy`, choosing the branch; `SortValid`, `SortShape` and `SortRestarts` state what it keeps |
| WfcPass.CollapseSpec | Assets/Scripts/MapCreation/WFCGenerator.cs:49-55 | one generation pass; `CollapseSpecValid`, `CollapseSpecOk`, `CollapseSpecSteps`, `CollapseSpecFinishes` and `CollapseSpecProgress` prove it keeps the invariants, collapses one cell or finishes, and throws only with too few tiles |
| WfcPass.FinishSortValid | Assets/Scripts/MapCreation/WFCGenerator.cs:106-113 | the finishing branch keeps the invariants when it does not throw |
| WfcPass.StepSortValid | Assets/Scripts/MapCreation/WFCGenerator.cs:115-144 | the collapsing branch keeps the invariants |
| WfcPass.SortValid | Assets/Scripts/MapCreation/WFCGenerator.cs:101-145 | `SortGridCopy` keeps the invariants when it does not throw |
| WfcPass.CollapseSpecOk | Assets/Scripts/MapCreation/WFCGenerator.cs:274 | a pass can throw only at `this.tiles[roadType]`, so with at least as many blueprint tiles as table entries it never throws |
| WfcPass.CollapseSpecValid | Assets/Scripts/MapCreation/WFCGenerator.cs:49-55 | a pass that does not throw keeps well-formed cells, ownership and table signatures |
| WfcPass.FinishSortDone | Assets/Scripts/MapCreation/WFCGenerator.cs:106-113 | the finishing branch sets `done` unless it throws, and leaves the grid as it was |
| WfcPass.StepSortProgress | Assets/Scripts/MapCreation/WFCGenerator.cs:130-144 | with a blueprint tile the collapsing branch collapses exactly one cell |
| WfcPass.CollapseSpecFinishes | Assets/Scripts/MapCreation/WFCGenerator.cs:49-55 | a pass over a fully collapsed grid finishes unless it throws, with every cell collapsed and owning a tile |
| WfcPass.CollapseSpecSteps | Assets/Scripts/MapCreation/WFCGenerator.cs:49-55 | with a blueprint tile a pass over a grid with cells left collapses exactly one |
| WfcPass.CollapseSpecProgress | Assets/Scripts/MapCreation/WFCGenerator.cs:43-55 | every pass either collapses one more cell or finishes, so the generation loop ends |
| WfcPass.CollapseSpecRestarts | Assets/Scripts/MapCreation/WFCGenerator.cs:133-137 | with no blueprint tiles every pass starts over from a fresh grid, so `done` is never set |
| WfcPass.SortRestarts | Assets/Scripts/MapCreation/WFCGenerator.cs:133-137 | with no blueprint tiles `SortGridCopy` on a grid with cells left starts over |
| WFC.Generator.constructor | Assets/Scripts/MapCreation/WFCGenerator.cs:19-28 | no tiles, an empty grid, the five-entry table, not done |
| WFC.Generator.StartOver | Assets/Scripts/MapCreation/WFCGenerator.cs:59-71 | no generated tiles; `mapSize*mapSize` fresh uncollapsed cells, each with options 0..tiles.Count-1 |
| WFC.Generator.MaterialiseCellAt | Assets/Scripts/MapCreation/WFCGenerator.cs:218-242 | the loop body: the state after cell k is the walk's state after k+1 cells |
| WFC.Generator.MaterialiseRow | Assets/Scripts/MapCreation/WFCGenerator.cs:215-244 | the inner loop covers the cells of row i |
| WFC.Generator.CheckCollapsedCells | Assets/Scripts/MapCreation/WFCGenerator.cs:211-246 | the new state is the walk over all n*n cells |
| WFC.Generator.GetRoadType | Assets/Scripts/MapCreation/WFCGenerator.cs:331-349 | the smallest index whose entry equals the sockets, or NONE |
| WFC.Generator.GetNeighbour | Assets/Scripts/MapCreation/WFCGenerator.cs:289-301 | found exactly when a tile sits there, and then the first such tile |
| WFC.Generator.GetTile | Assets/Scripts/MapCreation/WFCGenerator.cs:423-435 | the first generated tile at the position, or null |
| WFC.Generator.FinaliseTileAt | Assets/Scripts/MapCreation/WFCGenerator.cs:253-279 | the loop body for one tile, as the finalise specification says |
| WFC.Generator.FinaliseConfig | Assets/Scripts/MapCreation/WFCGenerator.cs:250-281 | the whole finalise pass, with only the generated tiles changed |
| WFC.Generator.RemoveDuplicatedTiles | Assets/Scripts/MapCreation/WFCGenerator.cs:307-324 | the result is the first tile for each key, in the order the keys were met |
| WFC.Generator.UncollapsedCells | Assets/Scripts/MapCreation/WFCGenerator.cs:103-104 | `gridCopy` is the uncollapsed cells |
| WFC.Generator.FewestOptions | Assets/Scripts/MapCreation/WFCGenerator.cs:115-117 | `len` is the fewest options |
| WFC.Generator.TiedCells | Assets/Scripts/MapCreation/WFCGenerator.cs:118-128 | the cells left are the ties |
| WFC.Generator.SortGridCopy | Assets/Scripts/MapCreation/WFCGenerator.cs:101-145 | with no cell left, two finalise passes and `done`; otherwise the chosen tied cell collapses, or the grid starts over |
| WFC.Generator.CollapseChosen | Assets/Scripts/MapCreation/WFCGenerator.cs:131-144 | no option left starts over; otherwise the cell keeps one of its options |
| WFC.Generator.Collapse | Assets/Scripts/MapCreation/WFCGenerator.cs:49-55 | nothing on an empty grid; otherwise the three steps, and the invariants hold after a pass that does not throw |
| WFC.Generator.MakeBaseTiles | Assets/Scripts/MapCreation/WFCGenerator.cs:362-366 | one tile per material; throws exactly when there are more materials than table entries |
| WFC.Generator.AddRotations | Assets/Scripts/MapCreation/WFCGenerator.cs:369-379 | the four rotations of every base tile are appended |
| WFC.Generator.ExtendTable | Assets/Scripts/MapCreation/WFCGenerator.cs:383-389 | the new tiles' signatures are appended under the next keys; throws exactly on a key already present |
| WFC.Generator.AnalyseTiles | Assets/Scripts/MapCreation/WFCGenerator.cs:391-396 | every tile analysed against the list |
| WFC.Generator.CheckInitialSetup | Assets/Scripts/MapCreation/WFCGenerator.cs:353-397 | the tiles and table are what the setup specification gives, false where the source throws |
| WFC.Generator.Start | Assets/Scripts/MapCreation/WFCGenerator.cs:35-45 | the tiles and table are the setup's; it fails whenever setup throws, and succeeds whenever setup completes with at least as many blueprint tiles as table entries; then, on a non-empty map with tiles, the loop finishes after exactly `n*n + 1` passes with every cell collapsed and owning a tile; with no tiles or an empty map it never finishes |
| WFC.Generator.Restart | Assets/Scripts/MapCreation/WFCGenerator.cs:41-42 | a fresh grid and `done` cleared |
| WFC.Generator.RunPasses | Assets/Scripts/MapCreation/WFCGenerator.cs:43 | the loop keeps the tiles, the table, the invariants and its progress measure, and cannot throw with at least as many blueprint tiles as table entries |
| WFC.Generator.GenerationPass | Assets/Scripts/MapCreation/WFCGenerator.cs:43 | one pass keeps the tiles and table, moves the progress measure on by one, and cannot throw with at least as many blueprint tiles as table entries |
| WFC.StartFiveMaterials | Assets/Scripts/MapCreation/WFCGenerator.cs:35-45 | with the game's five materials generation never throws, and with more draws than cells it finishes after `n*n + 1` passes with every cell collapsed and owning a tile |
| WFC.Generator.CheckValid | Assets/Scripts/MapCreation/WFCGenerator.cs:77-97 | the array becomes its valid entries in order over a prefix, the tail untouched, the length unchanged |
| WFC.Generator.CheckNeighbour | Assets/Scripts/MapCreation/WFCGenerator.cs:197-207 | the options are filtered by the union of the neighbour's options' edges[d] |
| WFC.Generator.CheckNeighbourIf | Assets/Scripts/MapCreation/WFCGenerator.cs:166-183 | one guarded call moves the filter state one direction on |
| WFC.Generator.PropagateCell | Assets/Scripts/MapCreation/WFCGenerator.cs:164-185 | an uncollapsed cell is rebuilt from its propagated options |
| WFC.Generator.RebuildCell | Assets/Scripts/MapCreation/WFCGenerator.cs:157-186 | entry `index` of `nextGrid` becomes the rebuilt cell; every other entry is kept |
| WFC.Generator.CheckNeighbours | Assets/Scripts/MapCreation/WFCGenerator.cs:150-190 | the new grid is the propagated grid; nothing else changes |
| WFC.TurnedTiles | Assets/Scripts/MapCreation/WFCGenerator.cs:372-377 | the inner loop makes `Rotate(1)` to `Rotate(4)` |
| WFC.CopyToList | Assets/Scripts/MapCreation/WFCGenerator.cs:79-83 | the list is the array |
| WFC.RemoveInvalid | Assets/Scripts/MapCreation/WFCGenerator.cs:84-92 | the backward `List.Remove` walk leaves exactly the valid entries in order |
| WFC.WriteFront | Assets/Scripts/MapCreation/WFCGenerator.cs:93-96 | the list is written over the front; the rest of the array is kept |
| TileNodes.TileNode.constructor | Assets/Scripts/Pathfinding/TileNode.cs:14-19 | no parent, no steps, and the distance fixed from the tile position and the target |
| TileNodes.TileNode.Position | Assets/Scripts/Pathfinding/TileNode.cs:13 | always the wrapped tile's position, which the pathfinder reads for its paths and its end test |
| TileNodes.TileNode.SetSteps | Assets/Scripts/Pathfinding/TileNode.cs:24-27 | the steps are overwritten; the parent is kept |
| TileNodes.TileNode.SetParent | Assets/Scripts/Pathfinding/TileNode.cs:32-35 | the parent is written only while it is null |
| TileNodes.SetParentTwice | Assets/Scripts/Pathfinding/TileNode.cs:32-35 | a second `SetParent` leaves the first parent |
| Pathfinding.Reversed | Assets/Scripts/Pathfinding/PathFinder.cs:90 | `List.Reverse`: same length, entry i from the other end |
| Pathfinding.NoStartUnreachable | Assets/Scripts/Pathfinding/PathFinder.cs:52-53 | without a tile at the start no other position is reachable |
| Pathfinding.LinkStaysIn | Assets/Scripts/Pathfinding/PathFinder.cs:57-63 | a move from a tile of a closed set stays in the set |
| Pathfinding.WalkStaysIn | Assets/Scripts/Pathfinding/PathFinder.cs:57-63 | a walk from a closed set never leaves it |
| Pathfinding.ClosedUnreachable | Assets/Scripts/Pathfinding/PathFinder.cs:55-81 | an end outside a closed set cannot be reached from inside it |
| Pathfinding.TreeSnoc | Assets/Scripts/Pathfinding/PathFinder.cs:61-67 | a child made one open side away keeps the node tree a tree |
| Pathfinding.ParentsSnoc | Assets/Scripts/Pathfinding/PathFinder.cs:64-66 | a child with parent and steps + 1 keeps the parent links |
| Pathfinding.RootPath | Assets/Scripts/Pathfinding/PathFinder.cs:83-90 | the root path of a node ends at the node's position |
| Pathfinding.Above | Assets/Scripts/Pathfinding/PathFinder.cs:84-88 | the positions above a node; for any node but the root they start at the start tile |
| Pathfinding.RootPathIsPath | Assets/Scripts/Pathfinding/PathFinder.cs:55-90 | the root path starts at the start tile and every step is a move through an open side onto a tile |
| Pathfinding.RootPathSteps | Assets/Scripts/Pathfinding/PathFinder.cs:64-88 | a node's root path has `Steps + 1` entries |
| Pathfinding.WalkStep | Assets/Scripts/Pathfinding/PathFinder.cs:84-88 | each parent step keeps the reversed walk a tail of the root path |
| Pathfinding.RemoveFirst | Assets/Scripts/Pathfinding/PathFinder.cs:81 | `List.Remove` drops the first occurrence only |
| Pathfinding.GrownSnoc | Assets/Scripts/Pathfinding/PathFinder.cs:62-63 | visiting one more tile for one more node |
| Pathfinding.GrownNoDuplicates | Assets/Scripts/Pathfinding/PathFinder.cs:62-63 | the visited list never holds a tile twice, so each tile is enqueued at most once |
| Pathfinding.QueueInArena | Assets/Scripts/Pathfinding/PathFinder.cs:67 | queued nodes stay among the nodes made |
| Pathfinding.CoveredGrows | Assets/Scripts/Pathfinding/PathFinder.cs:62-63 | covering only grows with the visited list |
| Pathfinding.FrontierAfterExpand | Assets/Scripts/Pathfinding/PathFinder.cs:57-75 | an expansion keeps the frontier invariant |
| Pathfinding.ExpandingSkip | Assets/Scripts/Pathfinding/PathFinder.cs:59-62 | a closed side, a missing tile or a visited tile adds nothing |
| Pathfinding.ExpandingAdd | Assets/Scripts/Pathfinding/PathFinder.cs:63-67 | a new tile joins the nodes, the queue and the visited list |
| Pathfinding.SearchingAfterExpand | Assets/Scripts/Pathfinding/PathFinder.cs:57-76 | an expansion that misses the end keeps the search invariant and shrinks the unvisited tiles unless it made nothing |
| Pathfinding.SearchingExhausted | Assets/Scripts/Pathfinding/PathFinder.cs:80 | with nothing queued the end is unreachable |
| Pathfinding.SearchingAfterPop | Assets/Scripts/Pathfinding/PathFinder.cs:79-81 | the popped node becomes the current node of the tree |
| Pathfinding.FrontierAfterPop | Assets/Scripts/Pathfinding/PathFinder.cs:79-81 | popping keeps the frontier |
| Pathfinding.FrontierExhausted | Assets/Scripts/Pathfinding/PathFinder.cs:80 | an empty queue leaves the visited tiles closed |
| Pathfinding.UnvisitedShrinks | Assets/Scripts/Pathfinding/PathFinder.cs:62-63 | visiting a new tile shrinks the unvisited set |
| Pathfinding.Cheapest | Assets/Scripts/Pathfinding/PathFinder.cs:79-80 | the node taken has the least `Steps + DistanceToTarget` in the queue |
| Pathfinding.Rebuild | Assets/Scripts/Pathfinding/PathFinder.cs:83-90 | the reversed parent walk is the goal's root path |
| Pathfinding.PathFinder.constructor | Assets/Scripts/Pathfinding/PathFinder.cs:14-17 | the generator is stored and the path is empty |
| Pathfinding.PathFinder.FindPath | Assets/Scripts/Pathfinding/PathFinder.cs:31-43 | `[start]` when start equals end; Found exactly when the end is reachable, and then a path of moves from start to end; otherwise no path |
| Pathfinding.PathFinder.GetPath | Assets/Scripts/Pathfinding/PathFinder.cs:48-91 | the crash without a start tile, Found exactly when reachable, and then a path from start to end |
| Pathfinding.PathFinder.Search | Assets/Scripts/Pathfinding/PathFinder.cs:55-82 | on success a node tree from the start to a goal at the end; on an empty queue the end is unreachable |
| Pathfinding.PathFinder.Round | Assets/Scripts/Pathfinding/PathFinder.cs:56-81 | one loop turn reaches the end, exhausts the queue (unreachable end), or keeps the search invariant |
| Pathfinding.PathFinder.Pop | Assets/Scripts/Pathfinding/PathFinder.cs:79-81 | an empty queue throws and means an unreachable end; otherwise a cheapest node leaves the queue and becomes current |
| Pathfinding.PathFinder.MakeChild | Assets/Scripts/Pathfinding/PathFinder.cs:64-66 | a fresh node for the tile, with the current node as parent and one step more |
| Pathfinding.PathFinder.Visit | Assets/Scripts/Pathfinding/PathFinder.cs:59-74 | one direction of the foreach keeps the expansion invariant and adds at most one node |
| Pathfinding.PathFinder.Expand | Assets/Scripts/Pathfinding/PathFinder.cs:57-75 | one node per newly visited tile, enqueued in order; stops at once when the end is generated, else covers the current tile |
| Scheduler.LastIndex | Assets/Scripts/Managers/GameManager.cs:183 | delegate `-=` takes out the last occurrence |
| Scheduler.RemoveLast | Assets/Scripts/Managers/GameManager.cs:180-211 | removing an absent delegate changes nothing; otherwise exactly one occurrence goes |
| Scheduler.RemoveLastMembers | Assets/Scripts/Managers/GameManager.cs:181-185 | on a duplicate-free list the delegate is gone and every other one stays |
| Scheduler.Subscribe | Assets/Scripts/Managers/GameManager.cs:180-211 | one delegate: `-=` removes its last occurrence, `+=` adds it unless present; `SubscribeAllAdds`/`SubscribeAllRemoves` give the result |
| Scheduler.SubscribeAll | Assets/Scripts/Managers/GameManager.cs:176-211 | the fold over all delegates; its lemmas prove the add and remove contents, idempotence and the no-op on present delegates |
| Scheduler.SubscribeAllAdds | Assets/Scripts/Managers/GameManager.cs:176-211 | adding keeps the list duplicate-free, and it holds exactly the old and the new delegates |
| Scheduler.SubscribeAllRemoves | Assets/Scripts/Managers/GameManager.cs:176-207 | removing leaves exactly the old delegates not passed |
| Scheduler.SubscribeAllPresent | Assets/Scripts/Managers/GameManager.cs:180-211 | adding delegates that are already subscribed is a no-op |
| Scheduler.SubscribeAllIdempotent | Assets/Scripts/Managers/GameManager.cs:176-211 | adding the same delegates twice equals adding them once |
| Scheduler.SubscribeTwiceInOneCall | Assets/Scripts/Managers/GameManager.cs:176-211 | the same delegate twice in one call subscribes it once |
| Scheduler.Fired | Assets/Scripts/Managers/GameManager.cs:252-263 | the kinds one round fires; `FiredSpec` and `FiredCounts` state when DAY and WEEK are among them |
| Scheduler.Next | Assets/Scripts/Managers/GameManager.cs:252-257 | the clock after one round; `FiredCounts` and `AfterCounts` tie its counters to the events fired |
| Scheduler.FiredSpec | Assets/Scripts/Managers/GameManager.cs:252-263 | TICK always fires first; DAY exactly on a whole day; WEEK exactly on a whole day that is a whole week, after DAY |
| Scheduler.CsRem | Assets/Scripts/Managers/GameManager.cs:44 | C#'s truncating `%`: for a non-negative count it is the remainder in [0, b); for a negative count it lies in (-b, 0] |
| Scheduler.FiredCounts | Assets/Scripts/Managers/GameManager.cs:252-263 | one tick fires TICK once, DAY as often as the day counter rises, WEEK as often as the week count rises |
| Scheduler.AfterCounts | Assets/Scripts/Managers/GameManager.cs:252-257 | after n ticks the tick counter rose by n and the day counter by the number of whole days crossed |
| Scheduler.ScheduleCounts | Assets/Scripts/Managers/GameManager.cs:252-263 | n ticks fire TICK n times, DAY once per day counted and WEEK once per week counted |
| Scheduler.DaysCrossed | Assets/Scripts/Managers/GameManager.cs:255-258 | DAY fires once for every multiple of 24 crossed |
| Scheduler.OneWeek | Assets/Scripts/Managers/GameManager.cs:252-263 | from the start of a week (zero counters included), 168 ticks fire TICK 168 times, DAY 7 times, WEEK once |
| Scheduler.RaisedLevel | Assets/Scripts/Managers/GameManager.cs:270-280 | `TickRateUP`'s new level; `LevelStaysInRange` and `RaiseThenLower` bound and invert it |
| Scheduler.LoweredLevel | Assets/Scripts/Managers/GameManager.cs:284-291 | `TickRateDOWN`'s new level; the same lemmas bound it and show it undoes a raise |
| Scheduler.LevelStaysInRange | Assets/Scripts/Managers/GameManager.cs:270-291 | the level stays within [1, max]; paused, neither button changes it |
| Scheduler.RaiseThenLower | Assets/Scripts/Managers/GameManager.cs:270-291 | faster then slower returns to the same level |
| Scheduler.LevelUnboundedBelowOne | Assets/Scripts/Managers/GameManager.cs:272 | with a maximum below 1 the level grows past it |
| Scheduler.Hired | Assets/Scripts/Managers/GameManager.cs:94-100 | the success list is empty exactly when no delegate answers true |
| Scheduler.HiredMembers | Assets/Scripts/Managers/GameManager.cs:94-99 | a company is in the success list exactly when some delegate answered true with it |
| Scheduler.GameManager.constructor | Assets/Scripts/Managers/GameManager.cs:17-48 | zero counters, level 1, not paused, empty events |
| Scheduler.GameManager.TimeOfDay | Assets/Scripts/Managers/GameManager.cs:44 | `ticks % 24`, in [0, 24) |
| Scheduler.GameManager.AddToEvent | Assets/Scripts/Managers/GameManager.cs:174-215 | the chosen list becomes the subscription fold over the delegates; the others are untouched |
| Scheduler.GameManager.SetSubscribers | Assets/Scripts/Managers/GameManager.cs:180-211 | writes exactly one of the three lists |
| Scheduler.GameManager.AddWorker | Assets/Scripts/Managers/GameManager.cs:220-228 | `+=` appends even a present delegate; `-=` removes one occurrence |
| Scheduler.GameManager.AddShop | Assets/Scripts/Managers/GameManager.cs:234-242 | the same for the shop event |
| Scheduler.GameManager.Tick | Assets/Scripts/Managers/GameManager.cs:252-263 | the clock steps once, the fired kinds and the delegates called are in TICK, DAY, WEEK order, and DAY fires exactly when the time of day wraps to 0 |
| Scheduler.GameManager.RunTicks | Assets/Scripts/Managers/GameManager.cs:249-265 | n rounds fire exactly the schedule of n ticks |
| Scheduler.GameManager.TickRateUP | Assets/Scripts/Managers/GameManager.cs:270-280 | one level up unless at the maximum or paused |
| Scheduler.GameManager.TickRateDOWN | Assets/Scripts/Managers/GameManager.cs:284-291 | one level down unless at 1 or paused |
| Scheduler.GameManager.PauseTicks | Assets/Scripts/Managers/GameManager.cs:305-309 | paused; nothing else changes |
| Scheduler.GameManager.ResumeTicks | Assets/Scripts/Managers/GameManager.cs:313-317 | not paused; nothing else changes |
| Scheduler.GameManager.TogglePause | Assets/Scripts/Managers/GameManager.cs:296-301 | the pause flag flips |
| Scheduler.GameManager.LookForWork | Assets/Scripts/Managers/GameManager.cs:78-108 | true exactly when some subscribed delegate answers true; the company comes from the success list; `tempEntity` is cleared only on success |
| Scheduler.GameManager.GotToTheShop | Assets/Scripts/Managers/GameManager.cs:115-143 | true only with an accepting subscriber that is a shop; when every acceptor is a shop, true exactly when one accepts; `tempEntity` cleared only on success |
| Scheduler.TogglePauseTwice | Assets/Scripts/Managers/GameManager.cs:296-301 | two toggles restore the pause flag |
| Scheduler.Singleton.constructor | Assets/Scripts/Managers/GameManager.cs:371 | no instance yet |
| Scheduler.Singleton.SetInstance | Assets/Scripts/Managers/GameManager.cs:375-384 | the first value sticks; later ones are destroyed |
| Scheduler.SetInstanceTwice | Assets/Scripts/Managers/GameManager.cs:375-384 | a second assignment does not replace the instance |
| Tools.Floor | Assets/Scripts/Misc/Tools.cs:63 | `FloorToInt`: the largest integer not above the value |
| Tools.Ceil | Assets/Scripts/Misc/Tools.cs:63 | `CeilToInt`: the smallest integer not below the value |
| Tools.ClosestUnique | Assets/Scripts/Misc/Tools.cs:27-28 | only one bound is closest with the round-up rule |
| Tools.RoundToClosest | Assets/Scripts/Misc/Tools.cs:33-52 | the result is one of the bounds, the nearer one, the larger on a tie, and the bound itself when both are equal |
| Tools.RoundToClosestSwapped | Assets/Scripts/Misc/Tools.cs:43-46 | swapping the bounds gives the same result |
| Tools.RoundToClosestTwice | Assets/Scripts/Misc/Tools.cs:33-52 | rounding a rounded value again changes nothing |
| Tools.ToInt | Assets/Scripts/Misc/Tools.cs:63 | Up is the ceiling, Down the floor |
| Tools.ToIntUpDown | Assets/Scripts/Misc/Tools.cs:63 | Up and Down agree exactly on whole numbers and are one apart otherwise |
| Tools.LimitUpper | Assets/Scripts/Misc/Tools.cs:71 | at most the limit and the value, and one of them |
| Tools.LimitLower | Assets/Scripts/Misc/Tools.cs:79 | at least the limit and the value, and one of them |
| Tools.Limit | Assets/Scripts/Misc/Tools.cs:88 | always at least lower; at most upper when lower <= upper; the value itself within the bounds; lower when the bounds cross |
| Tools.LimitIdempotent | Assets/Scripts/Misc/Tools.cs:88 | limiting twice equals limiting once |
| Tools.MultiplyBy | Assets/Scripts/Misc/Tools.cs:13-19 | the component-wise product; `MultiplyByLaws` proves its algebra |
| Tools.MultiplyByLaws | Assets/Scripts/Misc/Tools.cs:13-19 | the component-wise product is commutative and associative, with identity (1,1,1) and zero (0,0,0) |
| Tools.ToVector3Int | Assets/Scripts/Misc/Tools.cs:21 | every component rounded down to a whole number |
| Tools.ToVector3IntIdempotent | Assets/Scripts/Misc/Tools.cs:21 | whole vectors are left alone, so rounding twice equals rounding once |
| Debt.DebtRatio | Assets/Scripts/Managers/DebtManager.cs:62 | a non-negative ratio for a positive ceiling; a zero ceiling acts as ratio 1 or more |
| Debt.ReviewedTax | Assets/Scripts/Managers/DebtManager.cs:60-69 | the tax never exceeds the maximum or the minimum plus 0.3 |
| Debt.ReviewedTaxEnds | Assets/Scripts/Managers/DebtManager.cs:62-67 | no debt gives the minimum; at or over the ceiling the minimum plus 0.3; both capped at the maximum |
| Debt.ReviewedTaxMonotone | Assets/Scripts/Managers/DebtManager.cs:62-67 | more debt never means less tax, and a non-negative debt never goes below the minimum |
| Debt.DebtManager.constructor | Assets/Scripts/Managers/DebtManager.cs:26-35 | no debt, the baseline as minimum, then a first review |
| Debt.DebtManager.ReviewTax | Assets/Scripts/Managers/DebtManager.cs:60-69 | the tax is the reviewed tax of the current debt |
| Debt.DebtManager.WorkItOut | Assets/Scripts/Managers/DebtManager.cs:107-122 | the sum is preserved, the development cost stays non-negative, and the payment rises to the debt or absorbs all the development cost |
| Debt.DebtManager.PayOffDebt | Assets/Scripts/Managers/DebtManager.cs:40-56 | the payment never exceeds the starting debt; the total is at most `amount*tax`, and equal when the clamp does not fire; when listened to, the debt falls by exactly the payment; the credit is the development cost rounded down |
| Debt.DebtManager.AddToDebt | Assets/Scripts/Managers/DebtManager.cs:74-78 | the debt grows by exactly the amount |
| Debt.DebtManager.GetUpdatesForDebtChanges | Assets/Scripts/Managers/DebtManager.cs:95-99 | the debt is listened to from now on, and the current debt is reported rounded up |
| Debt.DebtManager.ToggleDevelopmemtTarget | Assets/Scripts/Managers/DebtManager.cs:124-127 | the flag flips |
| Debt.ToggleTwice | Assets/Scripts/Managers/DebtManager.cs:124-127 | two toggles restore the flag |
| Debt.PaymentBelowDevShare | Assets/Scripts/Managers/DebtManager.cs:42-52 | with a tax below 0.1 a payment makes the debt grow |
| Debt.UnheardPaymentKeepsDebt | Assets/Scripts/Managers/DebtManager.cs:52 | without a debt subscriber a payment of 10 at tax 0.5 takes 5 and leaves the debt of 100 |
| Debt.HeardPaymentLowersDebt | Assets/Scripts/Managers/DebtManager.cs:42-54 | with a subscriber the same payment lowers the debt to 96 |
| Buildables.BuildableObject.constructor | Assets/Scripts/UI/BuildableObject.cs:14-19 | no object, nothing built, no instances |
| Buildables.BuildableObject.BuildCost | Assets/Scripts/UI/BuildableObject.cs:20 | 0 until something is built, then the price rounded down |
| Buildables.BuildableObject.SetObj | Assets/Scripts/UI/BuildableObject.cs:26-31 | only the first object, with its price and multiplier, is taken |
| Buildables.BuildableObject.BuildNewObject | Assets/Scripts/UI/BuildableObject.cs:46-54 | the instance is recorded whether or not it is placed |
| Buildables.BuildableObject.IncreaseBuildCost | Assets/Scripts/UI/BuildableObject.cs:70-75 | one more built; the price is multiplied only from the second on |
| Buildables.BuildableObject.ItemWasDestroyed | Assets/Scripts/UI/BuildableObject.cs:77-82 | nothing changes when nothing is counted or the item is unknown; otherwise one fewer and the price divided back; the count never goes negative |
| Buildables.SetObjTwice | Assets/Scripts/UI/BuildableObject.cs:28-29 | a second `SetObj` changes nothing |
| Buildables.IncreaseThenDestroy | Assets/Scripts/UI/BuildableObject.cs:70-82 | building then destroying restores count and price |
| Buildables.DestroyTwice | Assets/Scripts/UI/BuildableObject.cs:77-82 | the same instance destroyed twice counts down twice |
| Grids.SideOf | Assets/Scripts/Managers/GridSystem.cs:141-151 | the side an off-centre centre-line position points to, and none off the centre lines |
| Grids.LegalOnTileCharacterized | Assets/Scripts/Managers/GridSystem.cs:138-153 | legal exactly when off centre, free, and not on a centre line pointing to a road socket |
| Grids.OffCentreLinesOnlyOccupancy | Assets/Scripts/Managers/GridSystem.cs:138-153 | off both centre lines only occupancy matters |
| Grids.NoRoadsAnywhereFree | Assets/Scripts/Managers/GridSystem.cs:138-153 | a tile without roads takes an object anywhere free but its centre |
| Grids.LegalOnTile | Assets/Scripts/Managers/GridSystem.cs:138-153 | the tile checks of `LegalPosition`; `LegalOnTileCharacterized` gives them as off centre, free and not towards a road |
| Grids.GridSystem.TileMatchesGrid | Assets/Scripts/Managers/GridSystem.cs:224 | a focused tile exists and lies on the active grid; `HandOverObject` and `LegalPositionSpec` refuse otherwise |
| Grids.GridSystem.LegalPosition | Assets/Scripts/Managers/GridSystem.cs:122-154 | the grid check, then the tile checks; `LegalPositionSpec` states both cases |
| Grids.GridSystem.constructor | Assets/Scripts/Managers/GridSystem.cs:22-25 | the world grid is active and nothing is focused |
| Grids.GridSystem.SetGrid | Assets/Scripts/Managers/GridSystem.cs:84-94 | focus flips and the given grid becomes active |
| Grids.GridSystem.ReturnToWorldGrid | Assets/Scripts/Managers/GridSystem.cs:99-109 | focus flips and the world grid becomes active |
| Grids.GridSystem.HandOverObject | Assets/Scripts/Managers/GridSystem.cs:199-205 | refused off the active grid; otherwise the tile's own `ReceiveObject` decides |
| Grids.LegalPositionSpec | Assets/Scripts/Managers/GridSystem.cs:122-154 | false without a tile on the active grid; otherwise the tile rule; never legal at the centre or on an item |
| Grids.FocusAndReturn | Assets/Scripts/Managers/GridSystem.cs:84-109 | focusing and returning from the world grid restores focus and grid |

## Left out

- Unity object lifecycle is not modelled: `Instantiate`, `DestroyImmediate`, materials, `SetActive`, `CreateObject`, `RemoveInspectorGrid`, `Awake`, and the camera and grid-size calls in `Start`. Engine plumbing does not change the data the model tracks.
- `Tile.GetGrid`, `RemoveGrid` and `LocalOffsetFromRotation` are not modelled. They are rendering geometry; a tile's grid is an opaque id.
- Object identity is not modelled. Cells and tiles are values, and a cell refers to its tile by index into the generated tiles. The source shares Tile objects between a cell and `generatedTiles`; the ownership invariant stands in for that aliasing. Node identity in the pathfinder is kept.
- `WFC.Generator.Start`: the `while (!done)` loop is cut off after as many passes as oracle values are supplied. Its contract proves that when setup completes with at least as many blueprint tiles as table entries, and there is at least one tile and a non-empty map, it finishes after exactly `n*n + 1` passes. With fewer blueprint tiles than table entries it may fail instead.
- `Cells.NewCellFrom` requires every value to be an index of the array. The source throws on the write otherwise, and its only caller passes such arrays.
- `Tiles.Rotate` requires `num >= -4`. A smaller `num` gives a negative index, and the source throws.
- `Debt.DebtRatio` requires a non-negative debt when the ceiling is 0. A negative debt over a zero ceiling is -Infinity in float arithmetic, which has no real value.
- `Debt.DebtManager.ReviewTax` has the same requirement, for the same reason.
- `Buildables.BuildableObject.ItemWasDestroyed` requires a nonzero multiplier when it divides, because float division by zero is not modelled.
- Float precision is not modelled: `0.1f` and `0.3f` are exact reals, `Vector3` is three reals, and distances and the pathfinder heuristic are abstract.
- Coroutines, `WaitForSeconds` and `Time.timeScale` are not modelled. `Tick` is one explicit step and `RunTicks` is n steps; the time scale is the `paused` flag.
- The `tickRate` float and its 0.1 clamp in `TickRateUP`/`TickRateDOWN` are not modelled. They only set the coroutine's delay.
- `PauseGame`, `ResumeGame`, `QuitGame` and the `isPaused` event are not modelled. They drive menus.
- `GetAverageShopPrices`, `AskForDetails`, `GetPlayerWalletAs`, `FindTileAt` and `ChangeDevCostTarget` are not modelled. They are lookups into foreign objects not shown here.
- Delegates, companies, shops and wallets are opaque ids. Their answers are function parameters. `GiveAccessToBusiness`, `player.AddFunds` and `SetUp(obj)?.AddToGameSystems()` appear only as the values handed to them.
- `DebtManager`'s weekly registration of `ReviewTax`/`CollectTax`, `SignUpToPayTaxes`, `CollectTax` and `GetUpdatesOnTaxReview` are not modelled. They wire foreign callbacks.
- `BuildableObject.SetMenuAs` and `CreateNewInstance` are not modelled. They are menu wiring and instantiation; `BuildNewObject` takes the new instance as a parameter.
- `GridSystem.Update`, `Rotate`, `LevelUpObject`, `RemoveObj`, `GetCellPositionInWorldSpace`, `MousePos`, `InGridBounds` and `SetGridSize` are not modelled. They are input handling and rendering.
- The `offset` field and renderer updates in `SetGrid`/`ReturnToWorldGrid` are not modelled, for the same reason.
- `Pathfinding.Cheapest`: `queue.Sort` reorders the queue in place, and that order carries into the next round. The model does not keep the sorted order. It picks any least-key node, so it covers every tie order an unstable sort could produce, but not a specific one.
- `Tools.RoundToClosest`: works on unbounded integers. The source computes `min - value` and `max - value` in 32-bit unchecked `int`, so near the int32 extremes a difference can wrap and the farther bound is returned (value 2147483647, min -10, max -5 gives -10), and `Mathf.Abs(int.MinValue)` throws. The game's only caller passes the bounds -1 and 1.
- `Scheduler.Next`: the tick and day counters are unbounded integers. In the source `ticks++` and `days++` are 32-bit and wrap after 2^31 increments; the model's clock keeps counting.
- `Scheduler.GameManager.Tick`: the same unbounded counters, so the wrap-around of `ticks` and `days` after 2^31 ticks or days is not modelled.
- `Grids.LegalOnTile` works in integer sub-cell offsets from the tile centre, with items measured in the same frame. The cell-to-world conversion and the rotation offset of `LegalPosition` are not modelled.
