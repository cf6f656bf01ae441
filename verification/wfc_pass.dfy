/** The pure definitions one generation pass of WFCGenerator.cs is proved against: the grid
    invariants, materialisation of collapsed cells (CheckCollapsedCells), the choice of the next
    cell (SortGridCopy), propagation from in-grid neighbours (CheckNeighbours) and the final
    re-derivation of every tile's signature from its positional neighbours (FinaliseConfig). */
module WfcPass {
  import opened Wrappers
  import opened Enums
  import opened Cells
  import opened Tiles
  import opened WfcSpec
  import opened Ownership

  // ---------------------------------------------------------------------------------------------
  // Cell numbering

  lemma MulLe(a: int, b: int, n: int)
    requires a <= b && n >= 0
    ensures a * n <= b * n
  {
  }

  /** Cell i*n + j of row i lies in the n x n grid, and row i ends where row i + 1 starts. */
  lemma RowIndex(i: nat, j: nat, n: nat)
    requires i < n && j < n
    ensures i * n + j < n * n && i * n + n == (i + 1) * n && (i + 1) * n <= n * n
  {
    MulLe(i + 1, n, n);
  }

  /** k = q*n + r with 0 <= r < n determines the quotient and the remainder. */
  lemma DivModUnique(k: int, n: int, q: int, r: int)
    requires n > 0 && k == q * n + r && 0 <= r < n
    ensures k / n == q && k % n == r
  {
    var q', r' := k / n, k % n;
    assert k == q' * n + r';
    assert (q - q') * n == r' - r;
    if q - q' >= 1 {
      MulLe(1, q - q', n);
    } else if q - q' <= -1 {
      MulLe(q - q', -1, n);
    }
  }

  /** Distinct cells sit at distinct positions. */
  lemma CellPosInjective(k1: nat, k2: nat, n: nat)
    requires n > 0
    ensures CellPos(k1, n) == CellPos(k2, n) ==> k1 == k2
  {
    assert k1 == (k1 / n) * n + k1 % n;
    assert k2 == (k2 / n) * n + k2 % n;
  }

  /** Every cell of the n x n grid sits inside the n x n square. */
  lemma CellPosInSquare(k: nat, n: nat)
    requires n > 0 && k < n * n
    ensures 0 <= CellPos(k, n).x < n && 0 <= CellPos(k, n).z < n
  {
    var q := k / n;
    assert k == q * n + k % n;
    if q >= n {
      MulLe(n, q, n);
    }
  }

  /** Every position of the n x n square is some cell's position. */
  lemma CellPosCovers(x: int, z: int, n: nat)
    requires n > 0 && 0 <= x < n && 0 <= z < n
    ensures x * n + z < n * n && CellPos(x * n + z, n) == Pos(x, z)
  {
    MulLe(x, n - 1, n);
    DivModUnique(x * n + z, n, x, z);
  }

  /** The neighbour numbering of CheckNeighbours, cell k = i + j*n with i = k % n, j = k / n:
      every neighbour it looks at is inside the grid. */
  lemma NeighbourIndices(k: nat, n: nat)
    requires n > 0 && k < n * n
    ensures k / n > 0 ==> n <= k
    ensures k / n < n - 1 ==> k + n < n * n
    ensures k % n < n - 1 ==> k + 1 < n * n
    ensures k % n > 0 ==> k >= 1
  {
    var q, r := k / n, k % n;
    assert k == q * n + r;
    if q >= n {
      MulLe(n, q, n);
    }
    RowIndex(q, r, n);
    if q > 0 {
      MulLe(1, q, n);
    }
    if q < n - 1 {
      RowIndex(q + 1, r, n);
    }
  }

  // ---------------------------------------------------------------------------------------------
  // Grid invariants

  /** Generated tiles never share a position. */
  lemma OwnedPositionsDistinct(grid: seq<Cell>, gen: seq<Tile>, owner: seq<nat>, n: nat)
    requires Owned(grid, gen, owner, n)
    ensures forall t1, t2 :: 0 <= t1 < |gen| && 0 <= t2 < |gen| && t1 != t2 ==> gen[t1].pos != gen[t2].pos
  {
    forall t1, t2 | 0 <= t1 < |gen| && 0 <= t2 < |gen| && t1 != t2 ensures gen[t1].pos != gen[t2].pos {
      CellPosInjective(owner[t1], owner[t2], n);
    }
  }

  /** A grid of fresh cells, Cell(T) in every place. */
  function FreshGrid(n: nat, T: nat): (g: seq<Cell>)
    ensures |g| == n * n
    ensures forall k :: 0 <= k < |g| ==> g[k] == Cell(false, Some(Range(T)), None)
  {
    seq(n * n, _ => Cell(false, Some(Range(T)), None))
  }

  /** A fresh grid meets the invariants with no generated tiles. */
  lemma FreshGridValid(n: nat, T: nat)
    requires n > 0
    ensures CellsWellFormed(FreshGrid(n, T), T)
    ensures Owned(FreshGrid(n, T), [], [], n)
    ensures Uncollapsed(FreshGrid(n, T)) == Range(n * n)
  {
    var g := FreshGrid(n, T);
    UncollapsedAll(g);
  }

  // ---------------------------------------------------------------------------------------------
  // Uncollapsed cells

  /** The indices of the uncollapsed cells, in grid order (gridCopy in SortGridCopy). */
  function Uncollapsed(grid: seq<Cell>): (r: seq<nat>)
    ensures forall u :: 0 <= u < |r| ==> r[u] < |grid| && !grid[r[u]].collapsed
    ensures forall u, v :: 0 <= u < v < |r| ==> r[u] < r[v]
  {
    if |grid| == 0 then []
    else
      var r := Uncollapsed(grid[..|grid| - 1]);
      if grid[|grid| - 1].collapsed then r else r + [|grid| - 1]
  }

  /** Every uncollapsed cell is listed. */
  lemma {:induction false} UncollapsedComplete(grid: seq<Cell>, k: nat)
    requires k < |grid| && !grid[k].collapsed
    ensures k in Uncollapsed(grid)
  {
    if k < |grid| - 1 {
      UncollapsedComplete(grid[..|grid| - 1], k);
    }
  }

  lemma UncollapsedExactly(grid: seq<Cell>)
    ensures forall k: nat :: k in Uncollapsed(grid) <==> k < |grid| && !grid[k].collapsed
  {
    forall k: nat | k < |grid| && !grid[k].collapsed ensures k in Uncollapsed(grid) {
      UncollapsedComplete(grid, k);
    }
  }

  lemma {:induction false} UncollapsedAll(grid: seq<Cell>)
    requires forall k :: 0 <= k < |grid| ==> !grid[k].collapsed
    ensures Uncollapsed(grid) == Range(|grid|)
  {
    if |grid| > 0 {
      UncollapsedAll(grid[..|grid| - 1]);
    }
  }

  /** Grids with the same collapse flags have the same uncollapsed cells. */
  lemma {:induction false} UncollapsedSameFlags(g1: seq<Cell>, g2: seq<Cell>)
    requires |g1| == |g2| && forall k :: 0 <= k < |g1| ==> g1[k].collapsed == g2[k].collapsed
    ensures Uncollapsed(g1) == Uncollapsed(g2)
  {
    if |g1| > 0 {
      UncollapsedSameFlags(g1[..|g1| - 1], g2[..|g2| - 1]);
    }
  }

  /** Collapsing one uncollapsed cell leaves one uncollapsed cell fewer. */
  lemma {:induction false} UncollapsedAfterCollapse(grid: seq<Cell>, k: nat, c: Cell)
    requires k < |grid| && !grid[k].collapsed && c.collapsed
    ensures |Uncollapsed(grid[k := c])| == |Uncollapsed(grid)| - 1
  {
    var g := grid[k := c];
    var n := |grid|;
    if k == n - 1 {
      assert g[..n - 1] == grid[..n - 1];
    } else {
      assert g[..n - 1] == grid[..n - 1][k := c];
      UncollapsedAfterCollapse(grid[..n - 1], k, c);
    }
  }

  // ---------------------------------------------------------------------------------------------
  // SortGridCopy: the cell to collapse

  /** options.Length, for a cell whose options are present. */
  function OptionCount(c: Cell): nat
  {
    if c.options.Some? then |c.options.value| else 0
  }

  /** The position in idx of a cell with the fewest options (len in SortGridCopy, read after sorting). */
  function ArgMin(grid: seq<Cell>, idx: seq<nat>): (u: nat)
    requires |idx| > 0 && forall v :: 0 <= v < |idx| ==> idx[v] < |grid|
    ensures u < |idx| && forall v :: 0 <= v < |idx| ==> OptionCount(grid[idx[u]]) <= OptionCount(grid[idx[v]])
  {
    if |idx| == 1 then 0
    else
      var u := ArgMin(grid, idx[..|idx| - 1]);
      if OptionCount(grid[idx[|idx| - 1]]) < OptionCount(grid[idx[u]]) then |idx| - 1 else u
  }

  /** The fewest options among the uncollapsed cells. */
  function MinCount(grid: seq<Cell>): (m: nat)
    requires |Uncollapsed(grid)| > 0
    ensures forall k :: 0 <= k < |grid| && !grid[k].collapsed ==> m <= OptionCount(grid[k])
  {
    var u := Uncollapsed(grid);
    UncollapsedExactly(grid);
    OptionCount(grid[u[ArgMin(grid, u)]])
  }

  /** The cells of idx whose option count is m, in order. */
  function WithCount(grid: seq<Cell>, idx: seq<nat>, m: nat): (r: seq<nat>)
    requires forall u :: 0 <= u < |idx| ==> idx[u] < |grid|
    ensures forall x :: x in r <==> x in idx && OptionCount(grid[x]) == m
  {
    if |idx| == 0 then []
    else
      var r := WithCount(grid, idx[..|idx| - 1], m);
      var x := idx[|idx| - 1];
      if OptionCount(grid[x]) == m then r + [x] else r
  }

  /** The uncollapsed cells tied at the fewest options: what is left of gridCopy after the sort
      and RemoveRange. List.Sort is unstable, so their order is not fixed; grid order is used and
      the choice oracle covers any order. */
  function Ties(grid: seq<Cell>): (r: seq<nat>)
    requires |Uncollapsed(grid)| > 0
    ensures |r| > 0
    ensures forall x: nat :: x in r <==> x < |grid| && !grid[x].collapsed && OptionCount(grid[x]) == MinCount(grid)
  {
    var u := Uncollapsed(grid);
    var m := MinCount(grid);
    var w := WithCount(grid, u, m);
    UncollapsedExactly(grid);
    assert u[ArgMin(grid, u)] in u;
    assert u[ArgMin(grid, u)] in w;
    w
  }

  /** The cell SortGridCopy collapses, with oracle value cellRand for Random.Range(0, Count):
      an uncollapsed cell with no more options than any other uncollapsed cell. */
  function Chosen(grid: seq<Cell>, cellRand: nat): (k: nat)
    requires |Uncollapsed(grid)| > 0
    ensures k < |grid| && !grid[k].collapsed
    ensures forall j :: 0 <= j < |grid| && !grid[j].collapsed ==> OptionCount(grid[k]) <= OptionCount(grid[j])
  {
    var t := Ties(grid);
    assert t[cellRand % |t|] in t;
    t[cellRand % |t|]
  }

  /** Under the invariants every uncollapsed cell has all T options, so every one of them ties. */
  lemma TiesAreAllUncollapsed(grid: seq<Cell>, T: nat)
    requires CellsWellFormed(grid, T) && |Uncollapsed(grid)| > 0
    ensures forall k :: 0 <= k < |grid| && !grid[k].collapsed ==> k in Ties(grid)
  {
    var u := Uncollapsed(grid);
    assert CellOk(grid[u[ArgMin(grid, u)]], T);
  }

  /** The chosen cell after collapsing: one option, the one at optRand % Length of its options. */
  function CollapsedCell(c: Cell, optRand: nat): (r: Cell)
    requires c.options.Some? && |c.options.value| > 0
    ensures r.collapsed && r.tile == c.tile && r.options.Some? && |r.options.value| == 1
    ensures r.options.value[0] in c.options.value
  {
    var opts := c.options.value;
    Cell(true, Some([opts[optRand % |opts|]]), c.tile)
  }

  // ---------------------------------------------------------------------------------------------
  // CheckNeighbours

  /** validOptions in CheckNeighbour: edges[d] of the blueprint of every option, concatenated. */
  function EdgesUnion(tiles: seq<Tile>, opts: seq<int>, d: Direction): seq<RoadType>
    requires forall i :: 0 <= i < |opts| ==> 0 <= opts[i] < |tiles|
  {
    if |opts| == 0 then []
    else EdgesUnion(tiles, opts[..|opts| - 1], d) + tiles[opts[|opts| - 1]].edges[d]
  }

  /** A type is valid next to a cell exactly when one of that cell's options lists it in edges[d]. */
  lemma {:induction false} EdgesUnionMembership(tiles: seq<Tile>, opts: seq<int>, d: Direction, x: RoadType)
    requires forall i :: 0 <= i < |opts| ==> 0 <= opts[i] < |tiles|
    ensures x in EdgesUnion(tiles, opts, d) <==> exists i :: 0 <= i < |opts| && x in tiles[opts[i]].edges[d]
  {
    if |opts| > 0 {
      var init := opts[..|opts| - 1];
      EdgesUnionMembership(tiles, init, d, x);
      if x in EdgesUnion(tiles, init, d) {
        var i :| 0 <= i < |init| && x in tiles[init[i]].edges[d];
        assert opts[i] == init[i];
      }
      if exists i :: 0 <= i < |opts| && x in tiles[opts[i]].edges[d] {
        var i :| 0 <= i < |opts| && x in tiles[opts[i]].edges[d];
        if i < |init| {
          assert init[i] == opts[i];
        }
      }
    }
  }

  /** The types CheckNeighbour(idx, d, ...) lets through. */
  function ValidOptions(grid: seq<Cell>, tiles: seq<Tile>, idx: nat, d: Direction): seq<RoadType>
    requires idx < |grid| && CellOk(grid[idx], |tiles|)
  {
    EdgesUnion(tiles, grid[idx].options.value, d)
  }

  /** Whether CheckNeighbours looks at the neighbour of cell k = i + j*n in direction d: UP when
      j > 0, RIGHT when i < n-1, DOWN when j < n-1, LEFT when i > 0. */
  predicate Inside(n: nat, k: nat, d: Direction)
    requires n > 0
  {
    if d == UP then k / n > 0
    else if d == RIGHT then k % n < n - 1
    else if d == DOWN then k / n < n - 1
    else k % n > 0
  }

  /** The cell CheckNeighbours reads as the neighbour of cell k in direction d: k - n (UP),
      k + 1 (RIGHT), k + n (DOWN) or k - 1 (LEFT). */
  function NeighbourIndex(n: nat, k: nat, d: Direction): (r: int)
    requires n > 0 && k < n * n
    ensures Inside(n, k, d) ==> 0 <= r < n * n
  {
    NeighbourIndices(k, n);
    if d == UP then k - n
    else if d == RIGHT then k + 1
    else if d == DOWN then k + n
    else k - 1
  }

  /** The options of uncollapsed cell k after the first s of CheckNeighbours' four guarded calls
      (UP, RIGHT, DOWN, LEFT): all tile indices, passed through CheckValid with the valid list of
      each in-grid neighbour looked at so far. */
  function FilteredUpTo(grid: seq<Cell>, tiles: seq<Tile>, n: nat, k: nat, s: nat): (r: seq<int>)
    requires n > 0 && |grid| == n * n && k < n * n && CellsWellFormed(grid, |tiles|) && s <= 4
    ensures |r| == |tiles|
  {
    if s == 0 then Range(|tiles|)
    else
      var d: Direction := s - 1;
      var a := FilteredUpTo(grid, tiles, n, k, s - 1);
      if Inside(n, k, d) then CheckValidSpec(a, ValidOptions(grid, tiles, NeighbourIndex(n, k, d), d)) else a
  }

  /** The options CheckNeighbours computes for uncollapsed cell k: all four guarded calls. */
  function Propagated(grid: seq<Cell>, tiles: seq<Tile>, n: nat, k: nat): (r: seq<int>)
    requires n > 0 && |grid| == n * n && k < n * n && CellsWellFormed(grid, |tiles|)
    ensures |r| == |tiles|
  {
    FilteredUpTo(grid, tiles, n, k, 4)
  }

  lemma RangeMembers(n: nat, x: int)
    requires x in Range(n)
    ensures 0 <= x < n
  {
  }

  /** The filters never invent an option. */
  lemma {:induction false} FilteredUpToWithin(grid: seq<Cell>, tiles: seq<Tile>, n: nat, k: nat, s: nat, x: int)
    requires n > 0 && |grid| == n * n && k < n * n && CellsWellFormed(grid, |tiles|) && s <= 4
    requires x in FilteredUpTo(grid, tiles, n, k, s)
    ensures 0 <= x < |tiles|
  {
    if s == 0 {
      RangeMembers(|tiles|, x);
    } else {
      FilteredUpToWithin(grid, tiles, n, k, s - 1, x);
    }
  }

  /** Propagation never invents an option. */
  lemma PropagatedWithin(grid: seq<Cell>, tiles: seq<Tile>, n: nat, k: nat)
    requires n > 0 && |grid| == n * n && k < n * n && CellsWellFormed(grid, |tiles|)
    ensures forall x :: x in Propagated(grid, tiles, n, k) ==> 0 <= x < |tiles|
    ensures ValuesAreIndices(Propagated(grid, tiles, n, k))
  {
    var r := Propagated(grid, tiles, n, k);
    forall x | x in r ensures 0 <= x < |tiles| {
      FilteredUpToWithin(grid, tiles, n, k, 4, x);
    }
    forall u | 0 <= u < |r| ensures 0 <= r[u] < |r| {
      assert r[u] in r;
    }
  }

  /** Whether type x passes the neighbour at idx in direction d: some option there lists it. */
  predicate Admits(grid: seq<Cell>, tiles: seq<Tile>, idx: nat, d: Direction, x: int)
    requires idx < |grid| && CellOk(grid[idx], |tiles|)
  {
    exists o :: 0 <= o < |grid[idx].options.value| && x in tiles[grid[idx].options.value[o]].edges[d]
  }

  /** Whether every in-grid neighbour of cell k admits type x in the direction facing k's side. */
  predicate AllAdmit(grid: seq<Cell>, tiles: seq<Tile>, n: nat, k: nat, x: int)
    requires n > 0 && |grid| == n * n && k < n * n && CellsWellFormed(grid, |tiles|)
  {
    forall d: Direction :: Inside(n, k, d) ==> Admits(grid, tiles, NeighbourIndex(n, k, d), d, x)
  }

  /** A type every neighbour looked at admits survives the filters. */
  lemma {:induction false} FilteredUpToKeeps(grid: seq<Cell>, tiles: seq<Tile>, n: nat, k: nat, s: nat, x: int)
    requires n > 0 && |grid| == n * n && k < n * n && CellsWellFormed(grid, |tiles|) && s <= 4
    requires 0 <= x < |tiles| && AllAdmit(grid, tiles, n, k, x)
    ensures x in FilteredUpTo(grid, tiles, n, k, s)
  {
    if s == 0 {
      assert Range(|tiles|)[x] == x;
    } else {
      var d: Direction := s - 1;
      FilteredUpToKeeps(grid, tiles, n, k, s - 1, x);
      if Inside(n, k, d) {
        var idx := NeighbourIndex(n, k, d);
        EdgesUnionMembership(tiles, grid[idx].options.value, d, x);
        CheckValidKeeps(FilteredUpTo(grid, tiles, n, k, s - 1), ValidOptions(grid, tiles, idx, d), x);
      }
    }
  }

  /** Propagation keeps every tile index that all in-grid neighbours admit; there is no
      constraint past the edge of the map. */
  lemma PropagatedKeeps(grid: seq<Cell>, tiles: seq<Tile>, n: nat, k: nat, x: int)
    requires n > 0 && |grid| == n * n && k < n * n && CellsWellFormed(grid, |tiles|)
    requires 0 <= x < |tiles| && AllAdmit(grid, tiles, n, k, x)
    ensures x in Propagated(grid, tiles, n, k)
  {
    FilteredUpToKeeps(grid, tiles, n, k, 4, x);
  }

  /** Cell k after CheckNeighbours: a collapsed cell is carried over, any other is replaced by
      new Cell(options) from its propagated options. */
  function NextCell(grid: seq<Cell>, tiles: seq<Tile>, n: nat, k: nat): Cell
    requires n > 0 && |grid| == n * n && k < |grid| && CellsWellFormed(grid, |tiles|)
  {
    if grid[k].collapsed then grid[k]
    else Cell(false, Some(IndexedOptions(Propagated(grid, tiles, n, k))), None)
  }

  /** The grid CheckNeighbours builds, cell by cell from the old grid. */
  function NextGrid(grid: seq<Cell>, tiles: seq<Tile>, n: nat): (g: seq<Cell>)
    requires n > 0 && |grid| == n * n && CellsWellFormed(grid, |tiles|)
    ensures |g| == |grid|
  {
    seq(|grid|, k requires 0 <= k < |grid| => NextCell(grid, tiles, n, k))
  }

  /** CheckNeighbours keeps the collapse flags, so the same cells remain to collapse, and leaves
      collapsed cells as they were. */
  lemma NextGridKeepsCollapsed(grid: seq<Cell>, tiles: seq<Tile>, n: nat)
    requires n > 0 && |grid| == n * n && CellsWellFormed(grid, |tiles|)
    ensures forall k :: 0 <= k < |grid| ==> NextGrid(grid, tiles, n)[k].collapsed == grid[k].collapsed
    ensures forall k :: 0 <= k < |grid| && grid[k].collapsed ==> NextGrid(grid, tiles, n)[k] == grid[k]
    ensures Uncollapsed(NextGrid(grid, tiles, n)) == Uncollapsed(grid)
  {
    UncollapsedSameFlags(NextGrid(grid, tiles, n), grid);
  }

  lemma NextGridAt(grid: seq<Cell>, tiles: seq<Tile>, n: nat, k: nat)
    requires n > 0 && |grid| == n * n && CellsWellFormed(grid, |tiles|) && k < |grid|
    ensures NextGrid(grid, tiles, n)[k] == NextCell(grid, tiles, n, k)
  {
  }

  /** A rebuilt cell meets the invariant and holds exactly the propagated options, plus CROSSROAD
      wherever an index is missing. */
  lemma NextCellProperties(grid: seq<Cell>, tiles: seq<Tile>, n: nat, k: nat)
    requires n > 0 && |grid| == n * n && CellsWellFormed(grid, |tiles|) && k < |grid|
    ensures CellOk(NextCell(grid, tiles, n, k), |tiles|)
    ensures !grid[k].collapsed ==> forall x :: x in Propagated(grid, tiles, n, k) ==>
              x in NextCell(grid, tiles, n, k).options.value
    ensures !grid[k].collapsed ==> forall x :: x in NextCell(grid, tiles, n, k).options.value ==>
              x in Propagated(grid, tiles, n, k) || x == CROSSROAD
  {
    if !grid[k].collapsed {
      var p := Propagated(grid, tiles, n, k);
      var o := IndexedOptions(p);
      assert NextCell(grid, tiles, n, k) == Cell(false, Some(o), None);
      PropagatedWithin(grid, tiles, n, k);
      IndexedOptionsValues(p);
    }
  }

  /** CheckNeighbours keeps the invariants: every rebuilt cell keeps all T options, has every
      propagated option, and has no option but those and CROSSROAD (the array default). */
  lemma NextGridProperties(grid: seq<Cell>, tiles: seq<Tile>, n: nat)
    requires n > 0 && |grid| == n * n && CellsWellFormed(grid, |tiles|)
    ensures CellsWellFormed(NextGrid(grid, tiles, n), |tiles|)
    ensures forall k, x :: 0 <= k < |grid| && !grid[k].collapsed && x in Propagated(grid, tiles, n, k) ==>
              x in NextGrid(grid, tiles, n)[k].options.value
    ensures forall k, x :: 0 <= k < |grid| && !grid[k].collapsed && x in NextGrid(grid, tiles, n)[k].options.value ==>
              x in Propagated(grid, tiles, n, k) || x == CROSSROAD
  {
    forall k | 0 <= k < |grid| ensures CellOk(NextGrid(grid, tiles, n)[k], |tiles|) {
      NextGridAt(grid, tiles, n, k);
      NextCellProperties(grid, tiles, n, k);
    }
    forall k | 0 <= k < |grid| && !grid[k].collapsed
      ensures forall x :: x in Propagated(grid, tiles, n, k) ==> x in NextGrid(grid, tiles, n)[k].options.value
      ensures forall x :: x in NextGrid(grid, tiles, n)[k].options.value ==> x in Propagated(grid, tiles, n, k) || x == CROSSROAD
    {
      NextGridAt(grid, tiles, n, k);
      NextCellProperties(grid, tiles, n, k);
      PropagatedWithin(grid, tiles, n, k);
      IndexedOptionsValues(Propagated(grid, tiles, n, k));
    }
  }

  /** CheckNeighbours keeps the ownership invariant: only collapsed cells own tiles, and those
      are carried over. */
  lemma NextGridOwned(grid: seq<Cell>, tiles: seq<Tile>, n: nat, gen: seq<Tile>, owner: seq<nat>)
    requires n > 0 && |grid| == n * n && CellsWellFormed(grid, |tiles|) && Owned(grid, gen, owner, n)
    ensures Owned(NextGrid(grid, tiles, n), gen, owner, n)
  {
    var g := NextGrid(grid, tiles, n);
    NextGridKeepsCollapsed(grid, tiles, n);
    forall k | 0 <= k < |g| ensures g[k].tile.Some? ==> grid[k].collapsed {
      NextGridAt(grid, tiles, n, k);
    }
  }

  /** On a fully collapsed grid CheckNeighbours changes nothing. */
  lemma NextGridAllCollapsed(grid: seq<Cell>, tiles: seq<Tile>, n: nat)
    requires n > 0 && |grid| == n * n && CellsWellFormed(grid, |tiles|)
    requires forall k :: 0 <= k < |grid| ==> grid[k].collapsed
    ensures NextGrid(grid, tiles, n) == grid
  {
    NextGridKeepsCollapsed(grid, tiles, n);
  }

  // ---------------------------------------------------------------------------------------------
  // CheckCollapsedCells

  /** What CheckCollapsedCells does for collapsed cell k, read as c, with o = c.options[0]: a
      cell that already owns a tile gives that tile the sockets map[o] at the cell's own
      position; any other cell gets a new tile with sockets map[o] at its position, appended to
      the generated tiles. */
  function MaterialiseCell(p: Board, c: Cell, table: seq<Sockets>, n: nat, k: nat): (r: Board)
    requires n > 0 && k < |p.grid|
    requires c.options.Some? && |c.options.value| > 0 && 0 <= c.options.value[0] < |table|
    requires c.tile.Some? ==> c.tile.value < |p.gen|
    ensures |r.grid| == |p.grid| && |p.gen| <= |r.gen|
  {
    var s := table[c.options.value[0]];
    if c.tile.Some? then
      var t := c.tile.value;
      Board(p.grid, p.gen[t := p.gen[t].(sockets := s, pos := CellPos(k, n))], p.owner)
    else
      Board(p.grid[k := c.(tile := Some(|p.gen|))], p.gen + [NewTile(s).(pos := CellPos(k, n))], p.owner + [k])
  }

  /** The step of CheckCollapsedCells for cell k of the grid b it started from (cell k is still
      as in b when the walk reaches it): only a collapsed cell is materialised. */
  function MaterialiseStep(b: Board, p: Board, tileCount: nat, table: seq<Sockets>, n: nat, k: nat): (r: Board)
    requires n > 0 && k < |b.grid| && |p.grid| == |b.grid| && tileCount <= |table|
    requires CellsWellFormed(b.grid, tileCount) && TilesInRange(b.grid, b.gen) && |b.gen| <= |p.gen|
    ensures |r.grid| == |p.grid| && |p.gen| <= |r.gen|
  {
    var c := b.grid[k];
    if !c.collapsed then p
    else
      assert CellOk(c, tileCount);
      MaterialiseCell(p, c, table, n, k)
  }

  /** CheckCollapsedCells after its first K cells (cell numbering j + i*n, so in index order). */
  function MaterialiseUpTo(b: Board, tileCount: nat, table: seq<Sockets>, n: nat, K: nat): (r: Board)
    requires n > 0 && K <= |b.grid| && tileCount <= |table| && CellsWellFormed(b.grid, tileCount)
    requires TilesInRange(b.grid, b.gen)
    ensures |r.grid| == |b.grid| && |b.gen| <= |r.gen|
    decreases K
  {
    if K == 0 then b
    else MaterialiseStep(b, MaterialiseUpTo(b, tileCount, table, n, K - 1), tileCount, table, n, K - 1)
  }

  /** Step K - 1 on a cell that is not collapsed changes nothing, and the invariant moves on. */
  lemma MaterialiseSkip(b: Board, p: Board, tileCount: nat, table: seq<Sockets>, n: nat, K: nat)
    requires n > 0 && 0 < K <= |b.grid| && Materialised(b, p, tileCount, table, n, K - 1)
    requires !b.grid[K - 1].collapsed
    ensures Materialised(b, p, tileCount, table, n, K)
  {
  }

  /** Step K - 1 on a collapsed cell that already owns tile t: t gets the cell's signature at the
      cell's position; no other cell owns t, so nothing else changes. */
  lemma MaterialiseRefresh(b: Board, p: Board, tileCount: nat, table: seq<Sockets>, n: nat, K: nat)
    requires n > 0 && 0 < K <= |b.grid| && tileCount <= |table| && CellsWellFormed(b.grid, tileCount)
    requires Materialised(b, p, tileCount, table, n, K - 1)
    requires b.grid[K - 1].collapsed && b.grid[K - 1].tile.Some? && b.grid[K - 1].tile.value < |p.gen|
    ensures Materialised(b, MaterialiseCell(p, b.grid[K - 1], table, n, K - 1), tileCount, table, n, K)
  {
    var k := K - 1;
    var c := b.grid[k];
    var t := c.tile.value;
    assert CellOk(c, tileCount);
    var r := MaterialiseCell(p, c, table, n, k);
    assert p.grid[k] == c && p.owner[t] == k;
    assert r.grid == p.grid;
    forall j | 0 <= j < |p.grid| && j != k && p.grid[j].tile.Some?
      ensures r.gen[p.grid[j].tile.value] == p.gen[p.grid[j].tile.value]
    {
      assert p.owner[p.grid[j].tile.value] == j;
    }
  }

  /** Step K - 1 on a collapsed cell without a tile: a new tile with the cell's signature at the
      cell's position is appended and the cell refers to it. */
  lemma MaterialiseAppend(b: Board, p: Board, tileCount: nat, table: seq<Sockets>, n: nat, K: nat)
    requires n > 0 && 0 < K <= |b.grid| && tileCount <= |table| && CellsWellFormed(b.grid, tileCount)
    requires Materialised(b, p, tileCount, table, n, K - 1)
    requires b.grid[K - 1].collapsed && b.grid[K - 1].tile.None?
    ensures Materialised(b, MaterialiseCell(p, b.grid[K - 1], table, n, K - 1), tileCount, table, n, K)
  {
    MaterialiseAppendCells(b, p, tileCount, table, n, K);
    MaterialiseAppendOwned(b, p, tileCount, table, n, K);
    MaterialiseAppendSockets(b, p, tileCount, table, n, K);
  }

  /** The cell side of MaterialiseAppend: only cell K - 1 changes, and only by its new tile. */
  lemma MaterialiseAppendCells(b: Board, p: Board, tileCount: nat, table: seq<Sockets>, n: nat, K: nat)
    requires n > 0 && 0 < K <= |b.grid| && tileCount <= |table| && CellsWellFormed(b.grid, tileCount)
    requires Materialised(b, p, tileCount, table, n, K - 1)
    requires b.grid[K - 1].collapsed && b.grid[K - 1].tile.None?
    ensures var r := MaterialiseCell(p, b.grid[K - 1], table, n, K - 1);
      CellsWellFormed(r.grid, tileCount) && TilesInRange(r.grid, r.gen) && CellsKept(b, r, K)
  {
    var k := K - 1;
    var c := b.grid[k];
    assert CellOk(c, tileCount);
    var r := MaterialiseCell(p, c, table, n, k);
    assert p.grid[k] == c;
    forall j | 0 <= j < |r.grid| ensures CellOk(r.grid[j], tileCount) {
      if j != k {
        assert r.grid[j] == p.grid[j];
      }
    }
  }

  /** The tile side of MaterialiseAppend: the new tile is owned by cell K - 1, sits at its
      position and carries its signature; the old tiles are untouched. */
  /** The ownership side of MaterialiseAppend: the new tile belongs to cell K - 1 alone. */
  lemma MaterialiseAppendOwned(b: Board, p: Board, tileCount: nat, table: seq<Sockets>, n: nat, K: nat)
    requires n > 0 && 0 < K <= |b.grid| && tileCount <= |table| && CellsWellFormed(b.grid, tileCount)
    requires Materialised(b, p, tileCount, table, n, K - 1)
    requires b.grid[K - 1].collapsed && b.grid[K - 1].tile.None?
    ensures var r := MaterialiseCell(p, b.grid[K - 1], table, n, K - 1);
      Owned(r.grid, r.gen, r.owner, n)
  {
    var k := K - 1;
    var c := b.grid[k];
    assert CellOk(c, tileCount);
    assert p.grid[k] == c;
    assert forall t :: 0 <= t < |p.gen| ==> p.owner[t] != k;
  }

  /** The signature side of MaterialiseAppend: old tiles keep their places, the new one carries
      the signature of the cell's option. */
  lemma MaterialiseAppendSockets(b: Board, p: Board, tileCount: nat, table: seq<Sockets>, n: nat, K: nat)
    requires n > 0 && 0 < K <= |b.grid| && tileCount <= |table| && CellsWellFormed(b.grid, tileCount)
    requires Materialised(b, p, tileCount, table, n, K - 1)
    requires b.grid[K - 1].collapsed && b.grid[K - 1].tile.None?
    ensures var r := MaterialiseCell(p, b.grid[K - 1], table, n, K - 1);
      |b.gen| <= |r.gen| && KeepsPositions(b.gen, r.gen) && SocketsKept(b, r, table, K)
  {
    var k := K - 1;
    var c := b.grid[k];
    assert CellOk(c, tileCount);
    assert p.grid[k] == c;
  }

  /** Step K - 1 of CheckCollapsedCells takes the invariant from K - 1 cells to K. */
  lemma MaterialiseStepInv(b: Board, p: Board, tileCount: nat, table: seq<Sockets>, n: nat, K: nat)
    requires n > 0 && 0 < K <= |b.grid| && tileCount <= |table| && CellsWellFormed(b.grid, tileCount)
    requires TilesInRange(b.grid, b.gen) && Materialised(b, p, tileCount, table, n, K - 1)
    ensures Materialised(b, MaterialiseStep(b, p, tileCount, table, n, K - 1), tileCount, table, n, K)
  {
    var c := b.grid[K - 1];
    if !c.collapsed {
      MaterialiseSkip(b, p, tileCount, table, n, K);
    } else if c.tile.Some? {
      MaterialiseRefresh(b, p, tileCount, table, n, K);
    } else {
      MaterialiseAppend(b, p, tileCount, table, n, K);
    }
  }

  /** After its first K cells CheckCollapsedCells has kept every invariant of Materialised: the
      ownership of tiles by cells, every cell's flag and options and any tile it owned, the cells
      from K on untouched, and every collapsed cell among the first K owning a tile with the
      signature of its one option. */
  lemma {:induction false} MaterialiseUpToInv(b: Board, tileCount: nat, table: seq<Sockets>, n: nat, K: nat)
    requires n > 0 && K <= |b.grid| && tileCount <= |table| && CellsWellFormed(b.grid, tileCount)
    requires TilesInRange(b.grid, b.gen) && Owned(b.grid, b.gen, b.owner, n)
    ensures Materialised(b, MaterialiseUpTo(b, tileCount, table, n, K), tileCount, table, n, K)
  {
    if K > 0 {
      MaterialiseUpToInv(b, tileCount, table, n, K - 1);
      MaterialiseStepInv(b, MaterialiseUpTo(b, tileCount, table, n, K - 1), tileCount, table, n, K);
    }
  }

  /** Materialising an already materialised grid changes nothing: each collapsed cell keeps its
      option, so it gets the same sockets at the same position again. */
  lemma {:induction false} MaterialiseIdempotent(b: Board, tileCount: nat, table: seq<Sockets>, n: nat, K: nat)
    requires n > 0 && K <= |b.grid| && tileCount <= |table| && CellsWellFormed(b.grid, tileCount)
    requires TilesInRange(b.grid, b.gen) && Owned(b.grid, b.gen, b.owner, n)
    requires forall k :: 0 <= k < K && b.grid[k].collapsed ==>
               b.grid[k].tile.Some? && b.gen[b.grid[k].tile.value].sockets == table[b.grid[k].options.value[0]]
    ensures MaterialiseUpTo(b, tileCount, table, n, K) == b
  {
    if K > 0 {
      MaterialiseIdempotent(b, tileCount, table, n, K - 1);
      var k := K - 1;
      if b.grid[k].collapsed {
        var t := b.grid[k].tile.value;
        assert b.gen[t].(sockets := b.gen[t].sockets, pos := CellPos(k, n)) == b.gen[t];
        assert b.gen[t := b.gen[t]] == b.gen;
      }
    }
  }

  // ---------------------------------------------------------------------------------------------
  // FinaliseConfig

  /** The first generated tile at position p (GetNeighbour / GetTile), or None. */
  function TileIndexAt(gen: seq<Tile>, p: Pos): (r: Option<nat>)
    ensures r.Some? ==> r.value < |gen| && gen[r.value].pos == p && forall u :: 0 <= u < r.value ==> gen[u].pos != p
    ensures r.None? <==> forall u :: 0 <= u < |gen| ==> gen[u].pos != p
  {
    if |gen| == 0 then None
    else if gen[0].pos == p then Some(0)
    else
      var r := TileIndexAt(gen[1..], p);
      if r.None? then None else Some(r.value + 1)
  }

  /** The four neighbours FinaliseConfig passes to Finalise: the tile one step away in each
      direction, or None (null) where there is none. */
  function NeighbourSockets(gen: seq<Tile>, t: nat): (r: seq<Option<Sockets>>)
    requires t < |gen|
    ensures |r| == 4
    ensures forall d: Direction :: r[d].Some? <==> TileIndexAt(gen, Step(gen[t].pos, d)).Some?
    ensures forall d: Direction :: r[d].Some? ==> r[d].value == gen[TileIndexAt(gen, Step(gen[t].pos, d)).value].sockets
  {
    seq(4, d requires 0 <= d < 4 =>
      var u := TileIndexAt(gen, Step(gen[t].pos, d));
      if u.Some? then Some(gen[u.value].sockets) else None)
  }

  /** The outcome of a finalise pass: false when it threw, with the tiles as far as it got. */
  datatype Finalised = Finalised(ok: bool, gen: seq<Tile>)

  /** FinaliseConfig for tile t: with r = Finalise(neighbours), NONE leaves the tile alone,
      r >= tiles.Count throws at this.tiles[r], and otherwise the tile takes sockets map[r]
      and SyncSockets. */
  function FinaliseTile(gen: seq<Tile>, t: nat, tileCount: nat, table: seq<Sockets>): Finalised
    requires t < |gen|
  {
    var rt := Finalise(table, NeighbourSockets(gen, t));
    if rt == NONE then Finalised(true, gen)
    else if rt >= tileCount then Finalised(false, gen)
    else Finalised(true, gen[t := gen[t].(sockets := table[rt], validDirections := DirectionMap(table[rt]))])
  }

  /** FinaliseConfig after its first K tiles; later tiles see the sockets earlier ones took. */
  function FinaliseUpTo(gen: seq<Tile>, tileCount: nat, table: seq<Sockets>, K: nat): (r: Finalised)
    requires K <= |gen|
    ensures |r.gen| == |gen|
    ensures forall t :: 0 <= t < |gen| ==> r.gen[t].pos == gen[t].pos && r.gen[t].items == gen[t].items
    ensures forall t :: K <= t < |gen| ==> r.gen[t] == gen[t]
    ensures SocketsIn(gen, table) ==> SocketsIn(r.gen, table)
    ensures tileCount >= |table| ==> r.ok
  {
    if K == 0 then Finalised(true, gen)
    else
      var p := FinaliseUpTo(gen, tileCount, table, K - 1);
      if !p.ok then p else FinaliseTile(p.gen, K - 1, tileCount, table)
  }

  /** A finalise pass that has thrown stays thrown, with the tiles as they were at the throw. */
  lemma {:induction false} FinaliseUpToStops(gen: seq<Tile>, tileCount: nat, table: seq<Sockets>, K: nat, K': nat)
    requires K <= K' <= |gen| && !FinaliseUpTo(gen, tileCount, table, K).ok
    ensures FinaliseUpTo(gen, tileCount, table, K') == FinaliseUpTo(gen, tileCount, table, K)
    decreases K' - K
  {
    if K' > K {
      FinaliseUpToStops(gen, tileCount, table, K, K' - 1);
      var p := FinaliseUpTo(gen, tileCount, table, K' - 1);
      assert !p.ok;
    }
  }

  /** A tile that takes a new signature in the finalise pass presents, at that moment, the facing
      socket of each neighbouring tile, and 0 towards the edge of the map; its ValidDirections
      agree with its sockets. */
  lemma FinaliseTileFits(gen: seq<Tile>, t: nat, tileCount: nat, table: seq<Sockets>)
    requires t < |gen| && FinaliseTile(gen, t, tileCount, table).ok
    ensures var r := FinaliseTile(gen, t, tileCount, table).gen;
      r[t] == gen[t] || forall d: Direction ::
        && r[t].validDirections[d] == r[t].sockets[d]
        && (TileIndexAt(gen, Step(gen[t].pos, d)).Some? ==>
              r[t].sockets[d] == gen[TileIndexAt(gen, Step(gen[t].pos, d)).value].sockets[Opposite(d)])
        && (TileIndexAt(gen, Step(gen[t].pos, d)).None? ==> r[t].sockets[d] == 0)
  {
    var ns := NeighbourSockets(gen, t);
    if Finalise(table, ns) != NONE {
      FinaliseFitsNeighbours(table, ns);
    }
  }

  /** The finalise pass keeps every tile where it was, so the ownership invariant still holds. */
  lemma FinaliseKeepsOwned(grid: seq<Cell>, gen: seq<Tile>, owner: seq<nat>, n: nat, tileCount: nat, table: seq<Sockets>)
    requires Owned(grid, gen, owner, n)
    ensures Owned(grid, FinaliseUpTo(gen, tileCount, table, |gen|).gen, owner, n)
  {
  }

  /** FinaliseConfig when it runs to the end: every tile, in list order. */
  function FinalisePass(gen: seq<Tile>, tileCount: nat, table: seq<Sockets>): (r: Finalised)
    ensures |r.gen| == |gen|
  {
    FinaliseUpTo(gen, tileCount, table, |gen|)
  }

  // ---------------------------------------------------------------------------------------------
  // One call of Collapse

  /** The outcome of SortGridCopy or of one Collapse: false when it threw; whether it set
      `done`; the new state. */
  datatype Pass = Pass(ok: bool, done: bool, b: Board)

  /** The state invariants a generation pass starts from. */
  predicate PassReady(b: Board, tileCount: nat, table: seq<Sockets>, n: nat)
  {
    && n > 0 && |b.grid| == n * n && tileCount <= |table|
    && CellsWellFormed(b.grid, tileCount) && Owned(b.grid, b.gen, b.owner, n)
  }

  /** SortGridCopy with no cell left to collapse: FinaliseConfig twice, then `done`. A throw in
      either finalise pass ends the call with the tiles as far as it got. */
  function FinishSort(m: Board, tileCount: nat, table: seq<Sockets>): (p: Pass)
  {
    var f1 := FinalisePass(m.gen, tileCount, table);
    if !f1.ok then Pass(false, false, m.(gen := f1.gen))
    else
      var f2 := FinalisePass(f1.gen, tileCount, table);
      Pass(f2.ok, f2.ok, m.(gen := f2.gen))
  }

  /** SortGridCopy with cells left to collapse: the chosen cell collapses to one option or,
      having none, the whole grid starts over (StartOver). */
  function StepSort(m: Board, tileCount: nat, n: nat, cellRand: nat, optRand: nat): (p: Pass)
    requires |Uncollapsed(m.grid)| > 0
  {
    var k := Chosen(m.grid, cellRand);
    if OptionCount(m.grid[k]) == 0 then Pass(true, false, Board(FreshGrid(n, tileCount), [], []))
    else Pass(true, false, m.(grid := m.grid[k := CollapsedCell(m.grid[k], optRand)]))
  }

  /** SortGridCopy, with oracle values cellRand and optRand for its two Random.Range calls. */
  function SortSpec(m: Board, tileCount: nat, table: seq<Sockets>, n: nat, cellRand: nat, optRand: nat): (p: Pass)
  {
    if |Uncollapsed(m.grid)| == 0 then FinishSort(m, tileCount, table)
    else StepSort(m, tileCount, n, cellRand, optRand)
  }

  /** SortGridCopy keeps the shape of a well-formed grid, so CheckNeighbours can run after it. */
  lemma SortShape(m: Board, tileCount: nat, table: seq<Sockets>, n: nat, cellRand: nat, optRand: nat)
    requires n > 0 && |m.grid| == n * n && CellsWellFormed(m.grid, tileCount)
    ensures var p := SortSpec(m, tileCount, table, n, cellRand, optRand);
      |p.b.grid| == n * n && CellsWellFormed(p.b.grid, tileCount)
  {
    if |Uncollapsed(m.grid)| > 0 {
      var k := Chosen(m.grid, cellRand);
      assert CellOk(m.grid[k], tileCount);
      if OptionCount(m.grid[k]) == 0 {
        FreshGridValid(n, tileCount);
      } else {
        var c := CollapsedCell(m.grid[k], optRand);
        assert CellOk(c, tileCount);
        UpdateWellFormed(m.grid, tileCount, k, c);
      }
    }
  }

  /** One call of Collapse on a non-empty grid: CheckCollapsedCells, SortGridCopy, then
      CheckNeighbours unless SortGridCopy threw. */
  function CollapseSpec(b: Board, tiles: seq<Tile>, table: seq<Sockets>, n: nat, cellRand: nat, optRand: nat): (p: Pass)
    requires PassReady(b, |tiles|, table, n)
  {
    var m := MaterialiseUpTo(b, |tiles|, table, n, n * n);
    MaterialiseUpToInv(b, |tiles|, table, n, n * n);
    var s := SortSpec(m, |tiles|, table, n, cellRand, optRand);
    SortShape(m, |tiles|, table, n, cellRand, optRand);
    if !s.ok then s else s.(b := s.b.(grid := NextGrid(s.b.grid, tiles, n)))
  }

  /** Collapsing a cell that owns no tile keeps the ownership invariant. */
  lemma CollapseKeepsOwned(grid: seq<Cell>, gen: seq<Tile>, owner: seq<nat>, n: nat, k: nat, c: Cell)
    requires Owned(grid, gen, owner, n) && k < |grid| && grid[k].tile == None && c.collapsed && c.tile == None
    ensures Owned(grid[k := c], gen, owner, n)
  {
    assert forall t :: 0 <= t < |gen| ==> owner[t] != k;
  }

  /** No uncollapsed cell is left exactly when every cell is collapsed. */
  lemma NoneUncollapsed(grid: seq<Cell>)
    ensures |Uncollapsed(grid)| == 0 <==> forall k :: 0 <= k < |grid| ==> grid[k].collapsed
  {
    UncollapsedExactly(grid);
    if |Uncollapsed(grid)| > 0 {
      assert Uncollapsed(grid)[0] in Uncollapsed(grid);
    }
  }

  /** The finishing branch keeps the invariants when it does not throw. */
  lemma FinishSortValid(m: Board, tileCount: nat, table: seq<Sockets>, n: nat)
    requires PassReady(m, tileCount, table, n) && SocketsIn(m.gen, table)
    ensures var p := FinishSort(m, tileCount, table);
      p.ok ==> PassReady(p.b, tileCount, table, n) && SocketsIn(p.b.gen, table)
  {
    var f1 := FinalisePass(m.gen, tileCount, table);
    FinaliseKeepsOwned(m.grid, m.gen, m.owner, n, tileCount, table);
    if f1.ok {
      FinaliseKeepsOwned(m.grid, f1.gen, m.owner, n, tileCount, table);
    }
  }

  /** The collapsing branch keeps the invariants. */
  lemma StepSortValid(m: Board, tileCount: nat, table: seq<Sockets>, n: nat, cellRand: nat, optRand: nat)
    requires PassReady(m, tileCount, table, n) && |Uncollapsed(m.grid)| > 0 && SocketsIn(m.gen, table)
    ensures var p := StepSort(m, tileCount, n, cellRand, optRand);
      p.ok && PassReady(p.b, tileCount, table, n) && SocketsIn(p.b.gen, table)
  {
    var k := Chosen(m.grid, cellRand);
    assert CellOk(m.grid[k], tileCount);
    if OptionCount(m.grid[k]) == 0 {
      FreshGridValid(n, tileCount);
    } else {
      var c := CollapsedCell(m.grid[k], optRand);
      assert CellOk(c, tileCount);
      UpdateWellFormed(m.grid, tileCount, k, c);
      CollapseKeepsOwned(m.grid, m.gen, m.owner, n, k, c);
    }
  }

  /** SortGridCopy keeps the invariants when it does not throw. */
  lemma SortValid(m: Board, tileCount: nat, table: seq<Sockets>, n: nat, cellRand: nat, optRand: nat)
    requires PassReady(m, tileCount, table, n) && SocketsIn(m.gen, table)
    ensures var p := SortSpec(m, tileCount, table, n, cellRand, optRand);
      p.ok ==> PassReady(p.b, tileCount, table, n) && SocketsIn(p.b.gen, table)
  {
    if |Uncollapsed(m.grid)| == 0 {
      FinishSortValid(m, tileCount, table, n);
    } else {
      StepSortValid(m, tileCount, table, n, cellRand, optRand);
    }
  }

  /** A pass that does not throw keeps the invariants: well-formed cells, the ownership of
      tiles by cells, and signatures drawn from the table. */
  lemma CollapseSpecValid(b: Board, tiles: seq<Tile>, table: seq<Sockets>, n: nat, cellRand: nat, optRand: nat)
    requires PassReady(b, |tiles|, table, n) && SocketsIn(b.gen, table)
    ensures var p := CollapseSpec(b, tiles, table, n, cellRand, optRand);
      p.ok ==> PassReady(p.b, |tiles|, table, n) && SocketsIn(p.b.gen, table)
  {
    var T := |tiles|;
    var m := MaterialiseUpTo(b, T, table, n, n * n);
    MaterialiseUpToInv(b, T, table, n, n * n);
    var s := SortSpec(m, T, table, n, cellRand, optRand);
    SortValid(m, T, table, n, cellRand, optRand);
    if s.ok {
      NextGridOwned(s.b.grid, tiles, n, s.b.gen, s.b.owner);
      NextGridProperties(s.b.grid, tiles, n);
    }
  }

  /** The finishing branch finishes unless it throws, and leaves the grid as it was. */
  lemma FinishSortDone(m: Board, tileCount: nat, table: seq<Sockets>)
    ensures var p := FinishSort(m, tileCount, table);
      (p.done <==> p.ok) && p.b.grid == m.grid
  {
  }

  /** With at least one blueprint tile the collapsing branch collapses exactly one cell. */
  lemma StepSortProgress(m: Board, tileCount: nat, n: nat, cellRand: nat, optRand: nat)
    requires CellsWellFormed(m.grid, tileCount) && |Uncollapsed(m.grid)| > 0 && tileCount >= 1
    ensures var p := StepSort(m, tileCount, n, cellRand, optRand);
      p.ok && !p.done && |Uncollapsed(p.b.grid)| + 1 == |Uncollapsed(m.grid)|
  {
    var k := Chosen(m.grid, cellRand);
    assert CellOk(m.grid[k], tileCount);
    UncollapsedAfterCollapse(m.grid, k, CollapsedCell(m.grid[k], optRand));
  }

  /** A pass over a fully collapsed grid finishes unless a finalise pass throws, and leaves
      every cell collapsed and owning a tile. */
  lemma CollapseSpecFinishes(b: Board, tiles: seq<Tile>, table: seq<Sockets>, n: nat, cellRand: nat, optRand: nat)
    requires PassReady(b, |tiles|, table, n) && |Uncollapsed(b.grid)| == 0
    ensures var p := CollapseSpec(b, tiles, table, n, cellRand, optRand);
      && (p.done <==> p.ok)
      && (p.ok ==> |p.b.grid| == n * n && forall k :: 0 <= k < |p.b.grid| ==> p.b.grid[k].collapsed && p.b.grid[k].tile.Some?)
  {
    var T := |tiles|;
    var m := MaterialiseUpTo(b, T, table, n, n * n);
    MaterialiseUpToInv(b, T, table, n, n * n);
    UncollapsedSameFlags(m.grid, b.grid);
    NoneUncollapsed(m.grid);
    NoneUncollapsed(b.grid);
    FinishSortDone(m, T, table);
    NextGridAllCollapsed(m.grid, tiles, n);
  }

  /** A pass can throw only in FinaliseConfig's `tiles[roadType]`: with as many blueprint tiles
      as table entries it never throws. */
  lemma CollapseSpecOk(b: Board, tiles: seq<Tile>, table: seq<Sockets>, n: nat, cellRand: nat, optRand: nat)
    requires PassReady(b, |tiles|, table, n) && |tiles| >= |table|
    ensures CollapseSpec(b, tiles, table, n, cellRand, optRand).ok
  {
    var m := MaterialiseUpTo(b, |tiles|, table, n, n * n);
    if |Uncollapsed(m.grid)| == 0 {
      var f1 := FinalisePass(m.gen, |tiles|, table);
      assert f1.ok;
      assert FinalisePass(f1.gen, |tiles|, table).ok;
    }
  }

  /** With at least one blueprint tile a pass over a grid with cells left collapses exactly one. */
  lemma CollapseSpecSteps(b: Board, tiles: seq<Tile>, table: seq<Sockets>, n: nat, cellRand: nat, optRand: nat)
    requires PassReady(b, |tiles|, table, n) && |tiles| >= 1 && |Uncollapsed(b.grid)| > 0
    ensures var p := CollapseSpec(b, tiles, table, n, cellRand, optRand);
      p.ok && !p.done && |Uncollapsed(p.b.grid)| + 1 == |Uncollapsed(b.grid)|
  {
    var T := |tiles|;
    var m := MaterialiseUpTo(b, T, table, n, n * n);
    MaterialiseUpToInv(b, T, table, n, n * n);
    UncollapsedSameFlags(m.grid, b.grid);
    var s := SortSpec(m, T, table, n, cellRand, optRand);
    SortShape(m, T, table, n, cellRand, optRand);
    StepSortProgress(m, T, n, cellRand, optRand);
    NextGridKeepsCollapsed(s.b.grid, tiles, n);
  }

  /** With at least one blueprint tile every pass makes progress: one cell fewer is left to
      collapse, or, when none was left, the pass finishes (or throws). A finished pass leaves
      every cell collapsed and owning a tile. */
  lemma CollapseSpecProgress(b: Board, tiles: seq<Tile>, table: seq<Sockets>, n: nat, cellRand: nat, optRand: nat)
    requires PassReady(b, |tiles|, table, n) && |tiles| >= 1
    ensures var p := CollapseSpec(b, tiles, table, n, cellRand, optRand);
      && (p.done <==> p.ok && |Uncollapsed(b.grid)| == 0)
      && (|Uncollapsed(b.grid)| > 0 ==> p.ok && |Uncollapsed(p.b.grid)| + 1 == |Uncollapsed(b.grid)|)
      && (p.done ==> |p.b.grid| == n * n && forall k :: 0 <= k < |p.b.grid| ==> p.b.grid[k].collapsed && p.b.grid[k].tile.Some?)
  {
    if |Uncollapsed(b.grid)| == 0 {
      CollapseSpecFinishes(b, tiles, table, n, cellRand, optRand);
    } else {
      CollapseSpecSteps(b, tiles, table, n, cellRand, optRand);
    }
  }

  /** With no blueprint tiles the chosen cell has no option, so every pass that has a cell to
      collapse starts over from a fresh grid: the generation loop never ends. */
  lemma CollapseSpecRestarts(b: Board, tiles: seq<Tile>, table: seq<Sockets>, n: nat, cellRand: nat, optRand: nat)
    requires PassReady(b, |tiles|, table, n) && |tiles| == 0 && |Uncollapsed(b.grid)| > 0
    ensures var p := CollapseSpec(b, tiles, table, n, cellRand, optRand);
      p.ok && !p.done && p.b.gen == [] && |Uncollapsed(p.b.grid)| == n * n
  {
    var m := MaterialiseUpTo(b, 0, table, n, n * n);
    MaterialiseUpToInv(b, 0, table, n, n * n);
    UncollapsedSameFlags(m.grid, b.grid);
    SortRestarts(m, table, n, cellRand, optRand);
    var g0 := FreshGrid(n, 0);
    FreshGridValid(n, 0);
    NextGridKeepsCollapsed(g0, tiles, n);
  }

  /** With no blueprint tiles SortGridCopy on a grid with cells left starts over. */
  lemma SortRestarts(m: Board, table: seq<Sockets>, n: nat, cellRand: nat, optRand: nat)
    requires CellsWellFormed(m.grid, 0) && |Uncollapsed(m.grid)| > 0
    ensures SortSpec(m, 0, table, n, cellRand, optRand) == Pass(true, false, Board(FreshGrid(n, 0), [], []))
  {
    var k := Chosen(m.grid, cellRand);
    assert CellOk(m.grid[k], 0);
  }
}
