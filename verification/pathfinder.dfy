/** PathFinder.cs: a best-first search over the generator's tiles. From the tile at the start it
    expands a node at a time, enqueueing each not yet visited tile behind an open side; it stops
    the moment the end is generated, and rebuilds the path by walking parents and reversing. */
module Pathfinding {
  import opened Wrappers
  import opened Enums
  import opened Tiles
  import opened WfcPass
  import opened TileNodes
  import opened WFC

  /** How a search ends: a path, or one of the two exceptions the source lets escape (the null
      start tile dereferenced by the TileNode constructor, and queue.First() on an empty queue). */
  datatype Outcome = Found | NoStartTile | QueueEmpty

  /** ValidDirections holds direction d with a nonzero value: the walker may leave that way. */
  predicate Open(t: Tile, d: Direction)
  {
    d in t.validDirections && t.validDirections[d] != 0
  }

  /** One move of the search: from the tile GetTile finds at p, out through an open side, onto a
      tile GetTile finds at q. */
  predicate Link(tiles: seq<Tile>, p: Pos, q: Pos)
  {
    && TileIndexAt(tiles, p).Some? && TileIndexAt(tiles, q).Some?
    && exists d: Direction :: Open(tiles[TileIndexAt(tiles, p).value], d) && q == Step(p, d)
  }

  /** A walk from start to end whose every step is a Link. */
  predicate IsPath(tiles: seq<Tile>, start: Pos, end: Pos, path: seq<Pos>)
  {
    && |path| > 0 && path[0] == start && path[|path| - 1] == end
    && forall i :: 0 <= i < |path| - 1 ==> Link(tiles, path[i], path[i + 1])
  }

  ghost predicate Reachable(tiles: seq<Tile>, start: Pos, end: Pos)
  {
    exists path :: IsPath(tiles, start, end, path)
  }

  /** List.Reverse. */
  function Reversed<T>(s: seq<T>): (r: seq<T>)
    ensures |r| == |s| && forall i :: 0 <= i < |s| ==> r[i] == s[|s| - 1 - i]
  {
    if |s| == 0 then [] else Reversed(s[1..]) + [s[0]]
  }

  /** Without a tile at the start there is no first move, so only a start equal to the end is
      reachable. */
  lemma NoStartUnreachable(tiles: seq<Tile>, start: Pos, end: Pos)
    requires TileIndexAt(tiles, start).None? && start != end
    ensures !Reachable(tiles, start, end)
  {
    forall path: seq<Pos> | |path| > 1 && path[0] == start
      ensures !Link(tiles, path[0], path[1])
    {
    }
  }

  // ---------------------------------------------------------------------------------------------
  // The closed set an exhausted search leaves behind

  /** Every open side of tile t that leads onto a tile leads onto one of vs or onto tile s. */
  predicate Covered(tiles: seq<Tile>, t: Tile, vs: seq<nat>, s: nat)
  {
    forall d: Direction :: Open(t, d) && TileIndexAt(tiles, Step(t.pos, d)).Some? ==>
      TileIndexAt(tiles, Step(t.pos, d)).value in vs || TileIndexAt(tiles, Step(t.pos, d)).value == s
  }

  /** vs with s: every tile covered and none at the end. */
  ghost predicate Closed(tiles: seq<Tile>, vs: seq<nat>, s: nat, end: Pos)
  {
    forall v :: (v in vs || v == s) ==> v < |tiles| && Covered(tiles, tiles[v], vs, s) && tiles[v].pos != end
  }

  /** A move from a tile of a closed set lands on a tile of the set. */
  lemma LinkStaysIn(tiles: seq<Tile>, vs: seq<nat>, s: nat, end: Pos, p: Pos, q: Pos)
    requires Closed(tiles, vs, s, end) && Link(tiles, p, q)
    requires TileIndexAt(tiles, p).value in vs || TileIndexAt(tiles, p).value == s
    ensures TileIndexAt(tiles, q).value in vs || TileIndexAt(tiles, q).value == s
  {
    var a := TileIndexAt(tiles, p).value;
    var d: Direction :| Open(tiles[a], d) && q == Step(p, d);
    assert tiles[a].pos == p;
    assert Covered(tiles, tiles[a], vs, s);
  }

  /** A walk that leaves from a tile of a closed set never leaves it. */
  lemma {:induction false} WalkStaysIn(tiles: seq<Tile>, vs: seq<nat>, s: nat, end: Pos, path: seq<Pos>, i: nat)
    requires Closed(tiles, vs, s, end) && i < |path|
    requires TileIndexAt(tiles, path[0]).Some? && (TileIndexAt(tiles, path[0]).value in vs || TileIndexAt(tiles, path[0]).value == s)
    requires forall j :: 0 <= j < |path| - 1 ==> Link(tiles, path[j], path[j + 1])
    ensures TileIndexAt(tiles, path[i]).Some?
    ensures TileIndexAt(tiles, path[i]).value in vs || TileIndexAt(tiles, path[i]).value == s
  {
    if i > 0 {
      WalkStaysIn(tiles, vs, s, end, path, i - 1);
      assert Link(tiles, path[i - 1], path[i]);
      LinkStaysIn(tiles, vs, s, end, path[i - 1], path[i]);
    }
  }

  /** So the end, which no tile of the set sits on, cannot be reached from a start in it. */
  lemma ClosedUnreachable(tiles: seq<Tile>, vs: seq<nat>, s: nat, start: Pos, end: Pos)
    requires Closed(tiles, vs, s, end) && TileIndexAt(tiles, start) == Some(s)
    ensures !Reachable(tiles, start, end)
  {
    forall path | IsPath(tiles, start, end, path) ensures false {
      WalkStaysIn(tiles, vs, s, end, path, |path| - 1);
    }
  }

  // ---------------------------------------------------------------------------------------------
  // The search tree

  /** The tile GetTile finds at t's position is t itself. */
  predicate Listed(tiles: seq<Tile>, t: Tile)
  {
    TileIndexAt(tiles, t.pos).Some? && tiles[TileIndexAt(tiles, t.pos).value] == t
  }

  /** Every node but the root has an earlier parent. */
  predicate Ordered(pidx: seq<nat>)
  {
    forall i :: 0 < i < |pidx| ==> pidx[i] < i
  }

  /** The nodes a search has made, in the order it made them, as a tree of tiles: node 0 wraps
      the start tile, every node wraps the tile GetTile finds at its position, and every other
      node is one Link below an earlier node pidx[i]. Only the nodes' constant tiles are read. */
  ghost predicate Tree(tiles: seq<Tile>, nodes: seq<TileNode>, pidx: seq<nat>)
  {
    && |nodes| > 0 && |pidx| == |nodes| && Ordered(pidx)
    && (forall i :: 0 <= i < |nodes| ==> Listed(tiles, nodes[i].tile))
    && (forall i :: 0 < i < |nodes| ==> Link(tiles, nodes[pidx[i]].tile.pos, nodes[i].tile.pos))
  }

  /** The mutable half of the tree: node i's Parent is node pidx[i] and its Steps one more; the
      root has no parent and no steps. */
  ghost predicate Parents(nodes: seq<TileNode>, pidx: seq<nat>)
    reads nodes
  {
    && |nodes| > 0 && |pidx| == |nodes| && Ordered(pidx)
    && nodes[0].parent == null && nodes[0].steps == 0
    && forall i :: 0 < i < |nodes| ==> nodes[i].parent == nodes[pidx[i]] && nodes[i].steps == nodes[pidx[i]].steps + 1
  }

  /** A node made from the tile one open side away from node ci keeps the tree a tree. */
  lemma TreeSnoc(tiles: seq<Tile>, nodes: seq<TileNode>, pidx: seq<nat>, ci: nat, node: TileNode)
    requires Tree(tiles, nodes, pidx) && ci < |nodes|
    requires Listed(tiles, node.tile) && Link(tiles, nodes[ci].tile.pos, node.tile.pos)
    ensures Tree(tiles, nodes + [node], pidx + [ci])
  {
    var ns, ps := nodes + [node], pidx + [ci];
    forall i | 0 < i < |ns| ensures Link(tiles, ns[ps[i]].tile.pos, ns[i].tile.pos) {
      if i < |nodes| {
        assert ns[i] == nodes[i] && ps[i] == pidx[i] && ns[pidx[i]] == nodes[pidx[i]];
      }
    }
    forall i | 0 <= i < |ns| ensures Listed(tiles, ns[i].tile) {
      if i < |nodes| {
        assert ns[i] == nodes[i];
      }
    }
  }

  /** A child of node ci, one step further, keeps the parent links. */
  lemma ParentsSnoc(nodes: seq<TileNode>, pidx: seq<nat>, ci: nat, node: TileNode)
    requires Parents(nodes, pidx) && ci < |nodes|
    requires node.parent == nodes[ci] && node.steps == nodes[ci].steps + 1
    ensures Parents(nodes + [node], pidx + [ci])
  {
    var ns, ps := nodes + [node], pidx + [ci];
    forall i | 0 < i < |ns| ensures ns[i].parent == ns[ps[i]] && ns[i].steps == ns[ps[i]].steps + 1 {
      if i < |nodes| {
        assert ns[i] == nodes[i] && ps[i] == pidx[i] && ns[pidx[i]] == nodes[pidx[i]];
      }
    }
  }

  /** The positions from the root down to node i: the reconstruction's path once reversed. */
  ghost function RootPath(nodes: seq<TileNode>, pidx: seq<nat>, i: nat): (r: seq<Pos>)
    requires i < |nodes| && |pidx| == |nodes| && Ordered(pidx)
    ensures |r| > 0 && r[0] == nodes[0].tile.pos && r[|r| - 1] == nodes[i].tile.pos
    decreases i
  {
    Above(nodes, pidx, i) + [nodes[i].tile.pos]
  }

  /** The positions from the root down to node i's parent (none for the root). */
  ghost function Above(nodes: seq<TileNode>, pidx: seq<nat>, i: nat): (r: seq<Pos>)
    requires i < |nodes| && |pidx| == |nodes| && Ordered(pidx)
    ensures i > 0 ==> |r| > 0 && r[0] == nodes[0].tile.pos
    decreases i, 0
  {
    if i == 0 then [] else RootPath(nodes, pidx, pidx[i])
  }

  /** Root to node i is a path of Links. */
  lemma {:induction false} RootPathIsPath(tiles: seq<Tile>, nodes: seq<TileNode>, pidx: seq<nat>, i: nat)
    requires Tree(tiles, nodes, pidx) && i < |nodes|
    ensures IsPath(tiles, nodes[0].tile.pos, nodes[i].tile.pos, RootPath(nodes, pidx, i))
    decreases i
  {
    if i > 0 {
      var j := pidx[i];
      RootPathIsPath(tiles, nodes, pidx, j);
      var above := RootPath(nodes, pidx, j);
      var r := above + [nodes[i].tile.pos];
      assert r == RootPath(nodes, pidx, i);
      forall k | 0 <= k < |r| - 1 ensures Link(tiles, r[k], r[k + 1]) {
        if k < |above| - 1 {
          assert r[k] == above[k] && r[k + 1] == above[k + 1];
        }
      }
    }
  }

  /** A node's Steps is the number of moves on its root path. */
  lemma {:induction false} RootPathSteps(nodes: seq<TileNode>, pidx: seq<nat>, i: nat)
    requires Parents(nodes, pidx) && i < |nodes|
    ensures |RootPath(nodes, pidx, i)| == nodes[i].steps + 1
    decreases i
  {
    if i > 0 {
      RootPathSteps(nodes, pidx, pidx[i]);
    }
  }

  lemma ReversedSnoc<T>(s: seq<T>, x: T)
    ensures Reversed(s + [x]) == [x] + Reversed(s)
  {
    var a, b := Reversed(s + [x]), [x] + Reversed(s);
    assert |a| == |b|;
    forall i | 0 <= i < |a| ensures a[i] == b[i] {
      if i > 0 {
        assert (s + [x])[|s| - i] == s[|s| - i];
      }
    }
  }

  /** One step of the parent walk: appending the parent's position keeps the walk's reversal a
      tail of the root path. */
  lemma WalkStep(nodes: seq<TileNode>, pidx: seq<nat>, gi: nat, ci: nat, path: seq<Pos>)
    requires gi < |nodes| && 0 < ci < |nodes| && |pidx| == |nodes| && Ordered(pidx)
    requires RootPath(nodes, pidx, gi) == Above(nodes, pidx, ci) + Reversed(path)
    ensures RootPath(nodes, pidx, gi) == Above(nodes, pidx, pidx[ci]) + Reversed(path + [nodes[pidx[ci]].tile.pos])
  {
    ReversedSnoc(path, nodes[pidx[ci]].tile.pos);
  }

  // ---------------------------------------------------------------------------------------------
  // The queue and the visited list

  /** List.Remove: drop the first occurrence of x, if any. */
  function RemoveFirst<T(==)>(s: seq<T>, x: T): (r: seq<T>)
    ensures x in s ==> |r| == |s| - 1
    ensures x !in s ==> r == s
    ensures forall y :: y in r ==> y in s
    ensures forall y :: y in s && y != x ==> y in r
  {
    if |s| == 0 then []
    else if s[0] == x then s[1..]
    else [s[0]] + RemoveFirst(s[1..], x)
  }

  /** The tiles the queued nodes wrap. */
  function QueueTiles(queue: seq<TileNode>): set<Tile>
  {
    set k | 0 <= k < |queue| :: queue[k].tile
  }

  /** The tile indices not yet visited; the search loop's first measure. */
  function Unvisited(n: nat, visited: seq<nat>): set<nat>
  {
    set t | 0 <= t < n && t !in visited
  }

  /** vs' is vs followed by one newly visited tile per node made, in order, each not visited before. */
  ghost predicate Grown(tiles: seq<Tile>, vs: seq<nat>, vs': seq<nat>, made: seq<TileNode>)
  {
    && |vs'| == |vs| + |made| && vs'[..|vs|] == vs
    && forall j :: |vs| <= j < |vs'| ==> vs'[j] < |tiles| && tiles[vs'[j]] == made[j - |vs|].tile && vs'[j] !in vs'[..j]
  }

  /** Between expansions: every tile visited so far (and the start tile s) is off the end and
      either already covered, or wrapped by a queued node, or the current node's tile. */
  ghost predicate Frontier(tiles: seq<Tile>, s: nat, visited: seq<nat>, queue: seq<TileNode>, cur: Tile, end: Pos)
  {
    forall v :: (v in visited || v == s) ==>
      && v < |tiles| && tiles[v].pos != end
      && (Covered(tiles, tiles[v], visited, s) || tiles[v] in QueueTiles(queue) || tiles[v] == cur)
  }

  /** Visiting one more tile for one more node. */
  lemma GrownSnoc(tiles: seq<Tile>, vs: seq<nat>, vs': seq<nat>, made: seq<TileNode>, u: nat, node: TileNode)
    requires Grown(tiles, vs, vs', made) && u < |tiles| && u !in vs' && tiles[u] == node.tile
    ensures Grown(tiles, vs, vs' + [u], made + [node])
  {
    var ws, ms := vs' + [u], made + [node];
    assert ws[..|vs|] == vs' [..|vs|];
    forall j | |vs| <= j < |ws|
      ensures ws[j] < |tiles| && tiles[ws[j]] == ms[j - |vs|].tile && ws[j] !in ws[..j]
    {
      if j < |vs'| {
        assert ws[..j] == vs'[..j];
      } else {
        assert ws[..j] == vs';
      }
    }
  }

  /** A grown visited list stays free of duplicates. */
  lemma GrownNoDuplicates(tiles: seq<Tile>, vs: seq<nat>, vs': seq<nat>, made: seq<TileNode>)
    requires Grown(tiles, vs, vs', made) && NoDuplicates(vs)
    ensures NoDuplicates(vs')
  {
    forall i, j | 0 <= i < j < |vs'| ensures vs'[i] != vs'[j] {
      if j >= |vs| {
        assert vs'[i] in vs'[..j];
      } else {
        assert vs'[i] == vs[i] && vs'[j] == vs[j];
      }
    }
  }

  /** Queued nodes stay among the nodes made as both grow by the same new nodes. */
  lemma QueueInArena(queue: seq<TileNode>, nodes: seq<TileNode>, made: seq<TileNode>)
    requires forall k :: 0 <= k < |queue| ==> queue[k] in nodes
    ensures forall k :: 0 <= k < |queue + made| ==> (queue + made)[k] in nodes + made
  {
  }

  /** Covering only grows with the visited list. */
  lemma CoveredGrows(tiles: seq<Tile>, t: Tile, vs: seq<nat>, vs': seq<nat>, s: nat)
    requires Covered(tiles, t, vs, s) && |vs| <= |vs'| && vs'[..|vs|] == vs
    ensures Covered(tiles, t, vs', s)
  {
    forall d: Direction | Open(t, d) && TileIndexAt(tiles, Step(t.pos, d)).Some?
      ensures TileIndexAt(tiles, Step(t.pos, d)).value in vs' || TileIndexAt(tiles, Step(t.pos, d)).value == s
    {
      var u := TileIndexAt(tiles, Step(t.pos, d)).value;
      if u in vs {
        var j :| 0 <= j < |vs| && vs[j] == u;
        assert vs'[j] == u;
      }
    }
  }

  /** An expansion that covers the current tile and enqueues a node per newly visited tile,
      none at the end, keeps the frontier. */
  lemma FrontierAfterExpand(tiles: seq<Tile>, s: nat, end: Pos, visited: seq<nat>, visited': seq<nat>,
                            queue: seq<TileNode>, made: seq<TileNode>, cur: Tile)
    requires Frontier(tiles, s, visited, queue, cur, end) && Grown(tiles, visited, visited', made)
    requires forall j :: 0 <= j < |made| ==> made[j].tile.pos != end
    requires Covered(tiles, cur, visited', s)
    ensures Frontier(tiles, s, visited', queue + made, cur, end)
  {
    var q' := queue + made;
    forall v | v in visited' || v == s
      ensures v < |tiles| && tiles[v].pos != end
      ensures Covered(tiles, tiles[v], visited', s) || tiles[v] in QueueTiles(q') || tiles[v] == cur
    {
      if v in visited || v == s {
        if Covered(tiles, tiles[v], visited, s) {
          CoveredGrows(tiles, tiles[v], visited, visited', s);
        } else if tiles[v] in QueueTiles(queue) {
          var k :| 0 <= k < |queue| && queue[k].tile == tiles[v];
          assert q'[k] == queue[k];
        }
      } else {
        var j :| 0 <= j < |visited'| && visited'[j] == v;
        assert q'[|queue| + j - |visited|] == made[j - |visited|];
      }
    }
  }

  /** Partway through an expansion of node ci (wrapping cur), after the directions below d: the
      nodes, queue and visited list have grown by the same new nodes, and every open side below d
      that leads onto a tile leads onto a visited one. */
  ghost predicate Expanding(tiles: seq<Tile>, cur: TileNode, ci: nat, d: int,
                            queue0: seq<TileNode>, visited0: seq<nat>, nodes0: seq<TileNode>,
                            queue: seq<TileNode>, visited: seq<nat>, made: seq<TileNode>, nodes: seq<TileNode>, pidx: seq<nat>)
  {
    && Tree(tiles, nodes, pidx) && ci < |nodes0| && nodes0[ci] == cur
    && nodes == nodes0 + made && queue == queue0 + made && Grown(tiles, visited0, visited, made)
    && forall e: Direction :: e < d && Open(cur.tile, e) && TileIndexAt(tiles, Step(cur.tile.pos, e)).Some? ==>
         TileIndexAt(tiles, Step(cur.tile.pos, e)).value in visited
  }

  /** A direction that is closed, leads off the tiles or onto a visited tile adds nothing. */
  lemma ExpandingSkip(tiles: seq<Tile>, cur: TileNode, ci: nat, d: Direction,
                      queue0: seq<TileNode>, visited0: seq<nat>, nodes0: seq<TileNode>,
                      queue: seq<TileNode>, visited: seq<nat>, made: seq<TileNode>, nodes: seq<TileNode>, pidx: seq<nat>)
    requires Expanding(tiles, cur, ci, d, queue0, visited0, nodes0, queue, visited, made, nodes, pidx)
    requires Open(cur.tile, d) && TileIndexAt(tiles, Step(cur.tile.pos, d)).Some? ==> TileIndexAt(tiles, Step(cur.tile.pos, d)).value in visited
    ensures Expanding(tiles, cur, ci, d + 1, queue0, visited0, nodes0, queue, visited, made, nodes, pidx)
  {
  }

  /** A node for the unvisited tile u one open side away joins the nodes, the queue and, by its
      tile, the visited list. */
  lemma ExpandingAdd(tiles: seq<Tile>, cur: TileNode, ci: nat, d: Direction,
                     queue0: seq<TileNode>, visited0: seq<nat>, nodes0: seq<TileNode>,
                     queue: seq<TileNode>, visited: seq<nat>, made: seq<TileNode>, nodes: seq<TileNode>, pidx: seq<nat>,
                     u: nat, node: TileNode)
    requires Expanding(tiles, cur, ci, d, queue0, visited0, nodes0, queue, visited, made, nodes, pidx)
    requires Open(cur.tile, d) && TileIndexAt(tiles, Step(cur.tile.pos, d)) == Some(u)
    requires u !in visited && node.tile == tiles[u]
    ensures Expanding(tiles, cur, ci, d + 1, queue0, visited0, nodes0,
                      queue + [node], visited + [u], made + [node], nodes + [node], pidx + [ci])
  {
    assert nodes[ci] == cur;
    assert Listed(tiles, cur.tile);
    assert Link(tiles, cur.tile.pos, node.tile.pos);
    TreeSnoc(tiles, nodes, pidx, ci, node);
    GrownSnoc(tiles, visited0, visited, made, u, node);
  }

  /** Between expansions of the search from start tile s: the nodes form a tree rooted at s, node
      ci is the current node, every queued node is among the nodes, and the visited list, free of
      duplicates, keeps the frontier. */
  ghost predicate Searching(tiles: seq<Tile>, s: nat, end: Pos, nodes: seq<TileNode>, pidx: seq<nat>, ci: nat,
                            cur: TileNode, queue: seq<TileNode>, visited: seq<nat>)
  {
    && Tree(tiles, nodes, pidx) && ci < |nodes| && nodes[ci] == cur && s < |tiles| && nodes[0].tile == tiles[s]
    && (forall k :: 0 <= k < |queue| ==> queue[k] in nodes)
    && NoDuplicates(visited) && Frontier(tiles, s, visited, queue, cur.tile, end)
  }

  /** An expansion that reaches no end keeps the search going, covers the current tile and
      shrinks the unvisited tiles unless it made nothing. */
  lemma SearchingAfterExpand(tiles: seq<Tile>, s: nat, end: Pos, nodes: seq<TileNode>, pidx: seq<nat>, ci: nat,
                             cur: TileNode, queue: seq<TileNode>, visited: seq<nat>,
                             made: seq<TileNode>, pidx': seq<nat>, visited': seq<nat>)
    requires Searching(tiles, s, end, nodes, pidx, ci, cur, queue, visited)
    requires Tree(tiles, nodes + made, pidx') && Grown(tiles, visited, visited', made)
    requires forall j :: 0 <= j < |made| ==> made[j].tile.pos != end
    requires Covered(tiles, cur.tile, visited', s)
    ensures Searching(tiles, s, end, nodes + made, pidx', ci, cur, queue + made, visited')
    ensures |made| == 0 ==> Unvisited(|tiles|, visited') == Unvisited(|tiles|, visited) && queue + made == queue
    ensures |made| > 0 ==> Unvisited(|tiles|, visited') < Unvisited(|tiles|, visited)
  {
    UnvisitedShrinks(tiles, visited, visited', made);
    GrownNoDuplicates(tiles, visited, visited', made);
    FrontierAfterExpand(tiles, s, end, visited, visited', queue, made, cur.tile);
    QueueInArena(queue, nodes, made);
    assert (nodes + made)[ci] == cur && (nodes + made)[0] == nodes[0];
  }

  /** With nothing queued after the current tile is covered, the end is unreachable. */
  lemma SearchingExhausted(tiles: seq<Tile>, s: nat, start: Pos, end: Pos, nodes: seq<TileNode>, pidx: seq<nat>, ci: nat,
                           cur: TileNode, visited: seq<nat>)
    requires Searching(tiles, s, end, nodes, pidx, ci, cur, [], visited) && Covered(tiles, cur.tile, visited, s)
    requires TileIndexAt(tiles, start) == Some(s)
    ensures !Reachable(tiles, start, end)
  {
    FrontierExhausted(tiles, s, end, visited, cur.tile);
    ClosedUnreachable(tiles, visited, s, start, end);
  }

  /** Taking queued node k off the queue, once the current tile is covered, makes it the current
      node: it is node ci' of the tree. */
  lemma SearchingAfterPop(tiles: seq<Tile>, s: nat, end: Pos, nodes: seq<TileNode>, pidx: seq<nat>, ci: nat,
                          cur: TileNode, queue: seq<TileNode>, visited: seq<nat>, k: nat) returns (ci': nat)
    requires Searching(tiles, s, end, nodes, pidx, ci, cur, queue, visited) && Covered(tiles, cur.tile, visited, s)
    requires k < |queue|
    ensures Searching(tiles, s, end, nodes, pidx, ci', queue[k], RemoveFirst(queue, queue[k]), visited)
    ensures |RemoveFirst(queue, queue[k])| < |queue|
  {
    FrontierAfterPop(tiles, s, end, visited, queue, cur.tile, k);
    ci' :| 0 <= ci' < |nodes| && nodes[ci'] == queue[k];
    var r := RemoveFirst(queue, queue[k]);
    forall j | 0 <= j < |r| ensures r[j] in nodes {
      assert r[j] in queue;
    }
  }

  /** Taking the next node off the queue, once the current tile is covered, keeps the frontier. */
  lemma FrontierAfterPop(tiles: seq<Tile>, s: nat, end: Pos, visited: seq<nat>, queue: seq<TileNode>, cur: Tile, k: nat)
    requires Frontier(tiles, s, visited, queue, cur, end) && Covered(tiles, cur, visited, s) && k < |queue|
    ensures Frontier(tiles, s, visited, RemoveFirst(queue, queue[k]), queue[k].tile, end)
  {
    var q' := RemoveFirst(queue, queue[k]);
    forall v | v in visited || v == s
      ensures Covered(tiles, tiles[v], visited, s) || tiles[v] in QueueTiles(q') || tiles[v] == queue[k].tile
    {
      if tiles[v] in QueueTiles(queue) && tiles[v] != queue[k].tile {
        var m :| 0 <= m < |queue| && queue[m].tile == tiles[v];
        assert queue[m] in q';
      }
    }
  }

  /** With the queue empty and the current tile covered, the visited tiles are closed. */
  lemma FrontierExhausted(tiles: seq<Tile>, s: nat, end: Pos, visited: seq<nat>, cur: Tile)
    requires Frontier(tiles, s, visited, [], cur, end) && Covered(tiles, cur, visited, s)
    ensures Closed(tiles, visited, s, end)
  {
  }

  /** Visiting at least one new tile shrinks the unvisited set; visiting none leaves it. */
  lemma UnvisitedShrinks(tiles: seq<Tile>, vs: seq<nat>, vs': seq<nat>, made: seq<TileNode>)
    requires Grown(tiles, vs, vs', made)
    ensures |made| == 0 ==> Unvisited(|tiles|, vs') == Unvisited(|tiles|, vs)
    ensures |made| > 0 ==> Unvisited(|tiles|, vs') < Unvisited(|tiles|, vs)
  {
    if |made| == 0 {
      assert vs' == vs;
    } else {
      var u := vs'[|vs|];
      assert u !in vs'[..|vs|];
      assert u in Unvisited(|tiles|, vs) && u !in Unvisited(|tiles|, vs');
      assert forall t :: t in vs ==> t in vs';
    }
  }

  /** The sort key Steps + DistanceToTarget. */
  function Key(n: TileNode): real
    reads n
  {
    n.steps as real + n.distanceToTarget
  }

  /** queue.Sort by Key, then queue.First(): a node of least key. List.Sort is unstable, so which
      of several tied nodes comes first is the oracle `pick`'s choice. */
  method Cheapest(queue: seq<TileNode>, pick: nat) returns (k: nat)
    requires |queue| > 0
    ensures k < |queue| && forall j :: 0 <= j < |queue| ==> Key(queue[k]) <= Key(queue[j])
  {
    var m := 0;
    for i := 1 to |queue|
      invariant m < |queue| && forall j :: 0 <= j < i ==> Key(queue[m]) <= Key(queue[j])
    {
      if Key(queue[i]) < Key(queue[m]) {
        m := i;
      }
    }
    var ties: seq<nat> := [];
    for i := 0 to |queue|
      invariant forall t :: 0 <= t < |ties| ==> ties[t] < |queue| && Key(queue[ties[t]]) == Key(queue[m])
      invariant m < i ==> |ties| > 0
    {
      if Key(queue[i]) == Key(queue[m]) {
        ties := ties + [i];
      }
    }
    k := ties[pick % |ties|];
  }

  /** The end of GetPath: add the goal's position, walk Parent links to the root adding each
      position, then reverse; the result is the root path of the goal. */
  method Rebuild(goal: TileNode, ghost nodes: seq<TileNode>, ghost pidx: seq<nat>, ghost gi: nat)
    returns (path: seq<Pos>)
    requires Parents(nodes, pidx) && gi < |nodes| && nodes[gi] == goal
    ensures path == RootPath(nodes, pidx, gi)
  {
    var current: TileNode := goal;
    ghost var ci: nat := gi;
    path := [current.Position()];
    while current.parent != null
      invariant ci < |nodes| && nodes[ci] == current
      invariant ci > 0 ==> current.parent != null
      invariant RootPath(nodes, pidx, gi) == Above(nodes, pidx, ci) + Reversed(path)
      decreases ci
    {
      WalkStep(nodes, pidx, gi, ci, path);
      current, ci := current.parent, pidx[ci];
      path := path + [current.Position()];
    }
    path := Reversed(path);
  }

  // ---------------------------------------------------------------------------------------------
  // The path finder

  class PathFinder {
    const generator: Generator
    /** Vector3.Distance, which the heuristic DistanceToTarget is computed with. */
    const distance: (Pos, Pos) -> real
    var path: seq<Pos>
    var start: Pos
    var end: Pos

    constructor (gen: Generator, distance: (Pos, Pos) -> real)
      ensures generator == gen && this.distance == distance && path == []
    {
      generator := gen;
      this.distance := distance;
      path := [];
      start := Pos(0, 0);
      end := Pos(0, 0);
    }

    /** FindPath: [start] when start and end coincide, otherwise GetPath's path. The outcome is
      Found exactly when the end can be reached from the start by Links. */
    method FindPath(start: Pos, end: Pos, tieBreak: nat -> nat) returns (outcome: Outcome, r: seq<Pos>)
      modifies this
      ensures this.start == start && this.end == end && r == path
      ensures start == end ==> outcome == Found && r == [start]
      ensures outcome == NoStartTile <==> start != end && TileIndexAt(generator.generatedTiles, start).None?
      ensures outcome == Found <==> Reachable(generator.generatedTiles, start, end)
      ensures outcome == Found ==> IsPath(generator.generatedTiles, start, end, r)
      ensures outcome != Found ==> r == []
    {
      this.start := start;
      this.end := end;
      path := [];
      if start == end {
        path := path + [start];
        assert IsPath(generator.generatedTiles, start, end, path);
        return Found, path;
      }
      outcome := GetPath(tieBreak);
      r := path;
    }

    /** GetPath: search from the tile at `start` until the end is generated, then walk parents
      from that node and reverse. Without a start tile the TileNode constructor throws. */
    method GetPath(tieBreak: nat -> nat) returns (outcome: Outcome)
      requires start != end
      modifies this
      ensures start == old(start) && end == old(end)
      ensures outcome == NoStartTile <==> TileIndexAt(generator.generatedTiles, start).None?
      ensures outcome == Found <==> Reachable(generator.generatedTiles, start, end)
      ensures outcome == Found ==> IsPath(generator.generatedTiles, start, end, path)
      ensures outcome != Found ==> path == []
    {
      var tiles := generator.generatedTiles;
      path := [];
      var first := generator.GetTile(start);
      if first.None? {
        NoStartUnreachable(tiles, start, end);
        return NoStartTile;
      }
      var found, goal, nodes, pidx, gi := Search(first.value, tieBreak);
      if !found {
        return QueueEmpty;
      }
      path := Rebuild(goal, nodes, pidx, gi);
      RootPathIsPath(tiles, nodes, pidx, gi);
      return Found;
    }

    /** The while loop of GetPath: one Expand per node taken off the queue, until a node at the
      end is generated. When a node is needed and the queue is empty, queue.First() throws
      (`found` false), and then the end is unreachable. The oracle tieBreak(n) picks among the
      cheapest nodes at the n-th pop. */
    method Search(s: nat, tieBreak: nat -> nat)
      returns (found: bool, goal: TileNode, ghost nodes: seq<TileNode>, ghost pidx: seq<nat>, ghost gi: nat)
      requires start != end && TileIndexAt(generator.generatedTiles, start) == Some(s)
      ensures found ==> Tree(generator.generatedTiles, nodes, pidx) && Parents(nodes, pidx)
      ensures found ==> gi < |nodes| && nodes[gi] == goal
      ensures found ==> nodes[0].tile.pos == start && goal.tile.pos == end
      ensures !found ==> !Reachable(generator.generatedTiles, start, end)
    {
      var tiles := generator.generatedTiles;
      var current := new TileNode(tiles[s], end, distance);
      var queue: seq<TileNode> := [];
      var visited: seq<nat> := [];
      nodes, pidx := [current], [0];
      ghost var ci: nat := 0;
      var pops := 0;
      var reached := false;
      while |queue| > 0 || !reached
        invariant !reached
        invariant Searching(tiles, s, end, nodes, pidx, ci, current, queue, visited) && Parents(nodes, pidx)
        decreases Unvisited(|tiles|, visited), |queue|
      {
        var exhausted, next: TileNode, queue': seq<TileNode>, visited': seq<nat>;
        ghost var nodes': seq<TileNode>, pidx': seq<nat>, ci': nat;
        reached, exhausted, next, queue', visited', nodes', pidx', ci' := Round(current, queue, visited, s, nodes, pidx, ci, tieBreak(pops));
        if reached {
          return true, next, nodes', pidx', ci';
        }
        if exhausted {
          return false, current, nodes, pidx, ci;
        }
        current, queue, visited, nodes, pidx, ci := next, queue', visited', nodes', pidx', ci';
        pops := pops + 1;
      }
    }

    /** One round of the while loop in GetPath: expand the current node; unless that reached the
      end, take the next node off the queue, which throws when the queue is empty. */
    method Round(current: TileNode, queue: seq<TileNode>, visited: seq<nat>, ghost s: nat,
                 ghost nodes: seq<TileNode>, ghost pidx: seq<nat>, ghost ci: nat, pick: nat)
      returns (reached: bool, exhausted: bool, next: TileNode, queue': seq<TileNode>, visited': seq<nat>,
               ghost nodes': seq<TileNode>, ghost pidx': seq<nat>, ghost ci': nat)
      requires TileIndexAt(generator.generatedTiles, start) == Some(s)
      requires Searching(generator.generatedTiles, s, end, nodes, pidx, ci, current, queue, visited) && Parents(nodes, pidx)
      ensures reached ==> Tree(generator.generatedTiles, nodes', pidx') && Parents(nodes', pidx')
      ensures reached ==> ci' < |nodes'| && nodes'[ci'] == next && nodes'[0].tile.pos == start && next.tile.pos == end
      ensures !reached && exhausted ==> !Reachable(generator.generatedTiles, start, end)
      ensures !reached && !exhausted ==> Searching(generator.generatedTiles, s, end, nodes', pidx', ci', next, queue', visited')
      ensures !reached && !exhausted ==> Parents(nodes', pidx')
      ensures !reached && !exhausted ==>
                Unvisited(|generator.generatedTiles|, visited') < Unvisited(|generator.generatedTiles|, visited) ||
                (Unvisited(|generator.generatedTiles|, visited') == Unvisited(|generator.generatedTiles|, visited) && |queue'| < |queue|)
    {
      ghost var tiles := generator.generatedTiles;
      var expandedQueue: seq<TileNode>;
      ghost var made: seq<TileNode>;
      exhausted := false;
      reached, next, expandedQueue, visited', made, nodes', pidx' := Expand(current, queue, visited, s, nodes, pidx, ci);
      if reached {
        assert nodes'[0] == nodes[0];
        return reached, exhausted, next, expandedQueue, visited', nodes', pidx', |nodes'| - 1;
      }
      SearchingAfterExpand(tiles, s, end, nodes, pidx, ci, current, queue, visited, made, pidx', visited');
      exhausted, next, queue', ci' := Pop(current, expandedQueue, visited', s, nodes', pidx', ci, pick);
    }

    /** The rest of one round of the while loop in GetPath, once the current tile is covered:
      queue.First() on an empty queue throws; otherwise a cheapest node (the oracle pick breaks
      ties) becomes the current node and is removed from the queue. */
    method Pop(current: TileNode, queue: seq<TileNode>, visited: seq<nat>, ghost s: nat,
               ghost nodes: seq<TileNode>, ghost pidx: seq<nat>, ghost ci: nat, pick: nat)
      returns (exhausted: bool, current': TileNode, queue': seq<TileNode>, ghost ci': nat)
      requires TileIndexAt(generator.generatedTiles, start) == Some(s)
      requires Searching(generator.generatedTiles, s, end, nodes, pidx, ci, current, queue, visited)
      requires Covered(generator.generatedTiles, current.tile, visited, s)
      ensures exhausted <==> queue == []
      ensures exhausted ==> !Reachable(generator.generatedTiles, start, end) && current' == current && ci' == ci
      ensures !exhausted ==> Searching(generator.generatedTiles, s, end, nodes, pidx, ci', current', queue', visited)
      ensures !exhausted ==> |queue'| < |queue| && current' in queue
      ensures !exhausted ==> forall j :: 0 <= j < |queue| ==> Key(current') <= Key(queue[j])
    {
      if |queue| == 0 {
        SearchingExhausted(generator.generatedTiles, s, start, end, nodes, pidx, ci, current, visited);
        return true, current, queue, ci;
      }
      var k := Cheapest(queue, pick);
      ci' := SearchingAfterPop(generator.generatedTiles, s, end, nodes, pidx, ci, current, queue, visited, k);
      current' := queue[k];
      queue' := RemoveFirst(queue, current');
      exhausted := false;
    }

    /** `new TileNode(next, End)`, then SetParent(current) and SetSteps(current.Steps + 1). */
    method MakeChild(t: Tile, current: TileNode) returns (node: TileNode)
      ensures fresh(node) && node.tile == t && node.parent == current && node.steps == current.steps + 1
      ensures node.distanceToTarget == distance(t.pos, end)
    {
      node := new TileNode(t, end, distance);
      node.SetParent(current);
      node.SetSteps(current.steps + 1);
    }

    /** One pass of the foreach in GetPath, for direction dir: when the current tile is open that
      way and GetTile finds a tile there that is not yet visited, make a child node for it, mark
      its tile visited and enqueue it. */
    method Visit(current: TileNode, dir: Direction, ghost ci: nat,
                 ghost queue0: seq<TileNode>, ghost visited0: seq<nat>, ghost nodes0: seq<TileNode>,
                 queue: seq<TileNode>, visited: seq<nat>,
                 ghost made: seq<TileNode>, ghost nodes: seq<TileNode>, ghost pidx: seq<nat>)
      returns (added: bool, node: TileNode, queue': seq<TileNode>, visited': seq<nat>,
               ghost made': seq<TileNode>, ghost nodes': seq<TileNode>, ghost pidx': seq<nat>)
      requires Expanding(generator.generatedTiles, current, ci, dir, queue0, visited0, nodes0, queue, visited, made, nodes, pidx)
      requires Parents(nodes, pidx)
      ensures Expanding(generator.generatedTiles, current, ci, dir + 1, queue0, visited0, nodes0, queue', visited', made', nodes', pidx')
      ensures Parents(nodes', pidx')
      ensures added ==> made' == made + [node]
      ensures !added ==> made' == made
    {
      var tiles := generator.generatedTiles;
      added, node := false, current;
      queue', visited', made', nodes', pidx' := queue, visited, made, nodes, pidx;
      if dir !in current.tile.validDirections || current.tile.validDirections[dir] == 0 {
        ExpandingSkip(tiles, current, ci, dir, queue0, visited0, nodes0, queue, visited, made, nodes, pidx);
        return;
      }
      var found := generator.GetTile(Step(current.Position(), dir));
      if found.None? || found.value in visited {
        ExpandingSkip(tiles, current, ci, dir, queue0, visited0, nodes0, queue, visited, made, nodes, pidx);
        return;
      }
      var u := found.value;
      node := MakeChild(tiles[u], current);
      ExpandingAdd(tiles, current, ci, dir, queue0, visited0, nodes0, queue, visited, made, nodes, pidx, u, node);
      assert nodes[ci] == current;
      ParentsSnoc(nodes, pidx, ci, node);
      added := true;
      queue', visited', made' := queue + [node], visited + [u], made + [node];
      nodes', pidx' := nodes + [node], pidx + [ci];
    }

    /** The body of the foreach in GetPath: for each open side of the current tile (in the
      order SyncSockets filled ValidDirections), enqueue a node for the unvisited tile there,
      one step further than the current node and with it as parent; stop at once when that
      node is at the end. */
    method Expand(current: TileNode, queue: seq<TileNode>, visited: seq<nat>, ghost s: nat,
                  ghost nodes: seq<TileNode>, ghost pidx: seq<nat>, ghost ci: nat)
      returns (reached: bool, next: TileNode, queue': seq<TileNode>, visited': seq<nat>,
               ghost made: seq<TileNode>, ghost nodes': seq<TileNode>, ghost pidx': seq<nat>)
      requires Tree(generator.generatedTiles, nodes, pidx) && Parents(nodes, pidx)
      requires ci < |nodes| && nodes[ci] == current
      ensures Tree(generator.generatedTiles, nodes', pidx') && Parents(nodes', pidx')
      ensures nodes' == nodes + made && queue' == queue + made
      ensures Grown(generator.generatedTiles, visited, visited', made)
      ensures forall j :: 0 <= j < |made| - 1 ==> made[j].tile.pos != end
      ensures reached ==> |made| > 0 && next == made[|made| - 1] && next.tile.pos == end
      ensures !reached ==> next == current && forall j :: 0 <= j < |made| ==> made[j].tile.pos != end
      ensures !reached ==> Covered(generator.generatedTiles, current.tile, visited', s)
    {
      var tiles := generator.generatedTiles;
      reached, next := false, current;
      queue', visited', nodes', pidx' := queue, visited, nodes, pidx;
      made := [];
      for d := 0 to 4
        invariant Expanding(tiles, current, ci, d, queue, visited, nodes, queue', visited', made, nodes', pidx')
        invariant Parents(nodes', pidx')
        invariant forall j :: 0 <= j < |made| ==> made[j].tile.pos != end
      {
        var added, node;
        added, node, queue', visited', made, nodes', pidx' := Visit(current, d, ci, queue, visited, nodes, queue', visited', made, nodes', pidx');
        if added && node.Position() == end {
          return true, node, queue', visited', made, nodes', pidx';
        }
      }
    }
  }
}
