/** Tiles (Tile.cs): a placed map unit with four road sockets, per-direction lists of the
    RoadTypes that may neighbour it, the directions a walker may leave it by, and the
    objects placed on it. */
module Tiles {
  import opened Wrappers
  import opened Enums

  /** One socket per direction, indexed UP, RIGHT, DOWN, LEFT; 1 means a road leaves that side. */
  type Sockets = s: seq<int> | |s| == 4 witness [0, 0, 0, 0]

  /** edges[d] lists the RoadTypes that may sit next to the tile in direction d. */
  type Edges = e: seq<seq<RoadType>> | |e| == 4 witness [[], [], [], []]

  /** An object placed on a tile; its position is in sub-cell units (a tile is 9 x 9 sub-cells). */
  datatype Item = Item(id: int, pos: Pos)

  /** `validDirections` is the source's ValidDirections dictionary (filled only by SyncSockets);
      `grid` identifies the tile's local placement grid once one has been made. */
  datatype Tile = Tile(sockets: Sockets, pos: Pos, edges: Edges, validDirections: map<Direction, int>,
                       items: seq<Item>, grid: Option<int>)

  /** A freshly constructed tile: the given sockets at the origin, nothing analysed, synced or placed. */
  function NewTile(sockets: Sockets): (t: Tile)
    ensures t.sockets == sockets && t.pos == Pos(0, 0)
    ensures t.edges == [[], [], [], []] && t.validDirections == map[] && t.items == [] && t.grid == None
  {
    Tile(sockets, Pos(0, 0), [[], [], [], []], map[], [], None)
  }

  /** CompareEdge: two sockets fit when their values are equal. */
  predicate CompareEdge(a: int, b: int)
  {
    a == b
  }

  // ---------------------------------------------------------------------------------------------
  // Rotation

  /** Rotate(num): the new socket i is the old socket (i + num + 4) % 4. The source's index
      is negative (and throws) for num < -4, so num >= -4 is required. */
  function Rotate(s: Sockets, num: int): (r: Sockets)
    requires num >= -4
    ensures forall i :: 0 <= i < 4 ==> r[i] == s[(i + num + 4) % 4]
  {
    [s[(num + 4) % 4], s[(1 + num + 4) % 4], s[(2 + num + 4) % 4], s[(3 + num + 4) % 4]]
  }

  /** Tile.Rotate(num): a fresh tile whose sockets are those of t turned by num quarter turns
      (the turned GameObject is not modelled). */
  method RotateTile(t: Tile, num: int) returns (r: Tile)
    requires num >= -4
    ensures r == NewTile(Rotate(t.sockets, num))
  {
    var newEdges := new int[4];
    var len := |t.sockets|;
    for i := 0 to len
      invariant forall k :: 0 <= k < i ==> newEdges[k] == t.sockets[(k + num + len) % len]
    {
      newEdges[i] := t.sockets[(i + num + len) % len];
    }
    r := NewTile(newEdges[..]);
  }

  /** A quarter turn four times, or Rotate(4), gives back the original signature. */
  lemma RotateFour(s: Sockets)
    ensures Rotate(s, 4) == s
    ensures Rotate(Rotate(Rotate(Rotate(s, 1), 1), 1), 1) == s
  {
    assert Rotate(s, 4) == [s[0], s[1], s[2], s[3]];
    var r1 := Rotate(s, 1);
    assert r1 == [s[1], s[2], s[3], s[0]];
    var r2 := Rotate(r1, 1);
    assert r2 == [s[2], s[3], s[0], s[1]];
    var r3 := Rotate(r2, 1);
    assert r3 == [s[3], s[0], s[1], s[2]];
  }

  /** Rotate(num) moves the first (num + 4) % 4 sockets to the back. */
  lemma RotateIsSplice(s: Sockets, num: int)
    requires num >= -4
    ensures Rotate(s, num) == s[(num + 4) % 4..] + s[..(num + 4) % 4]
  {
    var k := (num + 4) % 4;
    var q := (num + 4) / 4;
    assert num + 4 == 4 * q + k;
    var r := Rotate(s, num);
    var spliced := s[k..] + s[..k];
    forall i | 0 <= i < 4 ensures r[i] == spliced[i] {
      assert i + num + 4 == 4 * q + i + k;
      if i + k < 4 {
        assert (i + num + 4) % 4 == i + k;
      } else {
        assert (i + num + 4) % 4 == i + k - 4;
      }
    }
  }

  /** Rotating never invents or loses a socket value: the result is a permutation. */
  lemma RotatePermutes(s: Sockets, num: int)
    requires num >= -4
    ensures multiset(Rotate(s, num)) == multiset(s)
  {
    var k := (num + 4) % 4;
    RotateIsSplice(s, num);
    assert s == s[..k] + s[k..];
  }

  // ---------------------------------------------------------------------------------------------
  // The road-socket table (the generator's `map` dictionary, keyed 0, 1, 2, ...)

  /** The RoadType GetRoadType returns: the smallest index whose table entry equals `s`, or NONE. */
  function RoadTypeOf(table: seq<Sockets>, s: Sockets): (r: RoadType)
    ensures r == NONE || (0 <= r < |table| && table[r] == s)
    ensures r == NONE <==> s !in table
    ensures r != NONE ==> forall i :: 0 <= i < r ==> table[i] != s
  {
    if |table| == 0 then NONE
    else if table[0] == s then 0
    else
      var r := RoadTypeOf(table[1..], s);
      if r == NONE then NONE else r + 1
  }

  // ---------------------------------------------------------------------------------------------
  // Finalise

  /** The probe Finalise builds: entry i is the socket of neighbour i that faces back,
      (i + 2) % 4, or 0 when there is no neighbour in direction i. */
  function Probe(neighbours: seq<Option<Sockets>>): (r: Sockets)
    requires |neighbours| == 4
    ensures forall i :: 0 <= i < 4 && neighbours[i].None? ==> r[i] == 0
    ensures forall i :: 0 <= i < 4 && neighbours[i].Some? ==> r[i] == neighbours[i].value[Opposite(i)]
  {
    seq(4, i requires 0 <= i < 4 => if neighbours[i].None? then 0 else neighbours[i].value[(i + 2) % 4])
  }

  /** Finalise: the RoadType whose signature matches what the four neighbours present. */
  function Finalise(table: seq<Sockets>, neighbours: seq<Option<Sockets>>): (r: RoadType)
    requires |neighbours| == 4
    ensures r == NONE || (0 <= r < |table| && table[r] == Probe(neighbours))
    ensures r == NONE <==> Probe(neighbours) !in table
  {
    RoadTypeOf(table, Probe(neighbours))
  }

  /** The loop of Finalise that builds its probe; the lookup of the probe in the table (the
      generator's GetRoadType) is the caller's. */
  method FinaliseProbe(neighbours: seq<Option<Sockets>>) returns (test: Sockets)
    requires |neighbours| == 4
    ensures test == Probe(neighbours)
  {
    var arr := new int[4];
    for i := 0 to 4
      invariant forall k :: 0 <= k < i ==> arr[k] == Probe(neighbours)[k]
    {
      if neighbours[i].None? {
        arr[i] := 0;
      } else {
        arr[i] := neighbours[i].value[(i + 2) % 4];
      }
    }
    test := arr[..];
  }

  /** A tile adopting the signature Finalise found fits every present neighbour's facing socket. */
  lemma FinaliseFitsNeighbours(table: seq<Sockets>, neighbours: seq<Option<Sockets>>)
    requires |neighbours| == 4
    requires Finalise(table, neighbours) != NONE
    ensures forall d: Direction :: neighbours[d].Some? ==>
              CompareEdge(table[Finalise(table, neighbours)][d], neighbours[d].value[Opposite(d)])
    ensures forall d: Direction :: neighbours[d].None? ==> table[Finalise(table, neighbours)][d] == 0
  {
  }

  // ---------------------------------------------------------------------------------------------
  // Analyse

  /** Whether `other` may sit next to a tile with sockets `own` in direction d: its socket facing
      back must equal own[d] (UP pairs other[2] with own[0], RIGHT 3 with 1, DOWN 0 with 2, LEFT 1 with 3). */
  predicate Fits(own: Sockets, other: Sockets, d: Direction)
  {
    CompareEdge(other[Opposite(d)], own[d])
  }

  /** Append x unless the list already contains it. */
  function Include(e: seq<RoadType>, x: RoadType): (r: seq<RoadType>)
    ensures x in r
    ensures forall y :: y in r <==> y in e || y == x
  {
    if x in e then e else e + [x]
  }

  /** The list edges[d] after Analyse has looked at the tiles `others`, in order. */
  function EdgesAfter(e: seq<RoadType>, own: Sockets, others: seq<Tile>, table: seq<Sockets>, d: Direction): seq<RoadType>
  {
    if |others| == 0 then e
    else
      var r := EdgesAfter(e, own, others[..|others| - 1], table, d);
      var last := others[|others| - 1];
      if Fits(own, last.sockets, d) then Include(r, RoadTypeOf(table, last.sockets)) else r
  }

  /** All four lists after Analyse. */
  function AnalysedEdges(t: Tile, others: seq<Tile>, table: seq<Sockets>): Edges
  {
    seq(4, d requires 0 <= d < 4 => EdgesAfter(t.edges[d], t.sockets, others, table, d))
  }

  /** Analyse(Tiles): for every listed tile and every direction in which it fits, record its
      RoadType in that direction's list unless the list already holds it. */
  method Analyse(t: Tile, others: seq<Tile>, table: seq<Sockets>) returns (r: Tile)
    ensures r == t.(edges := AnalysedEdges(t, others, table))
  {
    var edges := t.edges;
    for k := 0 to |others|
      invariant forall d: Direction :: edges[d] == EdgesAfter(t.edges[d], t.sockets, others[..k], table, d)
    {
      var other := others[k];
      assert others[..k + 1][..k] == others[..k];
      for i := 0 to 4
        invariant forall d': Direction :: d' < i ==> edges[d'] == EdgesAfter(t.edges[d'], t.sockets, others[..k + 1], table, d')
        invariant forall d': Direction :: i <= d' ==> edges[d'] == EdgesAfter(t.edges[d'], t.sockets, others[..k], table, d')
      {
        var d: Direction := i;
        if CompareEdge(other.sockets[Opposite(d)], t.sockets[d]) {
          var newType := RoadTypeOf(table, other.sockets);
          if newType !in edges[d] {
            edges := edges[d := edges[d] + [newType]];
          }
        }
      }
    }
    assert others[..|others|] == others;
    r := t.(edges := edges);
  }

  /** A RoadType is in edges[d] after Analyse exactly when it was there before or some listed
      tile fits in direction d and has that RoadType. */
  lemma {:induction false} EdgesAfterMembership(e: seq<RoadType>, own: Sockets, others: seq<Tile>, table: seq<Sockets>, d: Direction, x: RoadType)
    ensures x in EdgesAfter(e, own, others, table, d) <==>
            x in e || exists k :: 0 <= k < |others| && Fits(own, others[k].sockets, d) && RoadTypeOf(table, others[k].sockets) == x
  {
    if |others| > 0 {
      var init := others[..|others| - 1];
      EdgesAfterMembership(e, own, init, table, d, x);
      if x in e || exists k :: 0 <= k < |others| && Fits(own, others[k].sockets, d) && RoadTypeOf(table, others[k].sockets) == x {
        if !(x in e) {
          var k :| 0 <= k < |others| && Fits(own, others[k].sockets, d) && RoadTypeOf(table, others[k].sockets) == x;
          if k < |others| - 1 {
            assert init[k] == others[k];
          }
        }
      } else {
        assert forall k :: 0 <= k < |init| ==> init[k] == others[k];
      }
    }
  }

  /** Analyse never puts a RoadType into a list twice. */
  lemma {:induction false} EdgesAfterNoDuplicates(e: seq<RoadType>, own: Sockets, others: seq<Tile>, table: seq<Sockets>, d: Direction)
    requires NoDuplicates(e)
    ensures NoDuplicates(EdgesAfter(e, own, others, table, d))
  {
    if |others| > 0 {
      EdgesAfterNoDuplicates(e, own, others[..|others| - 1], table, d);
    }
  }

  /** Looking at more tiles only appends: the earlier list is a prefix of the later one. */
  lemma {:induction false} EdgesAfterExtends(e: seq<RoadType>, own: Sockets, others: seq<Tile>, table: seq<Sockets>, d: Direction)
    ensures |e| <= |EdgesAfter(e, own, others, table, d)|
    ensures EdgesAfter(e, own, others, table, d)[..|e|] == e
  {
    if |others| > 0 {
      EdgesAfterExtends(e, own, others[..|others| - 1], table, d);
    }
  }

  /** A list that already holds every RoadType Analyse would add is left as it is. */
  lemma {:induction false} EdgesAfterSaturated(e: seq<RoadType>, own: Sockets, others: seq<Tile>, table: seq<Sockets>, d: Direction)
    requires forall k :: 0 <= k < |others| && Fits(own, others[k].sockets, d) ==> RoadTypeOf(table, others[k].sockets) in e
    ensures EdgesAfter(e, own, others, table, d) == e
  {
    if |others| > 0 {
      var init := others[..|others| - 1];
      assert forall k :: 0 <= k < |init| ==> init[k] == others[k];
      EdgesAfterSaturated(e, own, init, table, d);
    }
  }

  /** Re-running Analyse over the same tile list leaves the edge lists unchanged. */
  lemma AnalyseIdempotent(t: Tile, others: seq<Tile>, table: seq<Sockets>)
    ensures AnalysedEdges(t.(edges := AnalysedEdges(t, others, table)), others, table) == AnalysedEdges(t, others, table)
  {
    var once := AnalysedEdges(t, others, table);
    var t1 := t.(edges := once);
    forall d: Direction ensures EdgesAfter(once[d], t.sockets, others, table, d) == once[d] {
      forall k | 0 <= k < |others| && Fits(t.sockets, others[k].sockets, d)
        ensures RoadTypeOf(table, others[k].sockets) in once[d]
      {
        EdgesAfterMembership(t.edges[d], t.sockets, others, table, d, RoadTypeOf(table, others[k].sockets));
      }
      EdgesAfterSaturated(once[d], t.sockets, others, table, d);
    }
    assert AnalysedEdges(t1, others, table) == once;
  }

  // ---------------------------------------------------------------------------------------------
  // SyncSockets

  /** Analyse reads only the other tiles' sockets: lists of tiles with the same sockets, in the
      same order, give the same edges. */
  lemma {:induction false} EdgesAfterSocketsOnly(e: seq<RoadType>, own: Sockets, a: seq<Tile>, b: seq<Tile>, table: seq<Sockets>, d: Direction)
    requires |a| == |b| && forall u :: 0 <= u < |a| ==> a[u].sockets == b[u].sockets
    ensures EdgesAfter(e, own, a, table, d) == EdgesAfter(e, own, b, table, d)
  {
    if |a| > 0 {
      EdgesAfterSocketsOnly(e, own, a[..|a| - 1], b[..|b| - 1], table, d);
    }
  }

  lemma AnalysedEdgesSocketsOnly(t: Tile, a: seq<Tile>, b: seq<Tile>, table: seq<Sockets>)
    requires |a| == |b| && forall u :: 0 <= u < |a| ==> a[u].sockets == b[u].sockets
    ensures AnalysedEdges(t, a, table) == AnalysedEdges(t, b, table)
  {
    forall d: Direction ensures EdgesAfter(t.edges[d], t.sockets, a, table, d) == EdgesAfter(t.edges[d], t.sockets, b, table, d) {
      EdgesAfterSocketsOnly(t.edges[d], t.sockets, a, b, table, d);
    }
  }

  /** The dictionary that maps each direction to the socket facing it. */
  function DirectionMap(s: Sockets): (m: map<Direction, int>)
    ensures forall d: Direction :: d in m && m[d] == s[d]
  {
    map d: Direction | 0 <= d < 4 :: s[d]
  }

  /** SyncSockets: ValidDirections[d] := Sockets[d] for each of the four directions, which
      leaves ValidDirections equal to the socket map whatever it held before. */
  method SyncSockets(t: Tile) returns (r: Tile)
    ensures forall d: Direction :: d in r.validDirections && r.validDirections[d] == t.sockets[d]
    ensures r == t.(validDirections := DirectionMap(t.sockets))
  {
    var vd: map<Direction, int> := t.validDirections;
    for i := 0 to 4
      invariant forall d: Direction :: d < i ==> d in vd && vd[d] == t.sockets[d]
    {
      var d: Direction := i;
      vd := vd[d := t.sockets[d]];
    }
    assert vd.Keys == DirectionMap(t.sockets).Keys;
    r := t.(validDirections := vd);
  }

  // ---------------------------------------------------------------------------------------------
  // Objects placed on a tile

  /** GetObjectAtPos: the first item at exactly that position (the source's 0.1-unit tolerance
      becomes equality). */
  function ItemAt(items: seq<Item>, p: Pos): (r: Option<nat>)
    ensures r.Some? ==> r.value < |items| && items[r.value].pos == p
    ensures r.Some? ==> forall k :: 0 <= k < r.value ==> items[k].pos != p
    ensures r.None? <==> forall k :: 0 <= k < |items| ==> items[k].pos != p
  {
    if |items| == 0 then None
    else if items[0].pos == p then Some(0)
    else
      var r := ItemAt(items[1..], p);
      if r.None? then None else Some(r.value + 1)
  }

  /** ReceiveObject: refuse an object when an item already sits at its position, otherwise append it. */
  method ReceiveObject(t: Tile, obj: Item) returns (ok: bool, r: Tile)
    ensures ok <==> ItemAt(t.items, obj.pos).None?
    ensures ok ==> r == t.(items := t.items + [obj])
    ensures !ok ==> r == t
  {
    for k := 0 to |t.items|
      invariant forall j :: 0 <= j < k ==> t.items[j].pos != obj.pos
    {
      if t.items[k].pos == obj.pos {
        return false, t;
      }
    }
    return true, t.(items := t.items + [obj]);
  }

  /** RemoveObjAtPos: drop the item GetObjectAtPos finds, if there is one. */
  function RemoveObjAtPos(t: Tile, p: Pos): (r: Tile)
    ensures ItemAt(t.items, p).None? ==> r == t
    ensures ItemAt(t.items, p).Some? ==>
              var k := ItemAt(t.items, p).value; r == t.(items := t.items[..k] + t.items[k + 1..])
  {
    match ItemAt(t.items, p)
    case None => t
    case Some(k) => t.(items := t.items[..k] + t.items[k + 1..])
  }

  /** Removing at the position of an object just received takes exactly that object away again. */
  lemma ReceiveThenRemove(t: Tile, obj: Item)
    requires ItemAt(t.items, obj.pos).None?
    ensures RemoveObjAtPos(t.(items := t.items + [obj]), obj.pos) == t
  {
    var items := t.items + [obj];
    assert forall k :: 0 <= k < |t.items| ==> items[k].pos != obj.pos;
    var found := ItemAt(items, obj.pos);
    assert items[|t.items|].pos == obj.pos;
    assert found.Some?;
    assert found == Some(|t.items|);
    assert items[..|t.items|] + items[|t.items| + 1..] == t.items;
  }
}
