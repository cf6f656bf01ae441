/** Option wrapper and the sequence predicate shared by every module. */
module Wrappers {
  datatype Option<+T> = None | Some(value: T)

  /** No value occurs twice: a list used as a set. */
  predicate NoDuplicates<T(==)>(s: seq<T>)
  {
    forall i, j :: 0 <= i < j < |s| ==> s[i] != s[j]
  }
}

/** The enumerations of the game (RoadType, Direction, the scheduler's event kinds) and
    the integer positions the model works with. */
module Enums {

  /** A RoadType is an index into the road-socket table; NONE marks "no matching entry". */
  type RoadType = int

  const NONE: RoadType := -1
  const CROSSROAD: RoadType := 0
  const EMPTY: RoadType := 1
  const RIGHT_TURN: RoadType := 2
  const STRAIGHT: RoadType := 3
  const T_JUNCT_DOWN: RoadType := 4
  const RIGHT_TURN2: RoadType := 5
  const RIGHT_TURN3: RoadType := 6
  const RIGHT_TURN4: RoadType := 7
  const STRAIGHT2: RoadType := 8
  const T_JUNCT2: RoadType := 9
  const T_JUNCT3: RoadType := 10
  const T_JUNCT4: RoadType := 11

  /** The four cardinal directions; each is also the index of the socket facing that way. */
  type Direction = d: int | 0 <= d < 4

  const UP: Direction := 0
  const RIGHT: Direction := 1
  const DOWN: Direction := 2
  const LEFT: Direction := 3

  /** The direction facing back: UP <-> DOWN, RIGHT <-> LEFT. */
  function Opposite(d: Direction): (r: Direction)
    ensures r != d && (r + 2) % 4 == d
  {
    (d + 2) % 4
  }

  /** The scheduler's subscription kinds. */
  datatype EventKind = TICK | DAY | WEEK

  /** A position on the ground plane in whole units; world y is always 0 in the model.
      Tile positions count tiles (one unit is the source's 10 world units). */
  datatype Pos = Pos(x: int, z: int)

  /** The neighbouring tile position one unit away in direction d (UP is +z, RIGHT is +x). */
  function Step(p: Pos, d: Direction): (q: Pos)
    ensures q != p
    ensures (q.x == p.x && (q.z == p.z + 1 || q.z == p.z - 1)) || (q.z == p.z && (q.x == p.x + 1 || q.x == p.x - 1))
    ensures (d == UP || d == DOWN) <==> q.x == p.x
  {
    if d == UP then Pos(p.x, p.z + 1)
    else if d == RIGHT then Pos(p.x + 1, p.z)
    else if d == DOWN then Pos(p.x, p.z - 1)
    else Pos(p.x - 1, p.z)
  }

  /** [0, 1, ..., n-1], what Enumerable.Range(0, n) produces. */
  function Range(n: nat): (r: seq<int>)
    ensures |r| == n
    ensures forall i :: 0 <= i < n ==> r[i] == i
  {
    seq(n, i => i)
  }
}
