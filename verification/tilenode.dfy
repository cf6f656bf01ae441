/** TileNode.cs: the search node the path finder wraps around a generated tile, with a step
    count and a parent link that can be set once. */
module TileNodes {
  import opened Enums
  import opened Tiles

  class TileNode {
    /** The wrapped tile (a copy of the generated tile's value). */
    const tile: Tile
    /** Fixed at construction: the heuristic distance from the tile to the target. */
    const distanceToTarget: real
    var parent: TileNode?
    var steps: int

    /** A node for `tile` aimed at `targetPos`; `distance` stands for Vector3.Distance. */
    constructor (tile: Tile, targetPos: Pos, distance: (Pos, Pos) -> real)
      ensures this.tile == tile && parent == null && steps == 0
      ensures distanceToTarget == distance(tile.pos, targetPos)
    {
      this.tile := tile;
      parent := null;
      steps := 0;
      distanceToTarget := distance(tile.pos, targetPos);
    }

    /** Postition: always the wrapped tile's position. */
    function Position(): Pos
    {
      tile.pos
    }

    /** SetSteps overwrites the step count and nothing else. */
    method SetSteps(s: int)
      modifies this
      ensures steps == s && parent == old(parent)
    {
      steps := s;
    }

    /** SetParent (`Parent ??= parent`): the parent is written only while it is still null. */
    method SetParent(p: TileNode)
      modifies this
      ensures old(parent) == null ==> parent == p
      ensures old(parent) != null ==> parent == old(parent)
      ensures steps == old(steps)
    {
      if parent == null {
        parent := p;
      }
    }
  }

  /** A second SetParent leaves the first parent in place: the link is write-once. */
  method SetParentTwice(n: TileNode, p: TileNode, q: TileNode)
    requires n.parent == null
    modifies n
    ensures n.parent == p && n.steps == old(n.steps)
  {
    n.SetParent(p);
    n.SetParent(q);
  }
}
