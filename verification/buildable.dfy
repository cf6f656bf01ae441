/** BuildableObject.cs: a build-menu entry that instantiates its object, counts the objects
    built and scales their price by a multiplier. Game objects are opaque ids; the values
    IBuildable.SyncValues hands over are parameters. */
module Buildables {
  import opened Wrappers
  import opened Tools

  /** A game object. */
  type ObjectId = nat

  class BuildableObject {
    /** The object this entry instantiates (None is null). */
    var obj: Option<ObjectId>
    var buildPrice: real
    var buildMulti: real
    var objectsBuilt: int
    /** Every instance this entry has created, in order. */
    var objects: seq<ObjectId>

    /** The counter never goes below zero. */
    ghost predicate Valid()
      reads this
    {
      objectsBuilt >= 0
    }

    constructor ()
      ensures Valid() && obj == None && buildPrice == 0.0 && buildMulti == 0.0
      ensures objectsBuilt == 0 && objects == []
    {
      obj := None;
      buildPrice, buildMulti := 0.0, 0.0;
      objectsBuilt := 0;
      objects := [];
    }

    /** BuildCost: the price rounded down once something has been built, 0 before. */
    function BuildCost(): (c: int)
      reads this
      ensures objectsBuilt <= 0 ==> c == 0
      ensures objectsBuilt > 0 ==> c as real <= buildPrice < c as real + 1.0
    {
      if objectsBuilt > 0 then ToInt(buildPrice, Down) else 0
    }

    /** SetObj: only the first object is taken, together with the price and multiplier its
      IBuildable reports; later calls change nothing. */
    method SetObj(o: ObjectId, price: real, multi: real)
      modifies this
      ensures old(obj).Some? ==> obj == old(obj) && buildPrice == old(buildPrice) && buildMulti == old(buildMulti)
      ensures old(obj).None? ==> obj == Some(o) && buildPrice == price && buildMulti == multi
      ensures objectsBuilt == old(objectsBuilt) && objects == old(objects)
    {
      if obj.Some? {
        return;
      }
      obj := Some(o);
      buildPrice, buildMulti := price, multi;
    }

    /** BuildNewObject: the new instance is recorded whether or not the menu then takes it. */
    method BuildNewObject(instance: ObjectId)
      modifies this
      ensures objects == old(objects) + [instance]
      ensures obj == old(obj) && buildPrice == old(buildPrice) && buildMulti == old(buildMulti)
      ensures objectsBuilt == old(objectsBuilt)
    {
      objects := objects + [instance];
    }

    /** IncreaseBuildCost: one more object built; from the second on the price is multiplied. */
    method IncreaseBuildCost()
      requires Valid()
      modifies this
      ensures Valid() && objectsBuilt == old(objectsBuilt) + 1
      ensures buildPrice == if objectsBuilt > 1 then old(buildPrice) * buildMulti else old(buildPrice)
      ensures obj == old(obj) && buildMulti == old(buildMulti) && objects == old(objects)
    {
      objectsBuilt := objectsBuilt + 1;
      if objectsBuilt <= 1 {
        return;
      }
      buildPrice := buildPrice * buildMulti;
    }

    /** ItemWasDestroyed: ignored when nothing is counted or the item is not one of this entry's
      instances; otherwise one object fewer and the price divided back. */
    method ItemWasDestroyed(item: ObjectId)
      requires Valid()
      requires objectsBuilt >= 1 && item in objects ==> buildMulti != 0.0
      modifies this
      ensures Valid()
      ensures old(objectsBuilt) < 1 || item !in objects ==> objectsBuilt == old(objectsBuilt) && buildPrice == old(buildPrice)
      ensures old(objectsBuilt) >= 1 && item in objects ==>
                objectsBuilt == old(objectsBuilt) - 1 && buildPrice * buildMulti == old(buildPrice)
      ensures obj == old(obj) && buildMulti == old(buildMulti) && objects == old(objects)
    {
      if objectsBuilt < 1 || item !in objects {
        return;
      }
      objectsBuilt := objectsBuilt - 1;
      buildPrice := buildPrice / buildMulti;
    }
  }

  /** Only the first SetObj takes effect. */
  method SetObjTwice(b: BuildableObject, first: ObjectId, second: ObjectId, p1: real, m1: real, p2: real, m2: real)
    requires b.obj == None
    modifies b
    ensures b.obj == Some(first) && b.buildPrice == p1 && b.buildMulti == m1
  {
    b.SetObj(first, p1, m1);
    b.SetObj(second, p2, m2);
  }

  /** Building the second object and destroying a recorded one returns count and price to where
      they were (for a non-zero multiplier). */
  method IncreaseThenDestroy(b: BuildableObject, item: ObjectId)
    requires b.Valid() && b.objectsBuilt >= 1 && item in b.objects && b.buildMulti != 0.0
    modifies b
    ensures b.Valid() && b.objectsBuilt == old(b.objectsBuilt) && b.buildPrice == old(b.buildPrice)
  {
    b.IncreaseBuildCost();
    b.ItemWasDestroyed(item);
  }

  /** The objects list never shrinks, so destroying the same instance twice counts it twice. */
  method DestroyTwice(b: BuildableObject, item: ObjectId)
    requires b.Valid() && b.objectsBuilt >= 2 && item in b.objects && b.buildMulti != 0.0
    modifies b
    ensures b.objectsBuilt == old(b.objectsBuilt) - 2
  {
    b.ItemWasDestroyed(item);
    b.ItemWasDestroyed(item);
  }
}
