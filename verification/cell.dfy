/** Cells of the wave-function-collapse grid (Cell.cs): a collapse flag, the remaining
    RoadType options, and the tile materialised for the cell once it has collapsed. */
module Cells {
  import opened Wrappers
  import opened Enums

  /** `options` is None where the source leaves the array null; `tile` is the index, in the
      generator's list of generated tiles, of the tile this cell owns (the source's reference). */
  datatype Cell = Cell(collapsed: bool, options: Option<seq<RoadType>>, tile: Option<nat>)

  /** True when every value of `a` is a valid index of an array of |a| entries. */
  predicate ValuesAreIndices(a: seq<int>)
  {
    forall k :: 0 <= k < |a| ==> 0 <= a[k] < |a|
  }

  /** The array Cell(int[]) builds from `a`: each value v is written at index v, and every
      index that never occurs as a value keeps the array default 0 (CROSSROAD). */
  function IndexedOptions(a: seq<int>): (r: seq<RoadType>)
    ensures |r| == |a|
  {
    seq(|a|, v => if v in a then v else CROSSROAD)
  }

  /** Cell(value): an uncollapsed cell whose options are 0, 1, ..., value-1. */
  method NewCell(value: nat) returns (c: Cell)
    ensures !c.collapsed && c.tile == None
    ensures c.options == Some(Range(value))
  {
    var options := new RoadType[value];
    for i := 0 to value
      invariant forall k :: 0 <= k < i ==> options[k] == k
    {
      options[i] := i;
    }
    assert options[..] == Range(value);
    c := Cell(false, Some(options[..]), None);
  }

  /** Cell(int[] options). A null array leaves the options null; otherwise the values are
      written at their own indices. A value outside [0, arr.Length) makes the source throw
      on the write, so callers must pass values that are indices. */
  method NewCellFrom(arr: array?<int>) returns (c: Cell)
    requires arr != null ==> ValuesAreIndices(arr[..])
    ensures !c.collapsed && c.tile == None
    ensures arr == null ==> c.options == None
    ensures arr != null ==> c.options == Some(IndexedOptions(arr[..]))
  {
    if arr == null {
      return Cell(false, None, None);
    }
    var options := new RoadType[arr.Length](_ => CROSSROAD);
    for k := 0 to arr.Length
      invariant forall v :: 0 <= v < arr.Length ==> options[v] == (if v in arr[..k] then v else CROSSROAD)
    {
      assert arr[..k + 1] == arr[..k] + [arr[k]];
      options[arr[k]] := arr[k];
    }
    assert arr[..arr.Length] == arr[..];
    assert options[..] == IndexedOptions(arr[..]);
    c := Cell(false, Some(options[..]), None);
  }

  /** The values of IndexedOptions(a) are the values of `a`, plus CROSSROAD wherever an index is missing. */
  lemma IndexedOptionsValues(a: seq<int>)
    requires ValuesAreIndices(a)
    ensures forall v :: v in a ==> v in IndexedOptions(a)
    ensures forall v :: v in IndexedOptions(a) ==> v in a || v == CROSSROAD
    ensures ValuesAreIndices(IndexedOptions(a))
  {
    var r := IndexedOptions(a);
    forall v | v in a ensures v in r {
      var k :| 0 <= k < |a| && a[k] == v;
      assert r[v] == v;
    }
  }

  /** Building a cell from the options of a cell built from `a` gives the same options again. */
  lemma IndexedOptionsIdempotent(a: seq<int>)
    requires ValuesAreIndices(a)
    ensures IndexedOptions(IndexedOptions(a)) == IndexedOptions(a)
  {
    var r := IndexedOptions(a);
    IndexedOptionsValues(a);
    forall v | 0 <= v < |a| ensures IndexedOptions(r)[v] == r[v] {
      if v in a {
        assert r[v] == v;
      }
    }
  }
}
