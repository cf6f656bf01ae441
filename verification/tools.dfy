/** Tools.cs: the integer, float and vector helpers (IntTools, FloatTools, VectorTools).
    Floats are modelled as reals, so float rounding is abstracted away. */
module Tools {

  /** Direction to round a value in ToInt. */
  datatype Round = Up | Down

  function Abs(n: int): int
  {
    if n < 0 then -n else n
  }

  function Max(a: int, b: int): int
  {
    if a < b then b else a
  }

  /** Mathf.FloorToInt: the largest integer not above r. */
  function Floor(r: real): (n: int)
    ensures n as real <= r < n as real + 1.0
  {
    r.Floor
  }

  /** Mathf.CeilToInt: the smallest integer not below r. */
  function Ceil(r: real): (n: int)
    ensures n as real - 1.0 < r <= n as real
  {
    -((-r).Floor)
  }

  // ---------------------------------------------------------------------------------------------
  // IntTools.RoundToClosest

  /** r is the one of the bounds a and b nearest to v, the larger one when both are equally
      near (the documented "rounded up" rule). */
  ghost predicate IsClosest(v: int, a: int, b: int, r: int)
  {
    (r == a || r == b) &&
    Abs(r - v) <= Abs(a - v) && Abs(r - v) <= Abs(b - v) &&
    (Abs(a - v) == Abs(b - v) ==> r == Max(a, b))
  }

  /** Only one bound is closest in that sense. */
  lemma ClosestUnique(v: int, a: int, b: int, r1: int, r2: int)
    requires IsClosest(v, a, b, r1) && IsClosest(v, a, b, r2)
    ensures r1 == r2
  {
  }

  /** RoundToClosest(ref value, min, max): a single bound when min == max; otherwise swap the
      bounds into order and take the nearer one, max on a tie. */
  method RoundToClosest(value: int, min: int, max: int) returns (r: int)
    ensures IsClosest(value, min, max, r)
    ensures r == min || r == max
    ensures min == max ==> r == max
  {
    if min == max {
      return max;
    }
    var lo, hi := min, max;
    if lo > hi {
      lo, hi := hi, lo;
    }
    var minDiff := Abs(lo - value);
    var maxDiff := Abs(hi - value);
    r := if minDiff < maxDiff then lo else hi;
  }

  /** Swapping the two bounds gives the same value. */
  method RoundToClosestSwapped(value: int, min: int, max: int) returns (r: int, s: int)
    ensures r == s
  {
    r := RoundToClosest(value, min, max);
    s := RoundToClosest(value, max, min);
    assert IsClosest(value, min, max, s);
    ClosestUnique(value, min, max, r, s);
  }

  /** Rounding an already rounded value again leaves it where it is. */
  method RoundToClosestTwice(value: int, min: int, max: int) returns (once: int, twice: int)
    ensures twice == once
  {
    once := RoundToClosest(value, min, max);
    twice := RoundToClosest(once, min, max);
    assert IsClosest(once, min, max, once);
    ClosestUnique(once, min, max, once, twice);
  }

  // ---------------------------------------------------------------------------------------------
  // FloatTools

  /** ToInt: CeilToInt for Up, FloorToInt for Down. */
  function ToInt(value: real, round: Round): (n: int)
    ensures round == Up ==> n as real - 1.0 < value <= n as real
    ensures round == Down ==> n as real <= value < n as real + 1.0
  {
    if round == Up then Ceil(value) else Floor(value)
  }

  /** Up and Down agree exactly on whole numbers and are one apart otherwise. */
  lemma ToIntUpDown(value: real)
    ensures ToInt(value, Up) == ToInt(value, Down) <==> value == ToInt(value, Down) as real
    ensures ToInt(value, Up) != ToInt(value, Down) ==> ToInt(value, Up) == ToInt(value, Down) + 1
  {
  }

  /** LimitUpper: the value, or the limit when the value is above it. */
  function LimitUpper(value: real, limit: real): (r: real)
    ensures r <= limit && r <= value
    ensures r == value || r == limit
  {
    if value > limit then limit else value
  }

  /** LimitLower: the value, or the limit when the value is below it. */
  function LimitLower(value: real, limit: real): (r: real)
    ensures r >= limit && r >= value
    ensures r == value || r == limit
  {
    if value < limit then limit else value
  }

  /** Limit(value, upper, lower): cap at upper, then raise to lower. */
  function Limit(value: real, upper: real, lower: real): (r: real)
    ensures r >= lower
    ensures lower <= upper ==> r <= upper
    ensures lower <= value <= upper ==> r == value
    ensures lower > upper ==> r == lower
    ensures value > upper && lower <= upper ==> r == upper
    ensures value < lower ==> r == lower
  {
    LimitLower(LimitUpper(value, upper), lower)
  }

  /** Limiting a limited value again changes nothing. */
  lemma LimitIdempotent(value: real, upper: real, lower: real)
    ensures Limit(Limit(value, upper, lower), upper, lower) == Limit(value, upper, lower)
  {
  }

  // ---------------------------------------------------------------------------------------------
  // VectorTools

  datatype Vec3 = Vec3(x: real, y: real, z: real)

  /** MultiplyBy: the component-wise product. */
  function MultiplyBy(value: Vec3, amount: Vec3): Vec3
  {
    value.(x := value.x * amount.x, y := value.y * amount.y, z := value.z * amount.z)
  }

  /** The component-wise product is commutative, associative, has (1, 1, 1) as identity and
      (0, 0, 0) as zero. */
  lemma MultiplyByLaws(a: Vec3, b: Vec3, c: Vec3)
    ensures MultiplyBy(a, b) == MultiplyBy(b, a)
    ensures MultiplyBy(MultiplyBy(a, b), c) == MultiplyBy(a, MultiplyBy(b, c))
    ensures MultiplyBy(a, Vec3(1.0, 1.0, 1.0)) == a
    ensures MultiplyBy(a, Vec3(0.0, 0.0, 0.0)) == Vec3(0.0, 0.0, 0.0)
  {
    assert (a.x * b.x) * c.x == a.x * (b.x * c.x);
    assert (a.y * b.y) * c.y == a.y * (b.y * c.y);
    assert (a.z * b.z) * c.z == a.z * (b.z * c.z);
  }

  /** Whether every component is a whole number. */
  predicate IsWhole(v: Vec3)
  {
    v.x == v.x.Floor as real && v.y == v.y.Floor as real && v.z == v.z.Floor as real
  }

  /** ToVector3Int: every component rounded down. */
  function ToVector3Int(v: Vec3): (r: Vec3)
    ensures IsWhole(r)
    ensures r.x <= v.x < r.x + 1.0 && r.y <= v.y < r.y + 1.0 && r.z <= v.z < r.z + 1.0
  {
    Vec3(ToInt(v.x, Down) as real, ToInt(v.y, Down) as real, ToInt(v.z, Down) as real)
  }

  /** Rounding down a whole vector changes nothing, so ToVector3Int is idempotent. */
  lemma ToVector3IntIdempotent(v: Vec3)
    ensures IsWhole(v) ==> ToVector3Int(v) == v
    ensures ToVector3Int(ToVector3Int(v)) == ToVector3Int(v)
  {
  }
}
