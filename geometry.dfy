/**
 * Stage-coordinate arithmetic used while dragging items: snapping a value
 * to the editor grid with the toolkit's fast floor (down inside its range,
 * up below it), and the one-axis ("reduced") move that locks a
 * drag to the dominant direction of the first movement sample.
 *
 * Coordinates are integers here; the editor works on floats. The toolkit's
 * fast floor adds a bias of 16384 and truncates toward zero, so it is the
 * mathematical floor only for quotients of at least -16384; below that it
 * rounds up. The model computes it the same way.
 */
module Geometry {

  datatype Point = Point(x: int, y: int) {
    function Minus(other: Point): Point {
      Point(x - other.x, y - other.y)
    }
  }

  const Origin: Point := Point(0, 0)

  function Abs(v: int): (r: nat)
    ensures r == v || r == -v
  {
    if v < 0 then -v else v
  }

  // ---------------------------------------------------------------------
  // Grid snapping
  // ---------------------------------------------------------------------

  /** A multiple of g divided by g gives back the factor, with no remainder. */
  lemma {:induction false} MultipleDivMod(k: int, g: int)
    requires g > 0
    ensures (k * g) / g == k
    ensures (k * g) % g == 0
  {
    var q, m := (k * g) / g, (k * g) % g;
    assert k * g == q * g + m && 0 <= m < g;
    assert (k - q) * g == m;
    if k - q >= 1 {
      MulAtLeast(k - q, g);
    } else if k - q <= -1 {
      MulAtLeast(q - k, g);
    }
  }

  lemma MulAtLeast(a: int, g: int)
    requires a >= 1 && g > 0
    ensures a * g >= g
  {
  }

  lemma MulMonotone(a: int, b: int, g: int)
    requires a <= b && g > 0
    ensures a * g <= b * g
  {
  }

  /** Two multiples of g less than one step apart are equal. */
  lemma {:induction false} CloseMultiplesEqual(q: int, k: int, g: int)
    requires g > 0
    requires -g < q * g - k * g < g
    ensures q == k
  {
    assert q * g - k * g == (q - k) * g;
    if q - k >= 1 {
      MulAtLeast(q - k, g);
    } else if q - k <= -1 {
      MulAtLeast(k - q, g);
    }
  }

  /** The bias the toolkit's fast floor adds before its truncating cast. */
  const FLOOR_BIAS: int := 16384

  /** a / g rounded toward zero, as a Java cast of the quotient to int does. */
  function TruncDiv(a: int, g: int): (q: int)
    requires g > 0
    ensures a >= 0 ==> q * g <= a < q * g + g
    ensures a < 0 ==> q * g - g < a <= q * g
  {
    if a >= 0 then a / g
    else
      var p := (-a) / g;
      assert (-p) * g == -(p * g);
      -p
  }

  /** The quotients v / g on which the fast floor agrees with the mathematical floor. */
  predicate InFloorRange(v: int, g: int)
    requires g > 0
  {
    v >= -FLOOR_BIAS * g
  }

  /**
   * The fast floor of v / g: truncate v / g + FLOOR_BIAS toward zero, then
   * take the bias off again. Within the floor range the result is the
   * floor of v / g; below it, the ceiling.
   */
  function FastFloorDiv(v: int, g: int): (q: int)
    requires g > 0
    ensures InFloorRange(v, g) ==> q * g <= v < q * g + g
    ensures !InFloorRange(v, g) ==> q * g - g < v <= q * g
  {
    var t := TruncDiv(v + FLOOR_BIAS * g, g);
    assert (t - FLOOR_BIAS) * g == t * g - FLOOR_BIAS * g;
    t - FLOOR_BIAS
  }

  /**
   * The grid position of v: the fast floor of v / g times g. It is always
   * on the grid and less than one step from v: at or below v within the
   * floor range, at or above v below it.
   */
  function Snap(v: int, g: int): (r: int)
    requires g > 0
    ensures r % g == 0
    ensures v - g < r < v + g
    ensures InFloorRange(v, g) ==> r <= v
    ensures !InFloorRange(v, g) ==> v <= r
  {
    MultipleDivMod(FastFloorDiv(v, g), g);
    FastFloorDiv(v, g) * g
  }

  /**
   * Within the floor range Snap is the floor to the grid: every multiple
   * of g at or below v is at or below Snap(v, g). Below the range it is
   * the ceiling: every multiple of g at or above v is at or above it.
   */
  lemma {:induction false} SnapIsFloorOrCeiling(v: int, g: int, k: int)
    requires g > 0
    ensures InFloorRange(v, g) && k * g <= v ==> k * g <= Snap(v, g)
    ensures !InFloorRange(v, g) && v <= k * g ==> Snap(v, g) <= k * g
  {
    var q := FastFloorDiv(v, g);
    if InFloorRange(v, g) && k * g <= v && k > q {
      MulMonotone(q + 1, k, g);
    }
    if InFloorRange(v, g) && k * g <= v {
      MulMonotone(k, q, g);
    }
    if !InFloorRange(v, g) && v <= k * g && k < q {
      MulMonotone(k + 1, q, g);
    }
    if !InFloorRange(v, g) && v <= k * g {
      MulMonotone(q, k, g);
    }
  }

  /** Snapping a value that is already on the grid leaves it there, inside or outside the floor range. */
  lemma {:induction false} SnapOfMultiple(k: int, g: int)
    requires g > 0
    ensures Snap(k * g, g) == k * g
  {
    var q := FastFloorDiv(k * g, g);
    CloseMultiplesEqual(q, k, g);
  }

  /** Snapping twice is snapping once. */
  lemma {:induction false} SnapIdempotent(v: int, g: int)
    requires g > 0
    ensures Snap(Snap(v, g), g) == Snap(v, g)
  {
    SnapOfMultiple(FastFloorDiv(v, g), g);
  }

  /** The difference of two grid points is a grid point. */
  lemma {:induction false} DifferenceOfMultiples(a: int, b: int, g: int)
    requires g > 0
    requires a % g == 0 && b % g == 0
    ensures (a - b) % g == 0
  {
    var p, q := a / g, b / g;
    assert a == p * g && b == q * g;
    assert a - b == (p - q) * g;
    MultipleDivMod(p - q, g);
  }

  function SnapPoint(p: Point, g: int): (r: Point)
    requires g > 0
    ensures r.x % g == 0 && p.x - g < r.x < p.x + g
    ensures r.y % g == 0 && p.y - g < r.y < p.y + g
    ensures if InFloorRange(p.x, g) then r.x <= p.x else p.x <= r.x
    ensures if InFloorRange(p.y, g) then r.y <= p.y else p.y <= r.y
  {
    Point(Snap(p.x, g), Snap(p.y, g))
  }

  lemma SnapPointIdempotent(p: Point, g: int)
    requires g > 0
    ensures SnapPoint(SnapPoint(p, g), g) == SnapPoint(p, g)
  {
    SnapIdempotent(p.x, g);
    SnapIdempotent(p.y, g);
  }

  // ---------------------------------------------------------------------
  // One-axis ("reduced") moves
  // ---------------------------------------------------------------------

  /** A unit vector along exactly one of the two axes. */
  predicate IsAxis(d: Point) {
    d == Point(1, 0) || d == Point(0, 1)
  }

  /**
   * The axis a reduced drag is locked to, from the displacement of its
   * first sample: horizontal when |dx| >= |dy| (ties go horizontal),
   * otherwise vertical. The vertical ratio is the horizontal one XOR 1.
   */
  function ReducedDirection(diff: Point): (d: Point)
    ensures IsAxis(d)
    ensures d.x == 1 <==> Abs(diff.x) >= Abs(diff.y)
    ensures d.y == 1 <==> Abs(diff.x) < Abs(diff.y)
  {
    var horizontal := if Abs(diff.x) >= Abs(diff.y) then 1 else 0;
    Point(horizontal, 1 - horizontal)
  }

  /**
   * The pointer position `stage` projected onto the line through the fix
   * point along `direction`: fix + direction * (stage - fix), componentwise.
   */
  function ReducedTarget(fix: Point, stage: Point, direction: Point): (r: Point)
    ensures direction == Point(1, 0) ==> r == Point(stage.x, fix.y)
    ensures direction == Point(0, 1) ==> r == Point(fix.x, stage.y)
    ensures direction == Origin ==> r == fix
  {
    Point(fix.x + direction.x * (stage.x - fix.x), fix.y + direction.y * (stage.y - fix.y))
  }

  /**
   * A reduced move chosen from a sample's own displacement follows the
   * pointer along the dominant axis and stays on the fix point's line
   * along the other one.
   */
  lemma ReducedMoveFollowsDominantAxis(fix: Point, stage: Point)
    ensures var r := ReducedTarget(fix, stage, ReducedDirection(stage.Minus(fix)));
      && (r.y == fix.y && r.x == stage.x <==> Abs(stage.x - fix.x) >= Abs(stage.y - fix.y))
      && (Abs(stage.x - fix.x) < Abs(stage.y - fix.y) ==> r.x == fix.x && r.y == stage.y)
  {
  }
}
