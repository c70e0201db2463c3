/** The Bezier curve editor of assignment_4 (include/pen.h and
    src/pen.cpp): a `Pen` holds the control points, which mouse events add,
    select and drag, and evaluates the curve by de Casteljau's algorithm.
    Control points are only ever set from integer mouse coordinates, so
    the geometry here is exact. */
module BezierPen {

  datatype Point = Point(x: real, y: real)

  /** The mouse events `handle_input` distinguishes; every other event is
      ignored. */
  datatype Event = LButtonDown | RButtonDown | RButtonUp | MouseMove | OtherEvent

  /** The point `(x, y)` lies within `area` of `p` (closed disc). */
  predicate Within(p: Point, x: int, y: int, area: int) {
    (x as real - p.x) * (x as real - p.x) + (y as real - p.y) * (y as real - p.y) <= (area * area) as real
  }

  /** The first control point within `area` of `(x, y)`, or -1. */
  function FirstWithin(ps: seq<Point>, x: int, y: int, area: int): (r: int)
    ensures -1 <= r < |ps|
    ensures r == -1 <==> forall i :: 0 <= i < |ps| ==> !Within(ps[i], x, y, area)
    ensures r >= 0 ==> Within(ps[r], x, y, area) && forall i :: 0 <= i < r ==> !Within(ps[i], x, y, area)
  {
    if ps == [] then -1
    else if Within(ps[0], x, y, area) then 0
    else
      var r := FirstWithin(ps[1..], x, y, area);
      assert forall i :: 1 <= i < |ps| ==> ps[i] == ps[1..][i - 1];
      if r == -1 then -1 else r + 1
  }

  /** `FirstWithin` is the index of the first point in range. */
  lemma FirstWithinIsFirst(ps: seq<Point>, x: int, y: int, area: int, i: int)
    requires 0 <= i < |ps| && Within(ps[i], x, y, area)
    requires forall j :: 0 <= j < i ==> !Within(ps[j], x, y, area)
    ensures FirstWithin(ps, x, y, area) == i
  {
  }

  // ------------------------------------------------------ de Casteljau

  /** The point a fraction `t` of the way from `a` to `b`. */
  function Lerp(a: Point, b: Point, t: real): Point {
    Point((1.0 - t) * a.x + t * b.x, (1.0 - t) * a.y + t * b.y)
  }

  /** One round of de Casteljau's algorithm: each pair of neighbours
      replaced by the point a fraction `t` between them. */
  function Round(ps: seq<Point>, t: real): (r: seq<Point>)
    requires |ps| >= 1
    ensures |r| == |ps| - 1
    ensures forall i :: 0 <= i < |r| ==> r[i] == Lerp(ps[i], ps[i + 1], t)
  {
    seq(|ps| - 1, i requires 0 <= i < |ps| - 1 => Lerp(ps[i], ps[i + 1], t))
  }

  /** The curve point at `t`: the last point left after rounds that each
      remove one; the origin when there are no control points. */
  function CurvePoint(ps: seq<Point>, t: real): Point
    decreases |ps|
  {
    if |ps| == 0 then Point(0.0, 0.0)
    else if |ps| == 1 then ps[0]
    else CurvePoint(Round(ps, t), t)
  }

  /** At `t = 0` the curve starts at the first control point. */
  lemma {:induction false} CurveStartsAtFirstPoint(ps: seq<Point>)
    requires |ps| >= 1
    ensures CurvePoint(ps, 0.0) == ps[0]
    decreases |ps|
  {
    if |ps| >= 2 {
      var r := Round(ps, 0.0);
      assert r[0] == Lerp(ps[0], ps[1], 0.0) == ps[0];
      CurveStartsAtFirstPoint(r);
    }
  }

  /** At `t = 1` the curve ends at the last control point. */
  lemma {:induction false} CurveEndsAtLastPoint(ps: seq<Point>)
    requires |ps| >= 1
    ensures CurvePoint(ps, 1.0) == ps[|ps| - 1]
    decreases |ps|
  {
    if |ps| >= 2 {
      var r := Round(ps, 1.0);
      assert r[|r| - 1] == Lerp(ps[|ps| - 2], ps[|ps| - 1], 1.0) == ps[|ps| - 1];
      CurveEndsAtLastPoint(r);
    }
  }

  /** Every point of `ps` lies in the box `[lo, hi]`. */
  predicate InBox(ps: seq<Point>, lo: Point, hi: Point) {
    forall i :: 0 <= i < |ps| ==> lo.x <= ps[i].x <= hi.x && lo.y <= ps[i].y <= hi.y
  }

  lemma LerpBetween(a: real, b: real, t: real, lo: real, hi: real)
    requires 0.0 <= t <= 1.0 && lo <= a <= hi && lo <= b <= hi
    ensures lo <= (1.0 - t) * a + t * b <= hi
  {
    NonNegProduct(1.0 - t, a - lo);
    NonNegProduct(t, b - lo);
    NonNegProduct(1.0 - t, hi - a);
    NonNegProduct(t, hi - b);
    assert (1.0 - t) * a + t * b - lo == (1.0 - t) * (a - lo) + t * (b - lo);
    assert hi - ((1.0 - t) * a + t * b) == (1.0 - t) * (hi - a) + t * (hi - b);
  }

  lemma NonNegProduct(a: real, b: real)
    requires a >= 0.0 && b >= 0.0
    ensures a * b >= 0.0
  {
  }

  /** For `t` in [0, 1] the curve stays within any box around its control
      points: every round only takes convex combinations. */
  lemma {:induction false} CurveStaysInBox(ps: seq<Point>, t: real, lo: Point, hi: Point)
    requires |ps| >= 1 && 0.0 <= t <= 1.0 && InBox(ps, lo, hi)
    ensures InBox([CurvePoint(ps, t)], lo, hi)
    decreases |ps|
  {
    if |ps| >= 2 {
      RoundStaysInBox(ps, t, lo, hi);
      CurveStaysInBox(Round(ps, t), t, lo, hi);
    }
  }

  /** One round keeps every point within the box. */
  lemma RoundStaysInBox(ps: seq<Point>, t: real, lo: Point, hi: Point)
    requires |ps| >= 2 && 0.0 <= t <= 1.0 && InBox(ps, lo, hi)
    ensures |Round(ps, t)| >= 1 && InBox(Round(ps, t), lo, hi)
  {
    var r := Round(ps, t);
    forall i | 0 <= i < |r| ensures lo.x <= r[i].x <= hi.x && lo.y <= r[i].y <= hi.y {
      assert r[i] == Lerp(ps[i], ps[i + 1], t);
      LerpBetween(ps[i].x, ps[i + 1].x, t, lo.x, hi.x);
      LerpBetween(ps[i].y, ps[i + 1].y, t, lo.y, hi.y);
    }
  }

  /** One pass of the inner loop of `bezier()`: each pair of neighbours
      replaced by its interpolation at `t`. */
  method Interpolate(ps: seq<Point>, t: real) returns (temp: seq<Point>)
    requires |ps| >= 1
    ensures temp == Round(ps, t)
  {
    temp := [];
    for i := 0 to |ps| - 1
      invariant |temp| == i
      invariant forall k :: 0 <= k < i ==> temp[k] == Lerp(ps[k], ps[k + 1], t)
    {
      var a, b := ps[i], ps[i + 1];
      var x := (1.0 - t) * a.x + t * b.x;
      var y := (1.0 - t) * a.y + t * b.y;
      assert Point(x, y) == Lerp(a, b, t);
      temp := temp + [Point(x, y)];
    }
  }

  // ---------------------------------------------------------------- pen

  class Pen {
    var controlPoints: seq<Point>
    var isDragging: bool
    var selectedPoint: int
    var selectedArea: int
    var pointRadius: int

    /** The selection is -1 or names an existing control point. */
    ghost predicate Valid()
      reads this
    {
      selectedPoint == -1 || 0 <= selectedPoint < |controlPoints|
    }

    /** `Pen(window)` with the defaults of pen.h: no points, nothing
        selected or dragged, an 8-pixel selection range. */
    constructor()
      ensures Valid()
      ensures controlPoints == [] && !isDragging && selectedPoint == -1
      ensures selectedArea == 8 && pointRadius == 3
    {
      controlPoints := [];
      isDragging := false;
      selectedPoint := -1;
      selectedArea := 8;
      pointRadius := 3;
    }

    /** `add_point(x, y)`: appends one point and changes nothing else. */
    method AddPoint(x: int, y: int)
      modifies this
      ensures controlPoints == old(controlPoints) + [Point(x as real, y as real)]
      ensures isDragging == old(isDragging) && selectedPoint == old(selectedPoint)
      ensures selectedArea == old(selectedArea) && pointRadius == old(pointRadius)
    {
      controlPoints := controlPoints + [Point(x as real, y as real)];
    }

    /** `move_point(index, x, y)`: replaces the point at `index`; an index
        out of range changes nothing. */
    method MovePoint(index: int, x: int, y: int)
      modifies this
      ensures 0 <= index < |old(controlPoints)| ==>
        controlPoints == old(controlPoints)[index := Point(x as real, y as real)]
      ensures !(0 <= index < |old(controlPoints)|) ==> controlPoints == old(controlPoints)
      ensures isDragging == old(isDragging) && selectedPoint == old(selectedPoint)
      ensures selectedArea == old(selectedArea) && pointRadius == old(pointRadius)
    {
      if index >= |controlPoints| || index < 0 {
        return;
      }
      controlPoints := controlPoints[index := Point(x as real, y as real)];
    }

    /** `get_nearest_point(x, y)`: the first control point within the
        selection range of `(x, y)`, or -1 when there is none. */
    method NearestPoint(x: int, y: int) returns (index: int)
      ensures index == FirstWithin(controlPoints, x, y, selectedArea)
      ensures index == -1 || (0 <= index < |controlPoints| && Within(controlPoints[index], x, y, selectedArea))
    {
      var ps, area := controlPoints, selectedArea;
      for i := 0 to |ps|
        invariant forall j :: 0 <= j < i ==> !Within(ps[j], x, y, area)
      {
        var p := ps[i];
        var dist := (x as real - p.x) * (x as real - p.x) + (y as real - p.y) * (y as real - p.y);
        if dist <= (area * area) as real {
          assert Within(ps[i], x, y, area);
          FirstWithinIsFirst(ps, x, y, area, i);
          return i;
        }
      }
      return -1;
    }

    /** `handle_input(event, x, y)`: a left press adds a point; a right
        press selects the first point in range (or nothing) and starts a
        drag when it found one; a right release ends a drag; a move drags
        the selected point. The selection stays valid, and no event removes
        a point. */
    method HandleInput(event: Event, x: int, y: int)
      requires Valid()
      modifies this
      ensures Valid()
      ensures selectedArea == old(selectedArea) && pointRadius == old(pointRadius)
      ensures event.LButtonDown? ==>
        && controlPoints == old(controlPoints) + [Point(x as real, y as real)]
        && selectedPoint == old(selectedPoint) && isDragging == old(isDragging)
      ensures event.RButtonDown? ==>
        && controlPoints == old(controlPoints)
        && selectedPoint == FirstWithin(old(controlPoints), x, y, old(selectedArea))
        && isDragging == (old(isDragging) || selectedPoint != -1)
      ensures event.RButtonUp? ==>
        && controlPoints == old(controlPoints)
        && (old(isDragging) ==> !isDragging && selectedPoint == -1)
        && (!old(isDragging) ==> !isDragging && selectedPoint == old(selectedPoint))
      ensures event.MouseMove? ==>
        && selectedPoint == old(selectedPoint) && isDragging == old(isDragging)
        && controlPoints == (if old(isDragging) && old(selectedPoint) != -1
                             then old(controlPoints)[old(selectedPoint) := Point(x as real, y as real)]
                             else old(controlPoints))
      ensures event.OtherEvent? ==>
        controlPoints == old(controlPoints) && selectedPoint == old(selectedPoint) && isDragging == old(isDragging)
    {
      match event {
        case LButtonDown =>
          controlPoints := controlPoints + [Point(x as real, y as real)];
        case RButtonDown =>
          selectedPoint := NearestPoint(x, y);
          if selectedPoint != -1 {
            isDragging := true;
          }
        case RButtonUp =>
          if isDragging {
            isDragging := false;
            selectedPoint := -1;
          }
        case MouseMove =>
          if isDragging && selectedPoint != -1 {
            MovePoint(selectedPoint, x, y);
          }
        case OtherEvent =>
      }
    }

    /** The de Casteljau part of `bezier()` at parameter `t`: rounds of
        neighbour interpolation until fewer than two points remain; the
        curve point is the one left, or the default origin when the pen has
        no control points. */
    method DeCasteljau(t: real) returns (point: Point)
      ensures point == CurvePoint(controlPoints, t)
    {
      point := Point(0.0, 0.0);
      var remainPoints := controlPoints;
      while |remainPoints| >= 2
        invariant CurvePoint(remainPoints, t) == CurvePoint(controlPoints, t)
        invariant |controlPoints| >= 1 ==> |remainPoints| >= 1
        invariant |controlPoints| == 0 ==> remainPoints == []
        decreases |remainPoints|
      {
        var tempPoints := Interpolate(remainPoints, t);
        assert tempPoints == Round(remainPoints, t);
        remainPoints := tempPoints;
      }
      if |remainPoints| == 1 {
        point := remainPoints[0];
      }
    }
  }
}
