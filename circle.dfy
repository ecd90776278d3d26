/** The points drawCircle passes to plotPixel: the midpoint circle walk over
    the octant 0 <= x <= y, started at (0, r) with decision value 3 - 2r, each
    offset plotted at its eight reflections about the centre. */
module Circle {
  import opened Machine
  import opened Screen

  /** The eight plots of one iteration, in the order drawCircle makes them. */
  function Octants(cx: int, cy: int, x: int, y: int): seq<Point> {
    [Point(cx + x, cy + y), Point(cx - x, cy + y), Point(cx + x, cy - y), Point(cx - x, cy - y),
     Point(cx + y, cy + x), Point(cx - y, cy + x), Point(cx + y, cy - x), Point(cx - y, cy - x)]
  }

  /** The plots of the remaining iterations from state (x, y, d). The update
      uses x after its increment and, on a diagonal step, y after its decrement. */
  function CircleFrom(cx: int, cy: int, x: int, y: int, d: int): seq<Point>
    decreases y - x + 1
  {
    if x > y then []
    else
      var x' := x + 1;
      var y' := if d > 0 then y - 1 else y;
      var d' := if d > 0 then d + 4 * (x' - y') + 10 else d + 4 * x' + 6;
      Octants(cx, cy, x, y) + CircleFrom(cx, cy, x', y', d')
  }

  /** Every point drawCircle(cx, cy, r) plots, in order. */
  function CirclePoints(cx: int, cy: int, r: int): seq<Point> {
    CircleFrom(cx, cy, 0, r, 3 - 2 * r)
  }

  /** The eight reflections of p about the centre: (+-u, +-v) and (+-v, +-u)
      for the offset (u, v) of p. */
  function Mirrors(cx: int, cy: int, p: Point): seq<Point> {
    Octants(cx, cy, p.x - cx, p.y - cy)
  }

  /** The reflections of the i-th point of an iteration are points of it. */
  lemma OctantMirrors(cx: int, cy: int, x: int, y: int, i: int)
    requires 0 <= i < 8
    ensures forall q :: q in Mirrors(cx, cy, Octants(cx, cy, x, y)[i]) ==> q in Octants(cx, cy, x, y)
  {
    var o := Octants(cx, cy, x, y);
    var m := Mirrors(cx, cy, o[i]);
    assert forall j :: 0 <= j < 8 ==> m[j] in o;
  }

  /** Each reflection of a point of one iteration is a point of that iteration. */
  lemma OctantsClosed(cx: int, cy: int, x: int, y: int)
    ensures forall p, q :: p in Octants(cx, cy, x, y) && q in Mirrors(cx, cy, p) ==>
              q in Octants(cx, cy, x, y)
  {
    var o := Octants(cx, cy, x, y);
    forall p, q | p in o && q in Mirrors(cx, cy, p) ensures q in o {
      var i :| 0 <= i < 8 && o[i] == p;
      OctantMirrors(cx, cy, x, y, i);
    }
  }

  /** Every plot has all eight of its reflections plotted too. */
  lemma {:induction false} CircleFromSymmetric(cx: int, cy: int, x: int, y: int, d: int)
    ensures forall p, q :: p in CircleFrom(cx, cy, x, y, d) && q in Mirrors(cx, cy, p) ==>
              q in CircleFrom(cx, cy, x, y, d)
    decreases y - x + 1
  {
    if x <= y {
      var x' := x + 1;
      var y' := if d > 0 then y - 1 else y;
      var d' := if d > 0 then d + 4 * (x' - y') + 10 else d + 4 * x' + 6;
      CircleFromSymmetric(cx, cy, x', y', d');
      OctantsClosed(cx, cy, x, y);
      var o, rest := Octants(cx, cy, x, y), CircleFrom(cx, cy, x', y', d');
      assert CircleFrom(cx, cy, x, y, d) == o + rest;
      forall p, q | p in o + rest && q in Mirrors(cx, cy, p) ensures q in o + rest {
        if p in o {
          assert q in o;
        } else {
          assert q in rest;
        }
      }
    }
  }

  lemma CircleSymmetric(cx: int, cy: int, r: int)
    ensures forall p, q :: p in CirclePoints(cx, cy, r) && q in Mirrors(cx, cy, p) ==>
              q in CirclePoints(cx, cy, r)
  {
    CircleFromSymmetric(cx, cy, 0, r, 3 - 2 * r);
  }

  /** p is within r of the centre on both axes. */
  predicate Near(cx: int, cy: int, r: int, p: Point) {
    -r <= p.x - cx <= r && -r <= p.y - cy <= r
  }

  /** While 0 <= x and y <= r every plot lies within r of the centre on both axes. */
  lemma {:induction false} CircleFromBounded(cx: int, cy: int, x: int, y: int, d: int, r: int)
    requires 0 <= x && y <= r
    ensures forall p :: p in CircleFrom(cx, cy, x, y, d) ==> Near(cx, cy, r, p)
    decreases y - x + 1
  {
    if x <= y {
      var x' := x + 1;
      var y' := if d > 0 then y - 1 else y;
      var d' := if d > 0 then d + 4 * (x' - y') + 10 else d + 4 * x' + 6;
      CircleFromBounded(cx, cy, x', y', d', r);
      var o, rest := Octants(cx, cy, x, y), CircleFrom(cx, cy, x', y', d');
      assert CircleFrom(cx, cy, x, y, d) == o + rest;
      assert forall i :: 0 <= i < 8 ==> Near(cx, cy, r, o[i]);
      forall p | p in o + rest ensures Near(cx, cy, r, p) {
        if p in o {
          var i :| 0 <= i < 8 && o[i] == p;
        }
      }
    }
  }

  /** An iteration that runs plots all eight points of its octant set. */
  lemma IterationPlots(cx: int, cy: int, x: int, y: int, d: int)
    requires x <= y
    ensures forall i :: 0 <= i < 8 ==> Octants(cx, cy, x, y)[i] in CircleFrom(cx, cy, x, y, d)
  {
    var x' := x + 1;
    var y' := if d > 0 then y - 1 else y;
    var d' := if d > 0 then d + 4 * (x' - y') + 10 else d + 4 * x' + 6;
    var o := Octants(cx, cy, x, y);
    assert CircleFrom(cx, cy, x, y, d) == o + CircleFrom(cx, cy, x', y', d');
    forall i | 0 <= i < 8 ensures o[i] in CircleFrom(cx, cy, x, y, d) {
      assert (o + CircleFrom(cx, cy, x', y', d'))[i] == o[i];
    }
  }

  /** drawCircle stays inside the (2r+1)-square around the centre, and it does
      plot the four points at distance r on the axes. */
  lemma CircleExtent(cx: int, cy: int, r: int)
    ensures forall p :: p in CirclePoints(cx, cy, r) ==> Near(cx, cy, r, p)
    ensures r >= 0 ==> Point(cx, cy + r) in CirclePoints(cx, cy, r) &&
                       Point(cx, cy - r) in CirclePoints(cx, cy, r) &&
                       Point(cx + r, cy) in CirclePoints(cx, cy, r) &&
                       Point(cx - r, cy) in CirclePoints(cx, cy, r)
  {
    CircleFromBounded(cx, cy, 0, r, 3 - 2 * r, r);
    if r >= 0 {
      IterationPlots(cx, cy, 0, r, 3 - 2 * r);
      var o := Octants(cx, cy, 0, r);
      assert o[0] == Point(cx, cy + r) && o[2] == Point(cx, cy - r);
      assert o[4] == Point(cx + r, cy) && o[5] == Point(cx - r, cy);
    }
  }

  /** A radius of 0 plots the centre eight times and nothing else. */
  lemma RadiusZero(cx: int, cy: int)
    ensures CirclePoints(cx, cy, 0) == seq(8, _ => Point(cx, cy))
  {
    assert CirclePoints(cx, cy, 0) == Octants(cx, cy, 0, 0) + CircleFrom(cx, cy, 1, -1, 3 + 4 * 2 + 10);
  }

  /** A negative radius plots nothing: the loop condition fails at once. */
  lemma NegativeRadius(cx: int, cy: int, r: int)
    requires r < 0
    ensures CirclePoints(cx, cy, r) == []
  {
  }
}
