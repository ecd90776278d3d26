/** The points drawLine passes to plotPixel (Bresenham). The major axis is x
    when |dx| >= |dy| and y otherwise; the error term starts at
    `minor - major / 2`, a non-negative error steps the minor axis and
    subtracts `major`, and every step adds `minor`. */
module Line {
  import opened Machine
  import opened Screen

  /** A (major, minor) coordinate pair as a screen point. */
  function Orient(xMajor: bool, a: int, b: int): Point {
    if xMajor then Point(a, b) else Point(b, a)
  }

  function MajorOf(xMajor: bool, p: Point): int {
    if xMajor then p.x else p.y
  }

  function MinorOf(xMajor: bool, p: Point): int {
    if xMajor then p.y else p.x
  }

  /** The remaining n iterations of a drawLine loop, started with major
      coordinate a, minor coordinate b and error term err; `big` and `small`
      are the absolute major and minor extents. */
  function Run(xMajor: bool, a: int, b: int, err: int, n: nat,
               aInc: int, bInc: int, big: int, small: int): seq<Point>
    decreases n
  {
    if n == 0 then []
    else
      var b' := if err >= 0 then b + bInc else b;
      var err' := (if err >= 0 then err - big else err) + small;
      [Orient(xMajor, a, b)] + Run(xMajor, a + aInc, b', err', n - 1, aInc, bInc, big, small)
  }

  function Sign(d: int): int {
    if d < 0 then -1 else 1
  }

  function Max(a: int, b: int): int {
    if a >= b then a else b
  }

  /** Every point drawLine(x1, y1, x2, y2) plots, in order. */
  function LinePoints(x1: int, y1: int, x2: int, y2: int): seq<Point> {
    var dx, dy := x2 - x1, y2 - y1;
    var dxAbs, dyAbs := Abs(dx), Abs(dy);
    if dxAbs >= dyAbs then
      Run(true, x1, y1, dyAbs - dxAbs / 2, dxAbs + 1, Sign(dx), Sign(dy), dxAbs, dyAbs)
    else
      Run(false, y1, x1, dxAbs - dyAbs / 2, dyAbs + 1, Sign(dy), Sign(dx), dyAbs, dxAbs)
  }

  lemma {:induction false} RunLength(xMajor: bool, a: int, b: int, err: int, n: nat,
                                     aInc: int, bInc: int, big: int, small: int)
    ensures |Run(xMajor, a, b, err, n, aInc, bInc, big, small)| == n
    decreases n
  {
    if n > 0 {
      var b' := if err >= 0 then b + bInc else b;
      var err' := (if err >= 0 then err - big else err) + small;
      RunLength(xMajor, a + aInc, b', err', n - 1, aInc, bInc, big, small);
    }
  }

  /** A run starts at (a, b), and each point is one aInc step along the major
      axis from the one before and 0 or bInc along the minor axis. */
  lemma {:induction false} RunShape(xMajor: bool, a: int, b: int, err: int, n: nat,
                                    aInc: int, bInc: int, big: int, small: int)
    ensures var r := Run(xMajor, a, b, err, n, aInc, bInc, big, small);
            |r| == n &&
            (n > 0 ==> r[0] == Orient(xMajor, a, b)) &&
            (forall k :: 0 <= k < n - 1 ==>
               MajorOf(xMajor, r[k + 1]) == MajorOf(xMajor, r[k]) + aInc &&
               (MinorOf(xMajor, r[k + 1]) == MinorOf(xMajor, r[k]) ||
                MinorOf(xMajor, r[k + 1]) == MinorOf(xMajor, r[k]) + bInc))
    decreases n
  {
    RunLength(xMajor, a, b, err, n, aInc, bInc, big, small);
    if n > 0 {
      var b' := if err >= 0 then b + bInc else b;
      var err' := (if err >= 0 then err - big else err) + small;
      var r := Run(xMajor, a, b, err, n, aInc, bInc, big, small);
      var rest := Run(xMajor, a + aInc, b', err', n - 1, aInc, bInc, big, small);
      RunShape(xMajor, a + aInc, b', err', n - 1, aInc, bInc, big, small);
      assert r == [Orient(xMajor, a, b)] + rest;
      forall k | 0 <= k < n - 1
        ensures MajorOf(xMajor, r[k + 1]) == MajorOf(xMajor, r[k]) + aInc &&
                (MinorOf(xMajor, r[k + 1]) == MinorOf(xMajor, r[k]) ||
                 MinorOf(xMajor, r[k + 1]) == MinorOf(xMajor, r[k]) + bInc)
      {
        assert r[k + 1] == rest[k];
        if k > 0 {
          assert r[k] == rest[k - 1];
        } else {
          assert rest[0] == Orient(xMajor, a + aInc, b');
        }
      }
    }
  }

  /** Point k of a run has major coordinate a + k * aInc. */
  lemma {:induction false} RunMajor(xMajor: bool, a: int, b: int, err: int, n: nat,
                                    aInc: int, bInc: int, big: int, small: int, k: nat)
    requires k < n
    ensures |Run(xMajor, a, b, err, n, aInc, bInc, big, small)| == n
    ensures MajorOf(xMajor, Run(xMajor, a, b, err, n, aInc, bInc, big, small)[k]) == a + k * aInc
    decreases k
  {
    RunLength(xMajor, a, b, err, n, aInc, bInc, big, small);
    var b' := if err >= 0 then b + bInc else b;
    var err' := (if err >= 0 then err - big else err) + small;
    var r := Run(xMajor, a, b, err, n, aInc, bInc, big, small);
    var rest := Run(xMajor, a + aInc, b', err', n - 1, aInc, bInc, big, small);
    assert r == [Orient(xMajor, a, b)] + rest;
    if k == 0 {
      assert k * aInc == 0;
    } else {
      RunMajor(xMajor, a + aInc, b', err', n - 1, aInc, bInc, big, small, k - 1);
      assert r[k] == rest[k - 1];
      assert (k - 1) * aInc == k * aInc - aInc;
    }
  }

  lemma DivPlusDivisor(x: int, d: int)
    requires d > 0
    ensures (x + d) / d == x / d + 1
  {
    var q, r := x / d, x % d;
    assert x + d == (q + 1) * d + r;
    DivUnique(x + d, d, q + 1, r);
  }

  /** One step of the closed form: the offsets of point k - 1 of the rest of
      the run, after the first step, are those of point k of the whole run. */
  lemma ClosedFormStep(a: int, b: int, err: int, aInc: int, bInc: int, big: int, small: int, k: int)
    requires big > 0 && k >= 1
    ensures var b' := if err >= 0 then b + bInc else b;
            var err' := (if err >= 0 then err - big else err) + small;
            a + aInc + (k - 1) * aInc == a + k * aInc &&
            b' + bInc * ((err' + (k - 1) * small + big - small) / big) ==
              b + bInc * ((err + k * small + big - small) / big)
  {
    var m := err + k * small + big - small;
    assert (k - 1) * small == k * small - small;
    assert (k - 1) * aInc == k * aInc - aInc;
    if err >= 0 {
      var q := (m - big) / big;
      DivPlusDivisor(m - big, big);
      assert bInc * (q + 1) == bInc * q + bInc;
    }
  }

  /** While the error term stays in [small - big, small), the minor offset of
      point k is (err + k * small + big - small) / big. */
  lemma {:induction false} RunClosedForm(xMajor: bool, a: int, b: int, err: int, n: nat,
                                         aInc: int, bInc: int, big: int, small: int, k: nat)
    requires 0 <= small <= big && big > 0
    requires small - big <= err < small
    requires k < n
    ensures |Run(xMajor, a, b, err, n, aInc, bInc, big, small)| == n
    ensures Run(xMajor, a, b, err, n, aInc, bInc, big, small)[k] ==
            Orient(xMajor, a + k * aInc, b + bInc * ((err + k * small + big - small) / big))
    decreases k
  {
    RunLength(xMajor, a, b, err, n, aInc, bInc, big, small);
    var b' := if err >= 0 then b + bInc else b;
    var err' := (if err >= 0 then err - big else err) + small;
    var r := Run(xMajor, a, b, err, n, aInc, bInc, big, small);
    var rest := Run(xMajor, a + aInc, b', err', n - 1, aInc, bInc, big, small);
    assert r == [Orient(xMajor, a, b)] + rest;
    if k == 0 {
      DivUnique(err + big - small, big, 0, err + big - small);
      assert bInc * 0 == 0;
    } else {
      RunClosedForm(xMajor, a + aInc, b', err', n - 1, aInc, bInc, big, small, k - 1);
      assert r[k] == rest[k - 1];
      ClosedFormStep(a, b, err, aInc, bInc, big, small, k);
    }
  }

  /** The whole-line version: when the major extent is at least 2, point k is
      k steps along the major axis and ((k * minor + major - major / 2) / major)
      steps along the minor axis, which is minor steps at k = major. */
  lemma LineClosedForm(x1: int, y1: int, x2: int, y2: int, k: nat)
    requires Max(Abs(x2 - x1), Abs(y2 - y1)) >= 2
    requires k <= Max(Abs(x2 - x1), Abs(y2 - y1))
    ensures |LinePoints(x1, y1, x2, y2)| == Max(Abs(x2 - x1), Abs(y2 - y1)) + 1
    ensures var dxAbs, dyAbs := Abs(x2 - x1), Abs(y2 - y1);
            var pts := LinePoints(x1, y1, x2, y2);
            if dxAbs >= dyAbs then
              pts[k] == Point(x1 + k * Sign(x2 - x1),
                              y1 + Sign(y2 - y1) * ((k * dyAbs + dxAbs - dxAbs / 2) / dxAbs))
            else
              pts[k] == Point(x1 + Sign(x2 - x1) * ((k * dxAbs + dyAbs - dyAbs / 2) / dyAbs),
                              y1 + k * Sign(y2 - y1))
  {
    if Abs(x2 - x1) >= Abs(y2 - y1) {
      ClosedFormAlongX(x1, y1, x2, y2, k);
    } else {
      ClosedFormAlongY(x1, y1, x2, y2, k);
    }
  }

  lemma ClosedFormAlongX(x1: int, y1: int, x2: int, y2: int, k: nat)
    requires Abs(x2 - x1) >= Abs(y2 - y1) && Abs(x2 - x1) >= 2 && k <= Abs(x2 - x1)
    ensures |LinePoints(x1, y1, x2, y2)| == Abs(x2 - x1) + 1
    ensures LinePoints(x1, y1, x2, y2)[k] ==
              Point(x1 + k * Sign(x2 - x1),
                    y1 + Sign(y2 - y1) * ((k * Abs(y2 - y1) + Abs(x2 - x1) - Abs(x2 - x1) / 2) / Abs(x2 - x1)))
  {
    var dx, dy := x2 - x1, y2 - y1;
    var dxAbs, dyAbs := Abs(dx), Abs(dy);
    var err := dyAbs - dxAbs / 2;
    assert LinePoints(x1, y1, x2, y2) == Run(true, x1, y1, err, dxAbs + 1, Sign(dx), Sign(dy), dxAbs, dyAbs);
    RunClosedForm(true, x1, y1, err, dxAbs + 1, Sign(dx), Sign(dy), dxAbs, dyAbs, k);
    assert err + k * dyAbs + dxAbs - dyAbs == k * dyAbs + dxAbs - dxAbs / 2;
  }

  lemma ClosedFormAlongY(x1: int, y1: int, x2: int, y2: int, k: nat)
    requires Abs(x2 - x1) < Abs(y2 - y1) && Abs(y2 - y1) >= 2 && k <= Abs(y2 - y1)
    ensures |LinePoints(x1, y1, x2, y2)| == Abs(y2 - y1) + 1
    ensures LinePoints(x1, y1, x2, y2)[k] ==
              Point(x1 + Sign(x2 - x1) * ((k * Abs(x2 - x1) + Abs(y2 - y1) - Abs(y2 - y1) / 2) / Abs(y2 - y1)),
                    y1 + k * Sign(y2 - y1))
  {
    var dx, dy := x2 - x1, y2 - y1;
    var dxAbs, dyAbs := Abs(dx), Abs(dy);
    var err := dxAbs - dyAbs / 2;
    assert LinePoints(x1, y1, x2, y2) == Run(false, y1, x1, err, dyAbs + 1, Sign(dy), Sign(dx), dyAbs, dxAbs);
    RunClosedForm(false, y1, x1, err, dyAbs + 1, Sign(dy), Sign(dx), dyAbs, dxAbs, k);
    assert err + k * dxAbs + dyAbs - dxAbs == k * dxAbs + dyAbs - dyAbs / 2;
  }

  /** drawLine makes max(|dx|, |dy|) + 1 plot calls, the first at (x1, y1);
      each call moves one step along the major axis (in the direction of the
      end point) and zero or one step along the minor axis. */
  lemma LineSteps(x1: int, y1: int, x2: int, y2: int)
    ensures var pts := LinePoints(x1, y1, x2, y2);
            |pts| == Max(Abs(x2 - x1), Abs(y2 - y1)) + 1 &&
            pts[0] == Point(x1, y1) &&
            (forall k :: 0 <= k < |pts| - 1 ==>
               if Abs(x2 - x1) >= Abs(y2 - y1) then
                 pts[k + 1].x == pts[k].x + Sign(x2 - x1) &&
                 (pts[k + 1].y == pts[k].y || pts[k + 1].y == pts[k].y + Sign(y2 - y1))
               else
                 pts[k + 1].y == pts[k].y + Sign(y2 - y1) &&
                 (pts[k + 1].x == pts[k].x || pts[k + 1].x == pts[k].x + Sign(x2 - x1)))
  {
    var dx, dy := x2 - x1, y2 - y1;
    var dxAbs, dyAbs := Abs(dx), Abs(dy);
    var pts := LinePoints(x1, y1, x2, y2);
    if dxAbs >= dyAbs {
      assert pts == Run(true, x1, y1, dyAbs - dxAbs / 2, dxAbs + 1, Sign(dx), Sign(dy), dxAbs, dyAbs);
      RunShape(true, x1, y1, dyAbs - dxAbs / 2, dxAbs + 1, Sign(dx), Sign(dy), dxAbs, dyAbs);
    } else {
      assert pts == Run(false, y1, x1, dxAbs - dyAbs / 2, dyAbs + 1, Sign(dy), Sign(dx), dyAbs, dxAbs);
      RunShape(false, y1, x1, dxAbs - dyAbs / 2, dyAbs + 1, Sign(dy), Sign(dx), dyAbs, dxAbs);
    }
  }

  /** j * inc and k * inc differ for a unit step inc and j != k. */
  lemma UnitStepsDiffer(j: int, k: int, inc: int)
    requires inc == 1 || inc == -1
    requires j != k
    ensures j * inc != k * inc
  {
  }

  /** No pixel is plotted twice: the major coordinate strictly advances. */
  lemma LineDistinct(x1: int, y1: int, x2: int, y2: int)
    ensures var pts := LinePoints(x1, y1, x2, y2);
            forall j, k :: 0 <= j < k < |pts| ==> pts[j] != pts[k]
  {
    var dx, dy := x2 - x1, y2 - y1;
    var dxAbs, dyAbs := Abs(dx), Abs(dy);
    var xMajor := dxAbs >= dyAbs;
    var pts := LinePoints(x1, y1, x2, y2);
    var a, b, err, n, aInc, bInc, big, small :=
      if xMajor then x1 else y1, if xMajor then y1 else x1,
      if xMajor then dyAbs - dxAbs / 2 else dxAbs - dyAbs / 2,
      Max(dxAbs, dyAbs) + 1,
      if xMajor then Sign(dx) else Sign(dy), if xMajor then Sign(dy) else Sign(dx),
      if xMajor then dxAbs else dyAbs, if xMajor then dyAbs else dxAbs;
    assert pts == Run(xMajor, a, b, err, n, aInc, bInc, big, small);
    RunLength(xMajor, a, b, err, n, aInc, bInc, big, small);
    forall j, k | 0 <= j < k < |pts| ensures pts[j] != pts[k] {
      RunMajor(xMajor, a, b, err, n, aInc, bInc, big, small, j);
      RunMajor(xMajor, a, b, err, n, aInc, bInc, big, small, k);
      UnitStepsDiffer(j, k, aInc);
    }
  }

  lemma SignTimesAbs(d: int)
    ensures d * Sign(d) == Abs(d) && Abs(d) * Sign(d) == d
  {
  }

  /** At the last step k = major the closed form reaches the full minor extent. */
  lemma EndOffset(big: int, small: int)
    requires 0 <= small <= big && big >= 2
    ensures (big * small + big - big / 2) / big == small
  {
    var h := big / 2;
    assert big * small + big - h == small * big + (big - h);
    DivUnique(big * small + big - h, big, small, big - h);
  }

  /** A line whose major extent is at least 2 ends at (x2, y2). */
  lemma LongLineEnds(x1: int, y1: int, x2: int, y2: int)
    requires Max(Abs(x2 - x1), Abs(y2 - y1)) >= 2
    ensures var pts := LinePoints(x1, y1, x2, y2);
            |pts| == Max(Abs(x2 - x1), Abs(y2 - y1)) + 1 &&
            pts[Max(Abs(x2 - x1), Abs(y2 - y1))] == Point(x2, y2)
  {
    var dx, dy := x2 - x1, y2 - y1;
    var dxAbs, dyAbs := Abs(dx), Abs(dy);
    var big := Max(dxAbs, dyAbs);
    var pts := LinePoints(x1, y1, x2, y2);
    LineClosedForm(x1, y1, x2, y2, big);
    SignTimesAbs(dx);
    SignTimesAbs(dy);
    if dxAbs >= dyAbs {
      EndOffset(dxAbs, dyAbs);
      assert pts[big] == Point(x1 + dxAbs * Sign(dx), y1 + Sign(dy) * dyAbs);
    } else {
      EndOffset(dyAbs, dxAbs);
      assert pts[big] == Point(x1 + Sign(dx) * dxAbs, y1 + dyAbs * Sign(dy));
    }
  }

  /** A line of major extent 0 or 1 ends one pixel off (x2, y2) exactly when
      its minor extent is 0 and its major extent 1. */
  lemma ShortLineEnds(x1: int, y1: int, x2: int, y2: int)
    requires Max(Abs(x2 - x1), Abs(y2 - y1)) <= 1
    ensures var pts := LinePoints(x1, y1, x2, y2);
            var dxAbs, dyAbs := Abs(x2 - x1), Abs(y2 - y1);
            |pts| == Max(dxAbs, dyAbs) + 1 &&
            pts[|pts| - 1] ==
              if dxAbs == 1 && dyAbs == 0 then Point(x2, y2 + 1)
              else if dxAbs == 0 && dyAbs == 1 then Point(x2 + 1, y2)
              else Point(x2, y2)
  {
    var dx, dy := x2 - x1, y2 - y1;
    var dxAbs, dyAbs := Abs(dx), Abs(dy);
    var pts := LinePoints(x1, y1, x2, y2);
    if dxAbs >= dyAbs {
      var err := dyAbs - dxAbs / 2;
      assert pts == Run(true, x1, y1, err, dxAbs + 1, Sign(dx), Sign(dy), dxAbs, dyAbs);
      if dxAbs == 1 {
        var rest := Run(true, x1 + Sign(dx), y1 + Sign(dy), err - dxAbs + dyAbs, 1, Sign(dx), Sign(dy), dxAbs, dyAbs);
        assert pts == [Point(x1, y1)] + rest;
      }
    } else {
      var err := dxAbs - dyAbs / 2;
      assert pts == Run(false, y1, x1, err, dyAbs + 1, Sign(dy), Sign(dx), dyAbs, dxAbs);
      var rest := Run(false, y1 + Sign(dy), x1 + Sign(dx), err - dyAbs + dxAbs, 1, Sign(dy), Sign(dx), dyAbs, dxAbs);
      assert pts == [Point(x1, y1)] + rest;
    }
  }

  /** The last plot is (x2, y2), except for a line whose major extent is 1 and
      minor extent 0: its initial error 0 steps the minor axis, so the second
      plot lands one pixel off, in the + direction of the minor axis. */
  lemma LineEnds(x1: int, y1: int, x2: int, y2: int)
    ensures var pts := LinePoints(x1, y1, x2, y2);
            var dxAbs, dyAbs := Abs(x2 - x1), Abs(y2 - y1);
            |pts| >= 1 &&
            pts[|pts| - 1] ==
              if dxAbs == 1 && dyAbs == 0 then Point(x2, y2 + 1)
              else if dxAbs == 0 && dyAbs == 1 then Point(x2 + 1, y2)
              else Point(x2, y2)
  {
    if Max(Abs(x2 - x1), Abs(y2 - y1)) >= 2 {
      LongLineEnds(x1, y1, x2, y2);
    } else {
      ShortLineEnds(x1, y1, x2, y2);
    }
  }

  /** drawLine(0, 0, 10, 0) plots the eleven pixels (0, 0) .. (10, 0). */
  lemma HorizontalLine()
    ensures LinePoints(0, 0, 10, 0) == seq(11, k => Point(k, 0))
  {
    var pts := LinePoints(0, 0, 10, 0);
    LineClosedForm(0, 0, 10, 0, 0);
    forall k | 0 <= k < 11 ensures pts[k] == Point(k, 0) {
      LineClosedForm(0, 0, 10, 0, k);
      DivUnique(k * 0 + 5, 10, 0, 5);
    }
  }

  /** drawLine(0, 0, 5, 5) plots the six pixels (0, 0) .. (5, 5). */
  lemma DiagonalLine()
    ensures LinePoints(0, 0, 5, 5) == seq(6, k => Point(k, k))
  {
    var pts := LinePoints(0, 0, 5, 5);
    forall k | 0 <= k < 6 ensures pts[k] == Point(k, k) {
      LineClosedForm(0, 0, 5, 5, k);
      DivUnique(k * 5 + 3, 5, k, 3);
    }
  }

  /** drawLine(0, 0, 1, 0) plots (0, 0) and (1, 1), not (1, 0). */
  lemma ShortLineQuirk()
    ensures LinePoints(0, 0, 1, 0) == [Point(0, 0), Point(1, 1)]
  {
    LineEnds(0, 0, 1, 0);
    LineSteps(0, 0, 1, 0);
  }
}
