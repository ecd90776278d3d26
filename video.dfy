/** The display object: the screen buffer and the drawing primitives, every
    one of which writes only through the bounds-checked plotPixel. Each
    primitive is specified as the old buffer with its sequence of plots
    applied (Screen.PlotAll), and the cell-level consequence is stated too. */
module Video {
  import opened Machine
  import opened Screen
  import opened Rect
  import opened Line
  import opened Circle
  import MemUtil
  import Color

  class Display {
    /** The video buffer: Width * Height cells, row-major. */
    const buffer: array<u16>

    predicate Valid() {
      buffer.Length == Cells
    }

    constructor ()
      ensures Valid() && fresh(buffer)
    {
      buffer := new u16[Cells];
    }

    predicate IsValidPixel(x: int, y: int)
      ensures IsValidPixel(x, y) <==> 0 <= x < Width && 0 <= y < Height
    {
      Screen.IsValidPixel(x, y)
    }

    /** The colour at (x, y), and 0 for any point off the screen. */
    function GetPixel(x: int, y: int): (c: u16)
      requires Valid()
      reads buffer
      ensures IsValidPixel(x, y) ==> c == buffer[Index(x, y)]
      ensures !IsValidPixel(x, y) ==> c == 0
    {
      if Screen.IsValidPixel(x, y) then buffer[Index(x, y)] else 0
    }

    method PlotPixel(x: int, y: int, color: u16)
      requires Valid()
      modifies buffer
      ensures buffer[..] == Plot(old(buffer[..]), Point(x, y), color)
      ensures forall qx, qy :: GetPixel(qx, qy) ==
                if qx == x && qy == y && IsValidPixel(x, y) then color else old(GetPixel(qx, qy))
    {
      if Screen.IsValidPixel(x, y) {
        buffer[Index(x, y)] := color;
      }
      forall qx, qy ensures GetPixel(qx, qy) ==
          if qx == x && qy == y && IsValidPixel(x, y) then color else old(GetPixel(qx, qy))
      {
        if Screen.IsValidPixel(qx, qy) {
          PlotCell(old(buffer[..]), Point(x, y), color, Point(qx, qy));
        }
      }
    }

    /** A plot that also extends the ghost record of the plots made so far. */
    method Record(x: int, y: int, color: u16, ghost before: seq<u16>, ghost done: seq<Point>)
      returns (ghost done': seq<Point>)
      requires Valid() && |before| == Cells
      requires buffer[..] == PlotAll(before, done, color)
      modifies buffer
      ensures done' == done + [Point(x, y)]
      ensures buffer[..] == PlotAll(before, done', color)
    {
      PlotPixel(x, y, color);
      done' := done + [Point(x, y)];
      PlotAllSnoc(before, done, Point(x, y), color);
    }

    /** Two plots, as one iteration of either drawRectOutline loop makes them. */
    method RecordPair(x1: int, y1: int, x2: int, y2: int, color: u16,
                      ghost before: seq<u16>, ghost done: seq<Point>)
      returns (ghost done': seq<Point>)
      requires Valid() && |before| == Cells
      requires buffer[..] == PlotAll(before, done, color)
      modifies buffer
      ensures done' == done + [Point(x1, y1), Point(x2, y2)]
      ensures buffer[..] == PlotAll(before, done', color)
    {
      done' := Record(x1, y1, color, before, done);
      done' := Record(x2, y2, color, before, done');
    }

    /** One iteration of drawCircle's loop: the eight reflections of (x, y). */
    method PlotOctants(cx: int, cy: int, x: int, y: int, color: u16,
                       ghost before: seq<u16>, ghost done: seq<Point>)
      returns (ghost done': seq<Point>)
      requires Valid() && |before| == Cells
      requires buffer[..] == PlotAll(before, done, color)
      modifies buffer
      ensures done' == done + Octants(cx, cy, x, y)
      ensures buffer[..] == PlotAll(before, done', color)
    {
      done' := Record(cx + x, cy + y, color, before, done);
      done' := Record(cx - x, cy + y, color, before, done');
      done' := Record(cx + x, cy - y, color, before, done');
      done' := Record(cx - x, cy - y, color, before, done');
      done' := Record(cx + y, cy + x, color, before, done');
      done' := Record(cx - y, cy + x, color, before, done');
      done' := Record(cx + y, cy - x, color, before, done');
      done' := Record(cx - y, cy - x, color, before, done');
      EightAppends(done, Octants(cx, cy, x, y));
    }

    method ClearScreen(color: u16)
      requires Valid()
      modifies buffer
      ensures buffer[..] == seq(Cells, _ => color)
    {
      MemUtil.FastMemSet16(buffer, color, Width * Height);
    }

    method DrawRect(x: int, y: int, width: int, height: int, color: u16)
      requires Valid()
      modifies buffer
      ensures buffer[..] == PlotAll(old(buffer[..]), RectPoints(x, y, width, height), color)
    {
      ghost var before := buffer[..];
      var dy := 0;
      while dy < height
        invariant 0 <= dy && (dy <= height || dy == 0)
        invariant buffer[..] == PlotAll(before, RectPoints(x, y, width, dy), color)
      {
        DrawRow(x, y + dy, width, color);
        PlotAllAppend(before, RectPoints(x, y, width, dy), Row(x, y + dy, width), color);
        dy := dy + 1;
      }
      assert RectPoints(x, y, width, dy) == RectPoints(x, y, width, height);
    }

    /** drawRect's inner loop: the row y, from x over `width` columns. */
    method DrawRow(x: int, y: int, width: int, color: u16)
      requires Valid()
      modifies buffer
      ensures buffer[..] == PlotAll(old(buffer[..]), Row(x, y, width), color)
    {
      ghost var before := buffer[..];
      ghost var done: seq<Point> := [];
      var dx := 0;
      while dx < width
        invariant 0 <= dx && (dx <= width || dx == 0)
        invariant done == Row(x, y, dx)
        invariant buffer[..] == PlotAll(before, done, color)
      {
        done := Record(x + dx, y, color, before, done);
        RowStep(x, y, dx);
        dx := dx + 1;
      }
      assert Row(x, y, dx) == Row(x, y, width);
    }

    method DrawRectOutline(x: int, y: int, width: int, height: int, color: u16)
      requires Valid()
      modifies buffer
      ensures buffer[..] == PlotAll(old(buffer[..]), OutlinePoints(x, y, width, height), color)
    {
      ghost var before := buffer[..];
      ghost var done := DrawTopBottom(x, y, width, height, color, before);
      done := DrawSides(x, y, width, height, color, before, done);
    }

    /** drawRectOutline's first loop: the top and bottom lines. */
    method DrawTopBottom(x: int, y: int, width: int, height: int, color: u16, ghost before: seq<u16>)
      returns (ghost done: seq<Point>)
      requires Valid() && buffer[..] == before
      modifies buffer
      ensures done == TopBottom(x, y, height, width)
      ensures buffer[..] == PlotAll(before, done, color)
    {
      done := [];
      var dx := 0;
      while dx < width
        invariant 0 <= dx && (dx <= width || dx == 0)
        invariant done == TopBottom(x, y, height, dx)
        invariant buffer[..] == PlotAll(before, done, color)
      {
        done := RecordPair(x + dx, y, x + dx, y + height - 1, color, before, done);
        TopBottomStep(x, y, height, dx);
        dx := dx + 1;
      }
      assert TopBottom(x, y, height, dx) == TopBottom(x, y, height, width);
    }

    /** drawRectOutline's second loop: the left and right lines. */
    method DrawSides(x: int, y: int, width: int, height: int, color: u16,
                     ghost before: seq<u16>, ghost top: seq<Point>)
      returns (ghost done: seq<Point>)
      requires Valid() && |before| == Cells
      requires buffer[..] == PlotAll(before, top, color)
      modifies buffer
      ensures done == top + Sides(x, y, width, height - 1)
      ensures buffer[..] == PlotAll(before, done, color)
    {
      done := top;
      var dy := 1;
      while dy < height - 1
        invariant 1 <= dy && (dy <= height - 1 || dy == 1)
        invariant done == top + Sides(x, y, width, dy)
        invariant buffer[..] == PlotAll(before, done, color)
      {
        done := RecordPair(x, y + dy, x + width - 1, y + dy, color, before, done);
        SidesStep(x, y, width, dy);
        Regroup(top, Sides(x, y, width, dy), [Point(x, y + dy), Point(x + width - 1, y + dy)]);
        dy := dy + 1;
      }
      assert Sides(x, y, width, dy) == Sides(x, y, width, height - 1);
    }

    method DrawLine(x1: int, y1: int, x2: int, y2: int, color: u16)
      requires Valid()
      modifies buffer
      ensures buffer[..] == PlotAll(old(buffer[..]), LinePoints(x1, y1, x2, y2), color)
    {
      var dx := x2 - x1;
      var dy := y2 - y1;
      var dxAbs := if dx < 0 then -dx else dx;
      var dyAbs := if dy < 0 then -dy else dy;
      var xInc := if dx < 0 then -1 else 1;
      var yInc := if dy < 0 then -1 else 1;
      if dxAbs >= dyAbs {
        LineAlongX(x1, y1, dxAbs, dyAbs, xInc, yInc, color);
      } else {
        LineAlongY(x1, y1, dxAbs, dyAbs, xInc, yInc, color);
      }
    }

    /** drawLine's first loop, for a line whose x extent is the larger. */
    method LineAlongX(x1: int, y1: int, dxAbs: int, dyAbs: int, xInc: int, yInc: int, color: u16)
      requires Valid() && 0 <= dyAbs <= dxAbs
      modifies buffer
      ensures buffer[..] == PlotAll(old(buffer[..]),
                Run(true, x1, y1, dyAbs - dxAbs / 2, dxAbs + 1, xInc, yInc, dxAbs, dyAbs), color)
    {
      ghost var before := buffer[..];
      ghost var done: seq<Point> := [];
      ghost var pts := Run(true, x1, y1, dyAbs - dxAbs / 2, dxAbs + 1, xInc, yInc, dxAbs, dyAbs);
      var x, y := x1, y1;
      var error := dyAbs - dxAbs / 2;
      var i := 0;
      ghost var n: nat := dxAbs + 1;
      while i <= dxAbs
        invariant 0 <= i <= dxAbs + 1 && n == dxAbs + 1 - i
        invariant done + Run(true, x, y, error, n, xInc, yInc, dxAbs, dyAbs) == pts
        invariant buffer[..] == PlotAll(before, done, color)
      {
        RunStep(true, x, y, error, n - 1, xInc, yInc, dxAbs, dyAbs);
        ghost var done0, p := done, Orient(true, x, y);
        done := Record(x, y, color, before, done);
        if error >= 0 {
          y := y + yInc;
          error := error - dxAbs;
        }
        error := error + dyAbs;
        x := x + xInc;
        i := i + 1;
        n := n - 1;
        Shift(done0, p, Run(true, x, y, error, n, xInc, yInc, dxAbs, dyAbs));
      }
      assert Run(true, x, y, error, n, xInc, yInc, dxAbs, dyAbs) == [];
      assert done == pts;
    }

    /** drawLine's second loop, for a line whose y extent is the larger. */
    method LineAlongY(x1: int, y1: int, dxAbs: int, dyAbs: int, xInc: int, yInc: int, color: u16)
      requires Valid() && 0 <= dxAbs < dyAbs
      modifies buffer
      ensures buffer[..] == PlotAll(old(buffer[..]),
                Run(false, y1, x1, dxAbs - dyAbs / 2, dyAbs + 1, yInc, xInc, dyAbs, dxAbs), color)
    {
      ghost var before := buffer[..];
      ghost var done: seq<Point> := [];
      ghost var pts := Run(false, y1, x1, dxAbs - dyAbs / 2, dyAbs + 1, yInc, xInc, dyAbs, dxAbs);
      var x, y := x1, y1;
      var error := dxAbs - dyAbs / 2;
      var i := 0;
      ghost var n: nat := dyAbs + 1;
      while i <= dyAbs
        invariant 0 <= i <= dyAbs + 1 && n == dyAbs + 1 - i
        invariant done + Run(false, y, x, error, n, yInc, xInc, dyAbs, dxAbs) == pts
        invariant buffer[..] == PlotAll(before, done, color)
      {
        RunStep(false, y, x, error, n - 1, yInc, xInc, dyAbs, dxAbs);
        ghost var done0, p := done, Orient(false, y, x);
        done := Record(x, y, color, before, done);
        if error >= 0 {
          x := x + xInc;
          error := error - dyAbs;
        }
        error := error + dxAbs;
        y := y + yInc;
        i := i + 1;
        n := n - 1;
        Shift(done0, p, Run(false, y, x, error, n, yInc, xInc, dyAbs, dxAbs));
      }
      assert Run(false, y, x, error, n, yInc, xInc, dyAbs, dxAbs) == [];
      assert done == pts;
    }

    method DrawCircle(centerX: int, centerY: int, radius: int, color: u16)
      requires Valid()
      modifies buffer
      ensures buffer[..] == PlotAll(old(buffer[..]), CirclePoints(centerX, centerY, radius), color)
    {
      ghost var before := buffer[..];
      ghost var done: seq<Point> := [];
      var x := 0;
      var y := radius;
      var d := 3 - 2 * radius;
      while x <= y
        invariant done + CircleFrom(centerX, centerY, x, y, d) == CirclePoints(centerX, centerY, radius)
        invariant buffer[..] == PlotAll(before, done, color)
        decreases y - x
      {
        ghost var x', y' := x + 1, if d > 0 then y - 1 else y;
        ghost var rest := CircleFrom(centerX, centerY, x', y', if d > 0 then d + 4 * (x' - y') + 10 else d + 4 * x' + 6);
        ghost var o := Octants(centerX, centerY, x, y);
        assert CircleFrom(centerX, centerY, x, y, d) == o + rest;
        ghost var done0 := done;
        done := PlotOctants(centerX, centerY, x, y, color, before, done);
        Regroup(done0, o, rest);
        x := x + 1;
        if d > 0 {
          y := y - 1;
          d := d + 4 * (x - y) + 10;
        } else {
          d := d + 4 * x + 6;
        }
      }
      assert CircleFrom(centerX, centerY, x, y, d) == [];
      assert done == CirclePoints(centerX, centerY, radius);
      assert buffer[..] == PlotAll(before, CirclePoints(centerX, centerY, radius), color);
    }
  }

  /** One iteration of a drawLine loop plots the head of its remaining run. */
  lemma RunStep(xMajor: bool, a: int, b: int, err: int, n: nat,
                aInc: int, bInc: int, big: int, small: int)
    ensures Run(xMajor, a, b, err, n + 1, aInc, bInc, big, small) ==
              [Orient(xMajor, a, b)] +
              Run(xMajor, a + aInc, if err >= 0 then b + bInc else b,
                  (if err >= 0 then err - big else err) + small, n, aInc, bInc, big, small)
  {
  }

  /** Eight single appends are one append of the eight points. */
  lemma EightAppends(done: seq<Point>, o: seq<Point>)
    requires |o| == 8
    ensures done + [o[0]] + [o[1]] + [o[2]] + [o[3]] + [o[4]] + [o[5]] + [o[6]] + [o[7]] == done + o
  {
    assert o == [o[0]] + [o[1]] + [o[2]] + [o[3]] + [o[4]] + [o[5]] + [o[6]] + [o[7]];
  }

  /** Moving the head of the remaining plots onto the end of those made. */
  lemma Shift(done: seq<Point>, p: Point, rest: seq<Point>)
    ensures (done + [p]) + rest == done + ([p] + rest)
  {
  }

  lemma Regroup(done: seq<Point>, o: seq<Point>, rest: seq<Point>)
    ensures (done + o) + rest == done + (o + rest)
  {
  }

  lemma RowStep(x: int, y: int, n: int)
    requires n >= 0
    ensures Row(x, y, n + 1) == Row(x, y, n) + [Point(x + n, y)]
  {
  }

  lemma TopBottomStep(x: int, y: int, h: int, n: int)
    requires n >= 0
    ensures TopBottom(x, y, h, n + 1) == TopBottom(x, y, h, n) + [Point(x + n, y), Point(x + n, y + h - 1)]
  {
  }

  lemma SidesStep(x: int, y: int, w: int, k: int)
    requires k >= 1
    ensures Sides(x, y, w, k + 1) == Sides(x, y, w, k) + [Point(x, y + k), Point(x + w - 1, y + k)]
  {
  }

  /** The cell-level reading of drawRect's plots. */
  lemma RectCells(before: seq<u16>, x: int, y: int, width: int, height: int, color: u16)
    requires |before| == Cells
    ensures forall px, py | Screen.IsValidPixel(px, py) ::
              PlotAll(before, RectPoints(x, y, width, height), color)[Index(px, py)] ==
                if x <= px < x + width && y <= py < y + height then color
                else before[Index(px, py)]
  {
    forall px, py | Screen.IsValidPixel(px, py)
      ensures PlotAll(before, RectPoints(x, y, width, height), color)[Index(px, py)] ==
                if x <= px < x + width && y <= py < y + height then color
                else before[Index(px, py)]
    {
      PlotAllCell(before, RectPoints(x, y, width, height), color, Point(px, py));
      RectMembers(x, y, width, height, Point(px, py));
    }
  }

  /** The cell-level reading of drawRectOutline's plots. */
  lemma OutlineCells(before: seq<u16>, x: int, y: int, width: int, height: int, color: u16)
    requires |before| == Cells
    ensures forall px, py | Screen.IsValidPixel(px, py) ::
              PlotAll(before, OutlinePoints(x, y, width, height), color)[Index(px, py)] ==
                if (x <= px < x + width && (py == y || py == y + height - 1)) ||
                   (y + 1 <= py < y + height - 1 && (px == x || px == x + width - 1))
                then color
                else before[Index(px, py)]
  {
    forall px, py | Screen.IsValidPixel(px, py)
      ensures PlotAll(before, OutlinePoints(x, y, width, height), color)[Index(px, py)] ==
                if (x <= px < x + width && (py == y || py == y + height - 1)) ||
                   (y + 1 <= py < y + height - 1 && (px == x || px == x + width - 1))
                then color
                else before[Index(px, py)]
    {
      PlotAllCell(before, OutlinePoints(x, y, width, height), color, Point(px, py));
      OutlineMembers(x, y, width, height, Point(px, py));
    }
  }

  /** Clearing to black and filling the 5x5 square at (10, 10) in white leaves
      (12, 12) white and (9, 9) black. */
  method RectScenario() returns (inside: u16, outside: u16)
    ensures inside == Color.White && outside == Color.Black
  {
    var display := new Display();
    display.ClearScreen(Color.Black);
    display.DrawRect(10, 10, 5, 5, Color.White);
    RectCells(seq(Cells, _ => Color.Black), 10, 10, 5, 5, Color.White);
    inside := display.GetPixel(12, 12);
    outside := display.GetPixel(9, 9);
  }
}
