/** The 240x160 mode-3 screen: a row-major buffer of 16-bit colour cells,
    the bounds check every write goes through, and the effect of a sequence
    of bounds-checked plots on the buffer contents. */
module Screen {
  import opened Machine

  const Width: int := 240
  const Height: int := 160
  const Cells: int := Width * Height

  datatype Point = Point(x: int, y: int)

  predicate IsValidPixel(x: int, y: int) {
    0 <= x < Width && 0 <= y < Height
  }

  /** The row-major cell offset `y * 240 + x`. */
  function Index(x: int, y: int): (i: nat)
    requires IsValidPixel(x, y)
    ensures i < Cells
  {
    y * Width + x
  }

  /** The cell determines the pixel: column and row are its remainder and
      quotient by the width. */
  lemma IndexPixel(x: int, y: int)
    requires IsValidPixel(x, y)
    ensures Index(x, y) % Width == x && Index(x, y) / Width == y
  {
    assert Index(x, y) == y * Width + x;
  }

  /** Distinct on-screen pixels have distinct cells. */
  lemma IndexInjective(p: Point, q: Point)
    requires IsValidPixel(p.x, p.y) && IsValidPixel(q.x, q.y) && p != q
    ensures Index(p.x, p.y) != Index(q.x, q.y)
  {
    IndexPixel(p.x, p.y);
    IndexPixel(q.x, q.y);
  }

  /** Every cell is the offset of exactly one on-screen pixel. */
  lemma CellPixel(i: int)
    requires 0 <= i < Cells
    ensures IsValidPixel(i % Width, i / Width) && Index(i % Width, i / Width) == i
  {
  }

  /** The buffer after one bounds-checked write: off-screen points change nothing. */
  function Plot(s: seq<u16>, p: Point, c: u16): (t: seq<u16>)
    requires |s| == Cells
    ensures |t| == Cells
  {
    if IsValidPixel(p.x, p.y) then s[Index(p.x, p.y) := c] else s
  }

  /** The buffer after plotting every point of `ps`, in order, in colour c. */
  function PlotAll(s: seq<u16>, ps: seq<Point>, c: u16): (t: seq<u16>)
    requires |s| == Cells
    ensures |t| == Cells
  {
    PlotFirst(s, ps, |ps|, c)
  }

  /** The buffer after plotting the first k points of `ps`. */
  function PlotFirst(s: seq<u16>, ps: seq<Point>, k: nat, c: u16): (t: seq<u16>)
    requires |s| == Cells && k <= |ps|
    ensures |t| == Cells
    decreases k
  {
    if k == 0 then s else Plot(PlotFirst(s, ps, k - 1, c), ps[k - 1], c)
  }

  /** Plotting p and then reading q gives c exactly when p is on screen and is q. */
  lemma PlotCell(s: seq<u16>, p: Point, c: u16, q: Point)
    requires |s| == Cells && IsValidPixel(q.x, q.y)
    ensures Plot(s, p, c)[Index(q.x, q.y)] == if p == q then c else s[Index(q.x, q.y)]
  {
    if p != q && IsValidPixel(p.x, p.y) {
      IndexInjective(p, q);
    }
  }

  lemma {:induction false} PlotFirstCell(s: seq<u16>, ps: seq<Point>, k: nat, c: u16, q: Point)
    requires |s| == Cells && k <= |ps| && IsValidPixel(q.x, q.y)
    ensures PlotFirst(s, ps, k, c)[Index(q.x, q.y)] ==
              if exists i :: 0 <= i < k && ps[i] == q then c else s[Index(q.x, q.y)]
    decreases k
  {
    if k > 0 {
      PlotFirstCell(s, ps, k - 1, c, q);
      PlotCell(PlotFirst(s, ps, k - 1, c), ps[k - 1], c, q);
      if ps[k - 1] != q && exists i :: 0 <= i < k && ps[i] == q {
        var i :| 0 <= i < k && ps[i] == q;
        assert i < k - 1;
      }
    }
  }

  /** A cell ends up coloured c exactly when its pixel is one of the plotted
      points; every other cell keeps its old value. */
  lemma PlotAllCell(s: seq<u16>, ps: seq<Point>, c: u16, q: Point)
    requires |s| == Cells && IsValidPixel(q.x, q.y)
    ensures PlotAll(s, ps, c)[Index(q.x, q.y)] == if q in ps then c else s[Index(q.x, q.y)]
  {
    PlotFirstCell(s, ps, |ps|, c, q);
    if q in ps {
      var i :| 0 <= i < |ps| && ps[i] == q;
    }
  }

  /** Plotting the first k points depends on those points only. */
  lemma {:induction false} PlotFirstAgree(s: seq<u16>, ps: seq<Point>, qs: seq<Point>, k: nat, c: u16)
    requires |s| == Cells && k <= |ps| && k <= |qs|
    requires forall i :: 0 <= i < k ==> ps[i] == qs[i]
    ensures PlotFirst(s, ps, k, c) == PlotFirst(s, qs, k, c)
    decreases k
  {
    if k > 0 {
      PlotFirstAgree(s, ps, qs, k - 1, c);
    }
  }

  /** Extending the list of plots by one point is one more plot. */
  lemma PlotAllSnoc(s: seq<u16>, ps: seq<Point>, p: Point, c: u16)
    requires |s| == Cells
    ensures PlotAll(s, ps + [p], c) == Plot(PlotAll(s, ps, c), p, c)
  {
    PlotFirstAgree(s, ps + [p], ps, |ps|, c);
  }

  lemma {:induction false} PlotFirstAppend(s: seq<u16>, ps: seq<Point>, qs: seq<Point>, k: nat, c: u16)
    requires |s| == Cells && k <= |qs|
    ensures PlotFirst(PlotAll(s, ps, c), qs, k, c) == PlotFirst(s, ps + qs, |ps| + k, c)
    decreases k
  {
    if k == 0 {
      PlotFirstAgree(s, ps + qs, ps, |ps|, c);
    } else {
      PlotFirstAppend(s, ps, qs, k - 1, c);
      assert (ps + qs)[|ps| + k - 1] == qs[k - 1];
    }
  }

  /** Plotting ps and then qs is plotting ps + qs. */
  lemma PlotAllAppend(s: seq<u16>, ps: seq<Point>, qs: seq<Point>, c: u16)
    requires |s| == Cells
    ensures PlotAll(PlotAll(s, ps, c), qs, c) == PlotAll(s, ps + qs, c)
  {
    PlotFirstAppend(s, ps, qs, |qs|, c);
  }

  /** Every cell of the result is c or its old value, and a cell changes only if
      some plotted point addresses it; the buffer is determined cell by cell. */
  lemma PlotAllCells(s: seq<u16>, ps: seq<Point>, c: u16)
    requires |s| == Cells
    ensures forall x, y | IsValidPixel(x, y) ::
              PlotAll(s, ps, c)[Index(x, y)] == if Point(x, y) in ps then c else s[Index(x, y)]
  {
    forall x, y | IsValidPixel(x, y)
      ensures PlotAll(s, ps, c)[Index(x, y)] == if Point(x, y) in ps then c else s[Index(x, y)]
    {
      PlotAllCell(s, ps, c, Point(x, y));
    }
  }
}
