/** The points that drawRect and drawRectOutline pass to plotPixel, in the
    order their loops pass them. */
module Rect {
  import opened Screen

  /** One row of a filled rectangle: (x + dx, y) for dx = 0 .. n-1. */
  function Row(x: int, y: int, n: int): seq<Point>
    decreases n
  {
    if n <= 0 then [] else Row(x, y, n - 1) + [Point(x + n - 1, y)]
  }

  /** drawRect's plots: rows dy = 0 .. h-1, each of w points. */
  function RectPoints(x: int, y: int, w: int, h: int): seq<Point>
    decreases h
  {
    if h <= 0 then [] else RectPoints(x, y, w, h - 1) + Row(x, y + h - 1, w)
  }

  lemma {:induction false} RowMembers(x: int, y: int, n: int, p: Point)
    ensures p in Row(x, y, n) <==> p.y == y && x <= p.x < x + n
    decreases n
  {
    if n > 0 {
      RowMembers(x, y, n - 1, p);
    }
  }

  /** drawRect covers exactly the half-open box [x, x+w) x [y, y+h); a
      non-positive width or height covers nothing. */
  lemma {:induction false} RectMembers(x: int, y: int, w: int, h: int, p: Point)
    ensures p in RectPoints(x, y, w, h) <==> x <= p.x < x + w && y <= p.y < y + h
    decreases h
  {
    if h > 0 {
      RectMembers(x, y, w, h - 1, p);
      RowMembers(x, y + h - 1, w, p);
    }
  }

  /** The first loop of drawRectOutline: for dx = 0 .. n-1 it plots
      (x + dx, y) and then (x + dx, y + h - 1). */
  function TopBottom(x: int, y: int, h: int, n: int): seq<Point>
    decreases n
  {
    if n <= 0 then []
    else TopBottom(x, y, h, n - 1) + [Point(x + n - 1, y), Point(x + n - 1, y + h - 1)]
  }

  /** The second loop: for dy = 1 .. k-1 it plots (x, y + dy) and then
      (x + w - 1, y + dy). */
  function Sides(x: int, y: int, w: int, k: int): seq<Point>
    decreases k
  {
    if k <= 1 then []
    else Sides(x, y, w, k - 1) + [Point(x, y + k - 1), Point(x + w - 1, y + k - 1)]
  }

  /** drawRectOutline's plots: the second loop runs dy from 1 while dy < h - 1. */
  function OutlinePoints(x: int, y: int, w: int, h: int): seq<Point> {
    TopBottom(x, y, h, w) + Sides(x, y, w, h - 1)
  }

  lemma {:induction false} TopBottomMembers(x: int, y: int, h: int, n: int, p: Point)
    ensures p in TopBottom(x, y, h, n) <==> x <= p.x < x + n && (p.y == y || p.y == y + h - 1)
    decreases n
  {
    if n > 0 {
      TopBottomMembers(x, y, h, n - 1, p);
    }
  }

  lemma {:induction false} SidesMembers(x: int, y: int, w: int, k: int, p: Point)
    ensures p in Sides(x, y, w, k) <==> y + 1 <= p.y < y + k && (p.x == x || p.x == x + w - 1)
    decreases k
  {
    if k > 1 {
      SidesMembers(x, y, w, k - 1, p);
    }
  }

  /** The outline is the top row y and bottom row y + h - 1 over the columns
      [x, x+w), together with the columns x and x + w - 1 over the rows strictly
      between. Neither part checks the other dimension. */
  lemma OutlineMembers(x: int, y: int, w: int, h: int, p: Point)
    ensures p in OutlinePoints(x, y, w, h) <==>
              (x <= p.x < x + w && (p.y == y || p.y == y + h - 1)) ||
              (y + 1 <= p.y < y + h - 1 && (p.x == x || p.x == x + w - 1))
  {
    TopBottomMembers(x, y, h, w, p);
    SidesMembers(x, y, w, h - 1, p);
  }

  /** A non-positive width does not make the outline empty once h >= 3: the
      side loop still plots the columns x and x + w - 1. */
  lemma OutlineWithoutWidth(x: int, y: int, w: int, h: int)
    requires w <= 0 && h >= 3
    ensures Point(x, y + 1) in OutlinePoints(x, y, w, h)
    ensures Point(x + w - 1, y + 1) in OutlinePoints(x, y, w, h)
    ensures forall p :: p in OutlinePoints(x, y, w, h) ==> p.x == x || p.x == x + w - 1
  {
    OutlineMembers(x, y, w, h, Point(x, y + 1));
    OutlineMembers(x, y, w, h, Point(x + w - 1, y + 1));
    forall p | p in OutlinePoints(x, y, w, h) ensures p.x == x || p.x == x + w - 1 {
      OutlineMembers(x, y, w, h, p);
    }
  }

  /** Nor does a non-positive height once w >= 1: the first loop still plots the
      rows y and y + h - 1. */
  lemma OutlineWithoutHeight(x: int, y: int, w: int, h: int)
    requires h <= 0 && w >= 1
    ensures Point(x, y) in OutlinePoints(x, y, w, h)
    ensures Point(x, y + h - 1) in OutlinePoints(x, y, w, h)
  {
    OutlineMembers(x, y, w, h, Point(x, y));
    OutlineMembers(x, y, w, h, Point(x, y + h - 1));
  }

  /** The outline is empty only when both loops are: w <= 0 and h <= 2. */
  lemma {:induction false} OutlineEmpty(x: int, y: int, w: int, h: int)
    ensures OutlinePoints(x, y, w, h) == [] <==> w <= 0 && h <= 2
  {
    if w <= 0 && h <= 2 {
      if OutlinePoints(x, y, w, h) != [] {
        OutlineMembers(x, y, w, h, OutlinePoints(x, y, w, h)[0]);
      }
    } else if h <= 0 {
      OutlineWithoutHeight(x, y, w, h);
    } else if w <= 0 {
      OutlineWithoutWidth(x, y, w, h);
    } else {
      OutlineMembers(x, y, w, h, Point(x, y));
    }
  }
}
