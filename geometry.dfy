/** Box arithmetic of the table pipeline: the quadrilateral-to-rectangle step
    applied to every detected box, and the padded crop window, clamped side by side. */
module Geometry {

  datatype Point = Point(x: int, y: int)

  /** A detected text region as four corner points; `p0` is the first corner,
      the reference point the reading order is computed from. */
  datatype Quad = Quad(p0: Point, p1: Point, p2: Point, p3: Point)

  /** An axis-aligned rectangle `(x0, y0, x1, y1)`. */
  datatype Rect = Rect(x0: int, y0: int, x1: int, y1: int)

  /** Image shape `(h, w, c)` as an image array reports it. */
  datatype ImageShape = ImageShape(h: int, w: int, c: int)

  function Xs(q: Quad): seq<int> { [q.p0.x, q.p1.x, q.p2.x, q.p3.x] }
  function Ys(q: Quad): seq<int> { [q.p0.y, q.p1.y, q.p2.y, q.p3.y] }

  function Min(a: int, b: int): int { if a <= b then a else b }
  function Max(a: int, b: int): int { if a >= b then a else b }

  /** Smallest of four coordinates. */
  function Min4(s: seq<int>): (m: int)
    requires |s| == 4
    ensures m in s
    ensures forall v :: v in s ==> m <= v
  {
    Min(Min(s[0], s[1]), Min(s[2], s[3]))
  }

  /** Largest of four coordinates. */
  function Max4(s: seq<int>): (m: int)
    requires |s| == 4
    ensures m in s
    ensures forall v :: v in s ==> v <= m
  {
    Max(Max(s[0], s[1]), Max(s[2], s[3]))
  }

  /** The rectangle a detected quadrilateral is turned into before matching:
      one unit outside the extreme corner coordinates on every side. */
  function QuadToRect(q: Quad): (r: Rect)
    ensures r.x0 + 1 in Xs(q) && r.x1 - 1 in Xs(q)
    ensures r.y0 + 1 in Ys(q) && r.y1 - 1 in Ys(q)
    ensures forall v :: v in Xs(q) ==> r.x0 < v < r.x1
    ensures forall v :: v in Ys(q) ==> r.y0 < v < r.y1
  {
    Rect(Min4(Xs(q)) - 1, Min4(Ys(q)) - 1, Max4(Xs(q)) + 1, Max4(Ys(q)) + 1)
  }

  /** The loop that builds `r_boxes`, one rectangle per sorted quadrilateral. */
  method ToRects(dtBoxes: seq<Quad>) returns (rBoxes: seq<Rect>)
    ensures |rBoxes| == |dtBoxes|
    ensures forall k :: 0 <= k < |dtBoxes| ==> rBoxes[k] == QuadToRect(dtBoxes[k])
  {
    rBoxes := [];
    for k := 0 to |dtBoxes|
      invariant |rBoxes| == k
      invariant forall m :: 0 <= m < k ==> rBoxes[m] == QuadToRect(dtBoxes[m])
    {
      rBoxes := rBoxes + [QuadToRect(dtBoxes[k])];
    }
  }

  /** Margin, in pixels, added around every text box before it is cropped. */
  const CropMargin := 2

  /** Pads `detBox` by `pix` on every side and clamps each side on its own:
      the left and top sides are kept at or above 0, the right and bottom
      sides at or below the image width and height. Each side moves out by
      `pix` exactly when that keeps its own bound,
      and otherwise stops at that bound. */
  function Expand(pix: int, detBox: Rect, shape: ImageShape): (r: Rect)
    ensures r.x0 >= 0 && r.y0 >= 0 && r.x1 <= shape.w && r.y1 <= shape.h
    ensures r.x0 >= detBox.x0 - pix && r.y0 >= detBox.y0 - pix
    ensures r.x1 <= detBox.x1 + pix && r.y1 <= detBox.y1 + pix
    ensures r.x0 == detBox.x0 - pix <==> detBox.x0 - pix >= 0
    ensures r.y0 == detBox.y0 - pix <==> detBox.y0 - pix >= 0
    ensures r.x1 == detBox.x1 + pix <==> detBox.x1 + pix <= shape.w
    ensures r.y1 == detBox.y1 + pix <==> detBox.y1 + pix <= shape.h
    ensures r.x0 != detBox.x0 - pix ==> r.x0 == 0
    ensures r.y0 != detBox.y0 - pix ==> r.y0 == 0
    ensures r.x1 != detBox.x1 + pix ==> r.x1 == shape.w
    ensures r.y1 != detBox.y1 + pix ==> r.y1 == shape.h
  {
    var tmpX0 := detBox.x0 - pix;
    var tmpX1 := detBox.x1 + pix;
    var tmpY0 := detBox.y0 - pix;
    var tmpY1 := detBox.y1 + pix;
    Rect(if tmpX0 >= 0 then tmpX0 else 0,
         if tmpY0 >= 0 then tmpY0 else 0,
         if tmpX1 <= shape.w then tmpX1 else shape.w,
         if tmpY1 <= shape.h then tmpY1 else shape.h)
  }

  /** The clamps are one-sided: a box lying right of the image yields a
      window whose left side is beyond its right side. */
  lemma ExpandInvertedExample()
    ensures Expand(CropMargin, Rect(100, 0, 110, 5), ImageShape(10, 50, 3)) == Rect(98, 0, 50, 7)
    ensures Expand(CropMargin, Rect(100, 0, 110, 5), ImageShape(10, 50, 3)).x0 > 50
  {
  }

  /** The loop that computes the crop window of every text rectangle, each
      padded by `CropMargin` and clamped side by side. */
  method CropWindows(dtBoxes: seq<Rect>, shape: ImageShape) returns (windows: seq<Rect>)
    ensures |windows| == |dtBoxes|
    ensures forall k :: 0 <= k < |dtBoxes| ==> windows[k] == Expand(CropMargin, dtBoxes[k], shape)
    ensures forall k :: 0 <= k < |dtBoxes| ==>
      0 <= windows[k].x0 && 0 <= windows[k].y0 && windows[k].x1 <= shape.w && windows[k].y1 <= shape.h
  {
    windows := [];
    for i := 0 to |dtBoxes|
      invariant |windows| == i
      invariant forall k :: 0 <= k < i ==> windows[k] == Expand(CropMargin, dtBoxes[k], shape)
    {
      windows := windows + [Expand(CropMargin, dtBoxes[i], shape)];
    }
  }
}
