/**
 Integer rectangle arithmetic of the face swapper: the search region that the
 tracker hands to the face detector around a tracked face, and the minimum and
 maximum object sizes it passes along with that region.
 */
module Geometry {

  /** An OpenCV `cv::Rect`: origin and extent, in pixels. */
  datatype Rect = Rect(x: int, y: int, width: int, height: int)

  /** An OpenCV `cv::Size`. */
  datatype Size = Size(width: int, height: int)

  /** C++ integer division by two: truncates toward zero. */
  function Half(n: int): (h: int)
    ensures n >= 0 ==> 0 <= h <= n && 2 * h <= n < 2 * h + 2
    ensures n < 0 ==> n <= h <= 0 && 2 * h - 2 < n <= 2 * h
  {
    if n >= 0 then n / 2 else -((-n) / 2)
  }

  function Min(a: int, b: int): int { if a <= b then a else b }
  function Max(a: int, b: int): int { if a >= b then a else b }

  /** The box lies inside a frame of the given size, with a non-negative extent. */
  predicate InsideFrame(r: Rect, frame: Size)
  {
    0 <= r.x && 0 <= r.width && r.x + r.width <= frame.width &&
    0 <= r.y && 0 <= r.height && r.y + r.height <= frame.height
  }

  /** The box lies inside `outer`, given in coordinates local to `outer`'s origin. */
  predicate InsideLocal(r: Rect, outer: Rect)
  {
    InsideFrame(r, Size(outer.width, outer.height))
  }

  /** Box `r`, given in frame coordinates, lies within box `outer`, also in frame coordinates. */
  predicate Within(r: Rect, outer: Rect)
  {
    outer.x <= r.x && 0 <= r.width && r.x + r.width <= outer.x + outer.width &&
    outer.y <= r.y && 0 <= r.height && r.y + r.height <= outer.y + outer.height
  }

  /**
   A box found in the search region `roi`, in coordinates local to the region,
   moved back to frame coordinates, as `faces[0].x += roi.x` does: the extent is
   kept, and a box inside the region lands within the region in the frame.
   */
  function Translate(r: Rect, roi: Rect): (t: Rect)
    ensures t.width == r.width && t.height == r.height
    ensures t.x - r.x == roi.x && t.y - r.y == roi.y
    ensures InsideLocal(r, roi) ==> Within(t, roi)
  {
    Rect(r.x + roi.x, r.y + roi.y, r.width, r.height)
  }

  /**
   The doubled box before clipping: twice as wide and high, origin moved by half
   the extent. It keeps the input's centre for an even extent; for an odd one the
   truncating half moves the centre half a pixel right (or down). Measured in half
   pixels: twice the centre.
   */
  function Doubled(r: Rect): (d: Rect)
    ensures d.width == 2 * r.width && d.height == 2 * r.height
    ensures d.x + Half(r.width) == r.x && d.y + Half(r.height) == r.y
    ensures r.width >= 0 ==> 2 * d.x + d.width == 2 * r.x + r.width + r.width % 2
    ensures r.height >= 0 ==> 2 * d.y + d.height == 2 * r.y + r.height + r.height % 2
  {
    Rect(r.x - Half(r.width), r.y - Half(r.height), r.width * 2, r.height * 2)
  }

  /**
   `doubleRectSize`: doubles the box about its centre and then clips it to the
   frame. A left or top overhang is taken off the width or height and the origin
   moves to 0; a right or bottom overhang is cut back to the frame size. On each
   axis the result is the doubled span intersected with [0, frame size], never
   re-centred.
   */
  function DoubleRectSize(r: Rect, frame: Size): (out: Rect)
    ensures out.x == Max(Doubled(r).x, 0)
    ensures out.x + out.width == Min(Doubled(r).x + Doubled(r).width, frame.width)
    ensures out.y == Max(Doubled(r).y, 0)
    ensures out.y + out.height == Min(Doubled(r).y + Doubled(r).height, frame.height)
  {
    var d := Doubled(r);
    // a left or top overhang shrinks the box and moves its origin to 0
    var x, w := if d.x < 0 then 0 else d.x, if d.x < 0 then d.width + d.x else d.width;
    var y, h := if d.y < 0 then 0 else d.y, if d.y < 0 then d.height + d.y else d.height;
    // a right or bottom overhang is cut back to the frame
    var w' := if x + w > frame.width then frame.width - x else w;
    var h' := if y + h > frame.height then frame.height - y else h;
    Rect(x, y, w', h')
  }

  /** When the doubled box fits in the frame it is returned unchanged. */
  lemma DoubleRectNoClipping(r: Rect, frame: Size)
    requires 0 <= Doubled(r).x && Doubled(r).x + Doubled(r).width <= frame.width
    requires 0 <= Doubled(r).y && Doubled(r).y + Doubled(r).height <= frame.height
    ensures DoubleRectSize(r, frame) == Rect(r.x - Half(r.width), r.y - Half(r.height), 2 * r.width, 2 * r.height)
  {
  }

  /**
   A box inside the frame yields a search region inside the frame with a
   non-negative extent; the region still covers the whole box.
   */
  lemma DoubleRectClipping(r: Rect, frame: Size)
    requires InsideFrame(r, frame)
    ensures InsideFrame(DoubleRectSize(r, frame), frame)
    ensures var out := DoubleRectSize(r, frame);
      out.x <= r.x && r.x + r.width <= out.x + out.width &&
      out.y <= r.y && r.y + r.height <= out.y + out.height
  {
  }

  /**
   The size hints passed to the ROI detector call: the minimum is 40% of the
   region's width and height, the maximum is 60% of the region's WIDTH in both
   dimensions (truncating integer arithmetic).
   */
  function SizeHints(roi: Rect): (hints: (Size, Size))
    requires roi.width >= 0 && roi.height >= 0
    ensures hints.1.width == hints.1.height
    ensures 10 * hints.0.width <= 4 * roi.width < 10 * hints.0.width + 10
    ensures 10 * hints.0.height <= 4 * roi.height < 10 * hints.0.height + 10
    ensures 10 * hints.1.width <= 6 * roi.width < 10 * hints.1.width + 10
  {
    (Size(roi.width * 4 / 10, roi.height * 4 / 10), Size(roi.width * 6 / 10, roi.width * 6 / 10))
  }

  /**
   Because the maximum's height is taken from the region's width, the hints agree
   only for regions that are not too tall: a region at most 3/2 as high as it is
   wide gets a minimum no larger than the maximum, while a region more than
   3/2 as high as wide (by a margin that covers the truncation) gets a minimum
   height above the maximum height, so no window size satisfies both hints.
   */
  lemma SizeHintsOrder(roi: Rect)
    requires roi.width >= 0 && roi.height >= 0
    ensures SizeHints(roi).0.width <= SizeHints(roi).1.width
    ensures 2 * roi.height <= 3 * roi.width ==> SizeHints(roi).0.height <= SizeHints(roi).1.height
    ensures 4 * roi.height >= 6 * roi.width + 10 ==> SizeHints(roi).0.height > SizeHints(roi).1.height
  {
  }

  /** A tall search region, such as one cut narrow at a frame edge, gets inconsistent hints. */
  lemma SizeHintsTallRegion()
    ensures var hints := SizeHints(Rect(0, 0, 40, 100));
      hints.0 == Size(16, 40) && hints.1 == Size(24, 24) && hints.0.height > hints.1.height
  {
  }
}
