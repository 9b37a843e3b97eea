/**
 `overlayImage`: blends an overlay image with an alpha channel onto a
 destination image, in place, over the destination's flat byte buffer.

 An image is a view of a byte buffer as OpenCV lays it out: the pixel in row y,
 column x, channel c is the byte at `offset + y * step + x * channels + c`. The
 offset lets a region-of-interest view into a larger frame be expressed: its
 bytes are those of the frame it points into, and every byte of the frame
 outside its pixels must survive the overlay.
 */
module Overlay {

  import opened Wrappers

  newtype byte = b: int | 0 <= b < 256

  /** An OpenCV `cv::Point`. */
  datatype Point = Point(x: int, y: int)

  /** Where an image's pixels sit in its byte buffer (`cv::Mat` data start, rows, cols, step, channels). */
  datatype Layout = Layout(offset: nat, rows: nat, cols: nat, step: nat, channels: nat)

  /** A pixel byte's coordinates: row, column, channel. */
  datatype Coord = Coord(y: nat, x: nat, c: nat)

  /** A well-formed image over a buffer of the given length: rows do not overlap and all fit. */
  predicate WellFormed(m: Layout, length: nat)
  {
    m.channels > 0 && m.cols * m.channels <= m.step &&
    (m.rows > 0 ==> m.offset + (m.rows - 1) * m.step + m.cols * m.channels <= length)
  }

  /** What `overlayImage` needs of its two images: both well-formed, and every channel
      of the destination has a counterpart in the overlay. */
  predicate Compatible(s: Layout, o: Layout, overlay: seq<byte>, length: nat)
  {
    WellFormed(s, length) && WellFormed(o, |overlay|) && s.channels <= o.channels
  }

  /**
   The buffer position of a pixel byte. In an image whose rows fit their step, an
   in-range pixel byte lies inside the span of its own row, so rows never share a byte.
   */
  function Index(m: Layout, y: nat, x: nat, c: nat): (k: nat)
    ensures m.offset <= k
    ensures x < m.cols && c < m.channels && m.cols * m.channels <= m.step ==>
      m.offset + y * m.step <= k < m.offset + y * m.step + m.step
  {
    var k := m.offset + y * m.step + x * m.channels + c;
    if x < m.cols then MulMono(x + 1, m.cols, m.channels); k else k
  }

  lemma MulMono(a: nat, b: nat, k: nat)
    requires a <= b
    ensures a * k <= b * k
  {
  }

  /** Every pixel byte of a well-formed image lies in its buffer. */
  lemma IndexInBounds(m: Layout, length: nat, y: nat, x: nat, c: nat)
    requires WellFormed(m, length) && y < m.rows && x < m.cols && c < m.channels
    ensures Index(m, y, x, c) < length
  {
    MulMono(y, m.rows - 1, m.step);
    MulMono(x + 1, m.cols, m.channels);
  }

  lemma DivBelow(r: nat, d: nat, n: nat)
    requires d > 0 && r < n * d
    ensures r / d < n
  {
    if r / d >= n {
      MulMono(n, r / d, d);
    }
  }

  lemma DivModUnique(n: int, d: int, q: int, r: int)
    requires d > 0 && 0 <= r < d && n == q * d + r
    ensures n / d == q && n % d == r
  {
    var q', r' := n / d, n % d;
    assert (q - q') * d == r' - r;
    if q > q' {
      MulMono(1, q - q', d);
    } else if q < q' {
      MulMono(1, q' - q, d);
    }
  }

  lemma DivMod(n: int, d: int)
    requires d > 0
    ensures n == (n / d) * d + n % d && 0 <= n % d < d
  {
  }

  /** The pixel byte a buffer position belongs to, if any: the inverse of `Index`. */
  function PixelOf(m: Layout, j: nat): (px: Option<Coord>)
    ensures px.Some? ==> px.value.y < m.rows && px.value.x < m.cols && px.value.c < m.channels
    ensures px.Some? ==> Index(m, px.value.y, px.value.x, px.value.c) == j
  {
    if j < m.offset || m.step == 0 || m.channels == 0 then None
    else
      var q, r := (j - m.offset) / m.step, (j - m.offset) % m.step;
      if q < m.rows && r < m.cols * m.channels then
        DivBelow(r, m.channels, m.cols);
        DivMod(j - m.offset, m.step);
        DivMod(r, m.channels);
        Some(Coord(q, r / m.channels, r % m.channels))
      else None
  }

  /** Distinct pixel bytes of a well-formed image have distinct positions. */
  lemma PixelOfIndex(m: Layout, y: nat, x: nat, c: nat)
    requires m.channels > 0 && m.cols * m.channels <= m.step
    requires y < m.rows && x < m.cols && c < m.channels
    ensures PixelOf(m, Index(m, y, x, c)) == Some(Coord(y, x, c))
  {
    var r := x * m.channels + c;
    MulMono(x + 1, m.cols, m.channels);
    DivModUnique(Index(m, y, x, c) - m.offset, m.step, y, r);
    DivModUnique(r, m.channels, x, c);
  }

  lemma ScaleBelow(w: int, k: int)
    requires 0 <= w <= 255 && 0 <= k
    ensures 0 <= w * k <= 255 * k
  {
  }

  lemma DivBetween(n: int, lo: int, hi: int)
    requires 255 * lo <= n <= 255 * hi
    ensures lo <= n / 255 <= hi
  {
    var q, r := n / 255, n % 255;
    assert 255 * q + r == n && 0 <= r < 255;
  }

  /** The weighted sum of two bytes, divided by 255, lies between them. */
  lemma BlendBetween(s: int, o: int, w: int)
    requires 0 <= w <= 255
    ensures var q := (s * (255 - w) + o * w) / 255;
      (s <= q <= o) || (o <= q <= s)
  {
    var n := s * (255 - w) + o * w;
    assert n == 255 * s + w * (o - s);
    if o >= s {
      ScaleBelow(w, o - s);
      DivBetween(n, s, o);
    } else {
      ScaleBelow(w, s - o);
      assert n == 255 * s - w * (s - o);
      DivBetween(n, o, s);
    }
  }

  /**
   The blended byte `src * (1 - a/255) + overlay * a/255`, in exact integer
   arithmetic with truncation: a convex combination of the two bytes.
   */
  function Blend(src: byte, over: byte, a: byte): (r: byte)
    ensures a == 0 ==> r == src
    ensures a == 255 ==> r == over
    ensures (src <= r <= over) || (over <= r <= src)
  {
    BlendBetween(src as int, over as int, a as int);
    ((src as int * (255 - a as int) + over as int * a as int) / 255) as byte
  }

  /** The overlay pixel that lands on destination pixel p lies inside the overlay. */
  predicate Covered(o: Layout, loc: Point, p: Coord)
  {
    loc.y <= p.y && p.y - loc.y < o.rows && loc.x <= p.x && p.x - loc.x < o.cols
  }

  /** The overlay's opacity (its last channel) at overlay pixel (fy, fx). */
  function Opacity(o: Layout, overlay: seq<byte>, fy: nat, fx: nat): (a: byte)
    requires WellFormed(o, |overlay|) && fy < o.rows && fx < o.cols
    ensures Index(o, fy, fx, o.channels - 1) < |overlay| && a == overlay[Index(o, fy, fx, o.channels - 1)]
  {
    IndexInBounds(o, |overlay|, fy, fx, o.channels - 1);
    overlay[Index(o, fy, fx, o.channels - 1)]
  }

  /** The overlay byte for channel c at overlay pixel (fy, fx). */
  function OverlayByte(o: Layout, overlay: seq<byte>, fy: nat, fx: nat, c: nat): (v: byte)
    requires WellFormed(o, |overlay|) && fy < o.rows && fx < o.cols && c < o.channels
    ensures Index(o, fy, fx, c) < |overlay| && v == overlay[Index(o, fy, fx, c)]
  {
    IndexInBounds(o, |overlay|, fy, fx, c);
    overlay[Index(o, fy, fx, c)]
  }

  /** What buffer byte j of the destination becomes. */
  function BlendedAt(d: seq<byte>, s: Layout, o: Layout, overlay: seq<byte>, loc: Point, j: nat): (r: byte)
    requires Compatible(s, o, overlay, |d|) && j < |d|
    ensures PixelOf(s, j).None? ==> r == d[j]
    ensures PixelOf(s, j).Some? ==> var p := PixelOf(s, j).value;
      (!Covered(o, loc, p) ==> r == d[j]) &&
      (Covered(o, loc, p) && Opacity(o, overlay, p.y - loc.y, p.x - loc.x) == 0 ==> r == d[j]) &&
      (Covered(o, loc, p) && Opacity(o, overlay, p.y - loc.y, p.x - loc.x) == 255 ==>
         r == OverlayByte(o, overlay, p.y - loc.y, p.x - loc.x, p.c))
  {
    match PixelOf(s, j)
    case None => d[j]
    case Some(p) =>
      if Covered(o, loc, p) && Opacity(o, overlay, p.y - loc.y, p.x - loc.x) > 0 then
        Blend(d[j], OverlayByte(o, overlay, p.y - loc.y, p.x - loc.x, p.c), Opacity(o, overlay, p.y - loc.y, p.x - loc.x))
      else d[j]
  }

  /** The destination buffer after the overlay. */
  function Overlaid(d: seq<byte>, s: Layout, o: Layout, overlay: seq<byte>, loc: Point): (r: seq<byte>)
    requires Compatible(s, o, overlay, |d|)
    ensures |r| == |d|
    ensures forall j :: 0 <= j < |d| && PixelOf(s, j).None? ==> r[j] == d[j]
  {
    seq(|d|, j requires 0 <= j < |d| => BlendedAt(d, s, o, overlay, loc, j))
  }

  /** Pixel byte at buffer position j comes strictly before (y, x, c) in scan order. */
  predicate Before(px: Option<Coord>, y: int, x: int, c: int)
  {
    px.Some? && (px.value.y < y || (px.value.y == y && (px.value.x < x || (px.value.x == x && px.value.c < c))))
  }

  /**
   The blend loop of `overlayImage`: rows from max(location.y, 0), columns from
   max(location.x, 0), stopping at the first row or column past the overlay, and
   skipping pixels whose opacity is 0.
   */
  method OverlayImage(src: array<byte>, s: Layout, o: Layout, overlay: seq<byte>, loc: Point)
    requires Compatible(s, o, overlay, src.Length)
    modifies src
    ensures src[..] == Overlaid(old(src[..]), s, o, overlay, loc)
  {
    ghost var d := src[..];
    var y := if loc.y > 0 then loc.y else 0;
    while y < s.rows
      invariant 0 <= y && loc.y <= y
      invariant forall j :: 0 <= j < src.Length ==>
        src[j] == if Before(PixelOf(s, j), y, 0, 0) then BlendedAt(d, s, o, overlay, loc, j) else d[j]
    {
      var fY := y - loc.y;
      if fY >= o.rows {
        break;
      }
      var x := if loc.x > 0 then loc.x else 0;
      while x < s.cols
        invariant 0 <= x && loc.x <= x
        invariant forall j :: 0 <= j < src.Length ==>
          src[j] == if Before(PixelOf(s, j), y, x, 0) then BlendedAt(d, s, o, overlay, loc, j) else d[j]
      {
        var fX := x - loc.x;
        if fX >= o.cols {
          break;
        }
        IndexInBounds(o, |overlay|, fY, fX, o.channels - 1);
        var opacity := overlay[Index(o, fY, fX, o.channels - 1)];
        var c := 0;
        while opacity > 0 && c < s.channels
          invariant 0 <= c <= s.channels
          invariant forall j :: 0 <= j < src.Length ==>
            src[j] == if Before(PixelOf(s, j), y, x, c) then BlendedAt(d, s, o, overlay, loc, j) else d[j]
        {
          IndexInBounds(o, |overlay|, fY, fX, c);
          IndexInBounds(s, src.Length, y, x, c);
          PixelOfIndex(s, y, x, c);
          var k := Index(s, y, x, c);
          var overlayPx := overlay[Index(o, fY, fX, c)];
          var srcPx := src[k];
          src[k] := Blend(srcPx, overlayPx, opacity);
          c := c + 1;
        }
        x := x + 1;
      }
      y := y + 1;
    }
    assert forall j :: 0 <= j < src.Length ==> src[..][j] == Overlaid(d, s, o, overlay, loc)[j];
  }

  /**
   Only pixel bytes of the destination are written: every other byte of the
   buffer it views (row padding, the rest of a larger frame) keeps its value.
   */
  lemma OverlayOnlyWritesPixels(d: seq<byte>, s: Layout, o: Layout, overlay: seq<byte>, loc: Point, j: nat)
    requires Compatible(s, o, overlay, |d|) && j < |d|
    requires PixelOf(s, j).None?
    ensures Overlaid(d, s, o, overlay, loc)[j] == d[j]
  {
  }

  /** Destination pixel byte (y, x, c) after the overlay: blended where the overlay covers it with a positive opacity, else unchanged. */
  lemma OverlayPixel(d: seq<byte>, s: Layout, o: Layout, overlay: seq<byte>, loc: Point, y: nat, x: nat, c: nat)
    requires Compatible(s, o, overlay, |d|)
    requires y < s.rows && x < s.cols && c < s.channels
    ensures Index(s, y, x, c) < |d|
    ensures var p := Coord(y, x, c); var k := Index(s, y, x, c);
      Overlaid(d, s, o, overlay, loc)[k] ==
        if Covered(o, loc, p) && Opacity(o, overlay, y - loc.y, x - loc.x) > 0
        then Blend(d[k], OverlayByte(o, overlay, y - loc.y, x - loc.x, c), Opacity(o, overlay, y - loc.y, x - loc.x))
        else d[k]
  {
    IndexInBounds(s, |d|, y, x, c);
    PixelOfIndex(s, y, x, c);
  }

  /**
   A destination pixel byte is left as it was when its row or column comes before
   max(location, 0), when its overlay row or column reaches the overlay's rows or
   columns, or when the overlay's opacity there is 0.
   */
  lemma OverlayUntouched(d: seq<byte>, s: Layout, o: Layout, overlay: seq<byte>, loc: Point, y: nat, x: nat, c: nat)
    requires Compatible(s, o, overlay, |d|)
    requires y < s.rows && x < s.cols && c < s.channels
    requires y < (if loc.y > 0 then loc.y else 0) || x < (if loc.x > 0 then loc.x else 0) ||
             y - loc.y >= o.rows || x - loc.x >= o.cols ||
             (Covered(o, loc, Coord(y, x, c)) && Opacity(o, overlay, y - loc.y, x - loc.x) == 0)
    ensures Index(s, y, x, c) < |d|
    ensures Overlaid(d, s, o, overlay, loc)[Index(s, y, x, c)] == d[Index(s, y, x, c)]
  {
    OverlayPixel(d, s, o, overlay, loc, y, x, c);
  }

  /** Where the overlay is fully opaque, every destination channel takes the overlay's byte for that channel. */
  lemma OverlayFullOpacity(d: seq<byte>, s: Layout, o: Layout, overlay: seq<byte>, loc: Point, y: nat, x: nat, c: nat)
    requires Compatible(s, o, overlay, |d|)
    requires y < s.rows && x < s.cols && c < s.channels
    requires Covered(o, loc, Coord(y, x, c)) && Opacity(o, overlay, y - loc.y, x - loc.x) == 255
    ensures Index(s, y, x, c) < |d|
    ensures Overlaid(d, s, o, overlay, loc)[Index(s, y, x, c)] == OverlayByte(o, overlay, y - loc.y, x - loc.x, c)
  {
    OverlayPixel(d, s, o, overlay, loc, y, x, c);
  }

  /** An overlay that is transparent everywhere leaves the destination buffer as it was. */
  lemma OverlayTransparent(d: seq<byte>, s: Layout, o: Layout, overlay: seq<byte>, loc: Point)
    requires Compatible(s, o, overlay, |d|)
    requires forall fy: nat, fx: nat :: fy < o.rows && fx < o.cols ==> Opacity(o, overlay, fy, fx) == 0
    ensures Overlaid(d, s, o, overlay, loc) == d
  {
    forall j | 0 <= j < |d|
      ensures Overlaid(d, s, o, overlay, loc)[j] == d[j]
    {
      match PixelOf(s, j)
      case None =>
      case Some(p) =>
        if Covered(o, loc, p) {
          assert Opacity(o, overlay, p.y - loc.y, p.x - loc.x) == 0;
        }
    }
  }

  /**
   An overlay of the destination's size placed at the origin and opaque
   everywhere replaces every colour byte of the destination with its own.
   */
  lemma OverlayOpaqueCopy(d: seq<byte>, s: Layout, o: Layout, overlay: seq<byte>)
    requires Compatible(s, o, overlay, |d|)
    requires o.rows == s.rows && o.cols == s.cols
    requires forall fy: nat, fx: nat :: fy < o.rows && fx < o.cols ==> Opacity(o, overlay, fy, fx) == 255
    ensures forall y: nat, x: nat, c: nat :: y < s.rows && x < s.cols && c < s.channels ==>
      Index(s, y, x, c) < |d| && Overlaid(d, s, o, overlay, Point(0, 0))[Index(s, y, x, c)] == OverlayByte(o, overlay, y, x, c)
  {
    forall y: nat, x: nat, c: nat | y < s.rows && x < s.cols && c < s.channels
      ensures Index(s, y, x, c) < |d| && Overlaid(d, s, o, overlay, Point(0, 0))[Index(s, y, x, c)] == OverlayByte(o, overlay, y, x, c)
    {
      OverlayFullOpacity(d, s, o, overlay, Point(0, 0), y, x, c);
    }
  }
}
