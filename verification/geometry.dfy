/**
  Region-of-interest geometry of the scan loop.

  Every tick the scan loop cuts a centred band out of the current video frame
  and hands only that band to the QR decoder; when the countdown ends the same
  band, padded by two pixels above and below, is cropped into the captured
  image. Coordinates are frame pixels. `real` is exact rational arithmetic, so
  the browser's double rounding does not appear here.
 */
module Geometry {

  /** Size of a video frame as the video element reports it (`videoWidth`, `videoHeight`). */
  datatype Frame = Frame(width: nat, height: nat)

  /** An axis-aligned rectangle in frame coordinates, origin at the top-left corner. */
  datatype Rect = Rect(x: real, y: real, width: real, height: real) {

    function Right(): real { x + width }

    function Bottom(): real { y + height }

    /** The vertical coordinate of the rectangle's centre. */
    function CentreY(): real { y + height / 2.0 }
  }

  /** Fraction of the frame width the scan band may use. */
  const WidthFraction: real := 0.8

  /** Upper bound on the scan band's width, in pixels. */
  const MaxScanWidth: real := 800.0

  /** The scan band is three times as wide as it is high. */
  const AspectRatio: real := 3.0

  /** Pixels added above and below the scan band when it is cropped. */
  const CapturePadding: real := 2.0

  function Min(a: real, b: real): (m: real)
    ensures m <= a && m <= b
    ensures m == a || m == b
  {
    if a <= b then a else b
  }

  /** True when `r` lies entirely within the frame `f`. */
  predicate Inside(r: Rect, f: Frame) {
    && 0.0 <= r.x && r.Right() <= f.width as real
    && 0.0 <= r.y && r.Bottom() <= f.height as real
  }

  /** True when `inner` lies entirely within `outer`. */
  predicate Contains(outer: Rect, inner: Rect) {
    && outer.x <= inner.x && inner.Right() <= outer.Right()
    && outer.y <= inner.y && inner.Bottom() <= outer.Bottom()
  }

  /**
    The scan band for a frame: the width is the smaller of 80% of the frame
    width and 800 pixels, the height a third of the width, and the band is
    centred in both directions. It always fits horizontally; vertically it
    fits only when the frame is tall enough (see `ScanAreaInsideIff`).
   */
  function ScanArea(f: Frame): (roi: Rect)
    ensures roi.width <= MaxScanWidth && roi.width <= WidthFraction * f.width as real
    ensures roi.width == MaxScanWidth || roi.width == WidthFraction * f.width as real
    ensures roi.height * AspectRatio == roi.width
    ensures roi.x + roi.width + roi.x == f.width as real
    ensures roi.y + roi.height + roi.y == f.height as real
    ensures 0.0 <= roi.x && roi.Right() <= f.width as real
    ensures 0.0 < roi.width <==> 0 < f.width
  {
    var w := Min(f.width as real * WidthFraction, MaxScanWidth);
    var h := w / AspectRatio;
    Rect((f.width as real - w) / 2.0, (f.height as real - h) / 2.0, w, h)
  }

  /**
    True when the band holds no whole pixel. Reading image data truncates the
    band's width and height to integers and refuses a zero width or height,
    so such a band cannot be read.
   */
  predicate EmptyBand(r: Rect) {
    r.width < 1.0 || r.height < 1.0
  }

  /**
    The band of a frame is empty exactly when the frame is at most three
    pixels wide: below 3.75 pixels of frame width the band is less than one
    pixel high.
   */
  lemma EmptyBandIffNarrow(f: Frame)
    ensures EmptyBand(ScanArea(f)) <==> f.width <= 3
  {
  }

  /** The scan band lies inside the frame exactly when the frame is at least as high as the band. */
  lemma ScanAreaInsideIff(f: Frame)
    ensures Inside(ScanArea(f), f) <==> ScanArea(f).height <= f.height as real
    ensures Inside(ScanArea(f), f) <==> 0.0 <= ScanArea(f).y
  {
  }

  /**
    A frame no wider than 3.75 times its height always holds its scan band:
    the band is at most 4/15 of the frame width high. A 1280x720 frame, the
    resolution the camera is asked for, is such a frame.
   */
  lemma ModerateAspectFitsInside(f: Frame)
    requires 4 * f.width <= 15 * f.height
    ensures Inside(ScanArea(f), f)
  {
  }

  /** A very wide frame: the band sticks out above and below it. */
  lemma WideFrameEscapesVertically()
    ensures !Inside(ScanArea(Frame(3000, 240)), Frame(3000, 240))
    ensures ScanArea(Frame(3000, 240)).y < 0.0
  {
  }

  /**
    The rectangle cropped into the captured image: the scan band with the same
    left edge and width, extended by `CapturePadding` pixels upward and
    downward.
   */
  function CaptureArea(roi: Rect): (c: Rect)
    ensures c.x == roi.x && c.width == roi.width
    ensures roi.y - c.y == CapturePadding
    ensures c.Bottom() - roi.Bottom() == CapturePadding
    ensures c.CentreY() == roi.CentreY()
    ensures Contains(c, roi)
  {
    Rect(roi.x, roi.y - CapturePadding, roi.width, roi.height + 2.0 * CapturePadding)
  }

  /**
    The padding is not clipped to the frame: a band that exactly fills the
    frame's height yields a capture rectangle two pixels outside it.
   */
  lemma CaptureMayLeaveFrame()
    ensures Inside(ScanArea(Frame(300, 80)), Frame(300, 80))
    ensures !Inside(CaptureArea(ScanArea(Frame(300, 80))), Frame(300, 80))
  {
  }
}
