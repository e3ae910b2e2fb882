/** The arithmetic of the preview widget: clamping drag points, Qt 5 rectangles,
    scaling a rectangle between display and original coordinates, fitting a frame
    into the preview label, and the "mm:ss / mm:ss" time text. */
module PreviewGeometry {
  import opened Wrappers
  import opened Text

  datatype Point = Point(x: int, y: int)

  datatype Size = Size(width: int, height: int)

  predicate Positive(s: Size)
  {
    s.width > 0 && s.height > 0
  }

  /** max(lo, min(v, hi)), as the drag handlers write it. */
  function Clamp(v: int, lo: int, hi: int): (r: int)
    ensures lo <= hi ==> lo <= r <= hi
    ensures lo <= v <= hi ==> r == v
    ensures v < lo ==> r == lo
    ensures lo <= hi < v ==> r == hi
  {
    if v < lo then lo else if v > hi then (if hi < lo then lo else hi) else v
  }

  /** A drag point clamped to the displayed image lies inside it. */
  function ClampToDisplay(x: int, y: int, display: Size): (p: Point)
    ensures display.width >= 1 ==> 0 <= p.x < display.width
    ensures display.height >= 1 ==> 0 <= p.y < display.height
    ensures 0 <= x < display.width ==> p.x == x
    ensures 0 <= y < display.height ==> p.y == y
  {
    Point(Clamp(x, 0, display.width - 1), Clamp(y, 0, display.height - 1))
  }

  // ---------------------------------------------------------------------------
  // Qt 5 QRect: the corners (x1, y1) and (x2, y2) are both inside the rectangle
  // ---------------------------------------------------------------------------

  datatype Rect = Rect(x1: int, y1: int, x2: int, y2: int)

  /** QRect(): the null rectangle. */
  const NullRect: Rect := Rect(0, 0, -1, -1)

  /** QRect(topLeft, bottomRight) from two points. */
  function FromPoints(p: Point, q: Point): Rect
  {
    Rect(p.x, p.y, q.x, q.y)
  }

  /** QRect(x, y, width, height). */
  function FromXYWH(x: int, y: int, width: int, height: int): Rect
  {
    Rect(x, y, x + width - 1, y + height - 1)
  }

  function Width(r: Rect): int
  {
    r.x2 - r.x1 + 1
  }

  function Height(r: Rect): int
  {
    r.y2 - r.y1 + 1
  }

  predicate IsEmpty(r: Rect)
  {
    r.x1 > r.x2 || r.y1 > r.y2
  }

  /** Qt 5 QRect::normalized: a side is swapped only when it is shorter than -1
      pixel wide, so a rectangle of width 0 stays as it is. */
  function Normalized(r: Rect): (n: Rect)
    ensures Width(n) >= 0 && Height(n) >= 0
  {
    var (x1, x2) := if r.x2 < r.x1 - 1 then (r.x2, r.x1) else (r.x1, r.x2);
    var (y1, y2) := if r.y2 < r.y1 - 1 then (r.y2, r.y1) else (r.y1, r.y2);
    Rect(x1, y1, x2, y2)
  }

  /** x, y, width and height give back the rectangle they describe. */
  lemma XYWHRoundTrip(r: Rect)
    ensures FromXYWH(r.x1, r.y1, Width(r), Height(r)) == r
    ensures forall x, y, w, h :: Width(FromXYWH(x, y, w, h)) == w && Height(FromXYWH(x, y, w, h)) == h
  {
  }

  /** The selection dragged between two points: it is empty exactly when the drag
      ends one pixel left of or above where it started, and otherwise it is the
      bounding box of the two points. */
  lemma DragSelection(start: Point, current: Point)
    ensures var r := Normalized(FromPoints(start, current));
      && (IsEmpty(r) <==> current.x == start.x - 1 || current.y == start.y - 1)
      && (!IsEmpty(r) ==>
            && r.x1 == Min(start.x, current.x) && r.x2 == Max(start.x, current.x)
            && r.y1 == Min(start.y, current.y) && r.y2 == Max(start.y, current.y))
  {
  }

  function Min(a: int, b: int): int { if a <= b then a else b }

  function Max(a: int, b: int): int { if a <= b then b else a }

  /** A selection dragged between two points of the displayed image lies inside
      the image. */
  lemma SelectionInsideDisplay(start: Point, current: Point, display: Size)
    requires 0 <= start.x < display.width && 0 <= start.y < display.height
    requires 0 <= current.x < display.width && 0 <= current.y < display.height
    ensures var r := Normalized(FromPoints(start, current));
      0 <= r.x1 && r.x2 < display.width && 0 <= r.y1 && r.y2 < display.height
  {
  }

  // ---------------------------------------------------------------------------
  // Scaling between display and original coordinates
  // ---------------------------------------------------------------------------

  datatype ScaleError = DivisionByZero

  /** Python's int() on a float: truncation toward zero. */
  function Trunc(r: real): (n: int)
    ensures r >= 0.0 ==> n == r.Floor && 0 <= n
    ensures r < 0.0 ==> n == -((-r).Floor) && n <= 0
  {
    if r >= 0.0 then r.Floor else -((-r).Floor)
  }

  /** One component scaled by the ratio to / from, truncated. */
  function Scale(v: int, from: int, to: int): int
    requires from != 0
  {
    Trunc(v as real * (to as real / from as real))
  }

  /** scale_rect_to_original and scale_rect_to_pixmap: x, y, width and height
      each multiplied by the ratio of the target size to the source size and
      truncated; a zero source side raises ZeroDivisionError. */
  function ScaleRect(r: Rect, from: Size, to: Size): (result: Result<Rect, ScaleError>)
    ensures result.Failure? <==> from.width == 0 || from.height == 0
  {
    if from.width == 0 || from.height == 0 then Failure(DivisionByZero)
    else Success(FromXYWH(Scale(r.x1, from.width, to.width), Scale(r.y1, from.height, to.height),
                          Scale(Width(r), from.width, to.width), Scale(Height(r), from.height, to.height)))
  }

  lemma ScaleSameSize(v: int, side: int)
    requires side != 0
    ensures Scale(v, side, side) == v
  {
    assert side as real / side as real == 1.0;
  }

  /** Scaling between equal sizes gives the rectangle back. */
  lemma ScaleIdentity(r: Rect, size: Size)
    requires size.width != 0 && size.height != 0
    ensures ScaleRect(r, size, size) == Success(r)
  {
    ScaleSameSize(r.x1, size.width);
    ScaleSameSize(r.y1, size.height);
    ScaleSameSize(Width(r), size.width);
    ScaleSameSize(Height(r), size.height);
    XYWHRoundTrip(r);
  }

  /** A non-negative component scaled there and back never grows. */
  lemma ScaleBackNeverGrows(v: int, a: int, b: int)
    requires v >= 0 && a > 0 && b > 0
    ensures 0 <= Scale(Scale(v, a, b), b, a) <= v
  {
    var there := v as real * (b as real / a as real);
    var n := Scale(v, a, b);
    assert 0 <= n && n as real <= there;
    var back := n as real * (a as real / b as real);
    assert there * (a as real / b as real) == v as real;
    ScaleNonDecreasing(n as real, there, a as real / b as real);
    assert back <= v as real;
  }

  lemma ScaleNonDecreasing(u: real, w: real, ratio: real)
    requires 0.0 <= u <= w && ratio >= 0.0
    ensures 0.0 <= u * ratio <= w * ratio
  {
    assert w * ratio - u * ratio == (w - u) * ratio;
  }

  /** Scaling a rectangle with non-negative corner and sides there and back
      never makes any of x, y, width or height larger. */
  lemma ScaleRoundTripNeverGrows(r: Rect, display: Size, original: Size)
    requires Positive(display) && Positive(original)
    requires r.x1 >= 0 && r.y1 >= 0 && Width(r) >= 0 && Height(r) >= 0
    ensures var there := ScaleRect(r, display, original).value;
      var back := ScaleRect(there, original, display).value;
      && 0 <= back.x1 <= r.x1 && 0 <= back.y1 <= r.y1
      && 0 <= Width(back) <= Width(r) && 0 <= Height(back) <= Height(r)
  {
    ScaleBackNeverGrows(r.x1, display.width, original.width);
    ScaleBackNeverGrows(r.y1, display.height, original.height);
    ScaleBackNeverGrows(Width(r), display.width, original.width);
    ScaleBackNeverGrows(Height(r), display.height, original.height);
  }

  /** For non-negative values, the truncated products of two parts add up to at
      most the truncated product of the whole, which is at most the target side
      when the whole is at most the source side. */
  lemma ScaledPartsWithin(x: int, w: int, from: int, to: int)
    requires x >= 0 && w >= 0 && x + w <= from && from > 0 && to >= 0
    ensures 0 <= Scale(x, from, to) && 0 <= Scale(w, from, to)
    ensures Scale(x, from, to) + Scale(w, from, to) <= to
  {
    var ratio := to as real / from as real;
    var a := x as real * ratio;
    var b := w as real * ratio;
    ScaleNonDecreasing(0.0, x as real, ratio);
    ScaleNonDecreasing(0.0, w as real, ratio);
    WholeWithinTarget(x + w, from, to);
    assert (x + w) as real * ratio == a + b;
    FloorsWithin(a, b, to);
  }

  lemma WholeWithinTarget(v: int, from: int, to: int)
    requires 0 <= v <= from && from > 0 && to >= 0
    ensures v as real * (to as real / from as real) <= to as real
  {
    var ratio := to as real / from as real;
    ScaleNonDecreasing(v as real, from as real, ratio);
    assert from as real * ratio == to as real;
  }

  lemma FloorsWithin(a: real, b: real, t: int)
    requires 0.0 <= a && 0.0 <= b && a + b <= t as real
    ensures a.Floor + b.Floor <= t
  {
    assert a.Floor as real <= a && b.Floor as real <= b;
  }

  /** A selection inside the displayed image scales to a region inside the
      original frame: x, y, width and height are non-negative and x + width and
      y + height stay within the frame. */
  lemma ScaledSelectionInsideFrame(r: Rect, display: Size, original: Size)
    requires Positive(display) && original.width >= 0 && original.height >= 0
    requires !IsEmpty(r) && 0 <= r.x1 && r.x2 < display.width && 0 <= r.y1 && r.y2 < display.height
    ensures var o := ScaleRect(r, display, original).value;
      && 0 <= o.x1 && 0 <= Width(o) && o.x1 + Width(o) <= original.width
      && 0 <= o.y1 && 0 <= Height(o) && o.y1 + Height(o) <= original.height
  {
    ScaledPartsWithin(r.x1, Width(r), display.width, original.width);
    ScaledPartsWithin(r.y1, Height(r), display.height, original.height);
  }

  // ---------------------------------------------------------------------------
  // Fitting a frame into the label
  // ---------------------------------------------------------------------------

  /** The frame scaled to the label keeping its aspect ratio: to the label's
      height when the label is relatively wider than the frame, else to its
      width. */
  function Fit(labelSize: Size, frame: Size): Size
    requires labelSize.height > 0 && labelSize.width >= 0 && Positive(frame)
  {
    var aspect := frame.width as real / frame.height as real;
    if labelSize.width as real / labelSize.height as real > aspect then
      Size(Trunc(aspect * labelSize.height as real), labelSize.height)
    else
      Size(labelSize.width, Trunc(labelSize.width as real / aspect))
  }

  /** The offsets that centre an image of the given size in the label, with
      Python's floor division. */
  function Centre(labelSize: Size, image: Size): Point
  {
    Point((labelSize.width - image.width) / 2, (labelSize.height - image.height) / 2)
  }

  /** The fitted image fills the label in one direction, is no larger in the
      other, and the centring offsets keep it inside the label. */
  lemma FitInsideLabel(labelSize: Size, frame: Size)
    requires labelSize.height > 0 && labelSize.width >= 0 && Positive(frame)
    ensures var fitted := Fit(labelSize, frame);
      var offset := Centre(labelSize, fitted);
      && 0 <= fitted.width <= labelSize.width && 0 <= fitted.height <= labelSize.height
      && (fitted.width == labelSize.width || fitted.height == labelSize.height)
      && 0 <= offset.x && offset.x + fitted.width <= labelSize.width
      && 0 <= offset.y && offset.y + fitted.height <= labelSize.height
  {
    var aspect := frame.width as real / frame.height as real;
    var lw := labelSize.width as real;
    var lh := labelSize.height as real;
    assert aspect > 0.0;
    if lw / lh > aspect {
      FitByHeight(lw, lh, aspect);
    } else {
      FitByWidth(lw, lh, aspect);
    }
  }

  lemma FitByHeight(lw: real, lh: real, aspect: real)
    requires lh > 0.0 && lw >= 0.0 && aspect > 0.0 && lw / lh > aspect
    ensures 0.0 <= aspect * lh <= lw
  {
    ScaleNonDecreasing(aspect, lw / lh, lh);
    assert lw / lh * lh == lw;
  }

  lemma FitByWidth(lw: real, lh: real, aspect: real)
    requires lh > 0.0 && lw >= 0.0 && aspect > 0.0 && lw / lh <= aspect
    ensures 0.0 <= lw / aspect <= lh
  {
    var q := lw / aspect;
    assert q * aspect == lw;
    assert (lw / lh) * lh == lw;
    if q > lh {
      ScaleNonDecreasing(lh, q, aspect);
      assert lh * aspect <= lw;
      ScaleNonDecreasing(lw / lh, aspect, lh);
    }
  }

  // ---------------------------------------------------------------------------
  // The time display
  // ---------------------------------------------------------------------------

  /** The frame rate used for the display: 30 when the reported one is not
      positive. */
  function DisplayFps(fps: real): (r: real)
    ensures r > 0.0
    ensures fps > 0.0 ==> r == fps
  {
    if fps <= 0.0 then 30.0 else fps
  }

  /** The whole seconds of a frame count at a rate, split by divmod(..., 60). */
  function MinutesSeconds(frames: int, fps: real): (int, int)
    requires fps > 0.0
  {
    var whole := Trunc(frames as real / fps);
    (whole / 60, whole % 60)
  }

  /** The seconds are 0..59 and minutes * 60 + seconds gives the whole seconds
      back; for a non-negative frame count the minutes are non-negative and the
      whole seconds are the floor of frames / fps. */
  lemma MinutesSecondsSplit(frames: int, fps: real)
    requires fps > 0.0
    ensures var (m, s) := MinutesSeconds(frames, fps);
      && 0 <= s < 60
      && m * 60 + s == Trunc(frames as real / fps)
      && (frames >= 0 ==> m >= 0 && m * 60 + s == (frames as real / fps).Floor)
  {
    if frames >= 0 {
      assert frames as real / fps >= 0.0;
    }
  }

  /** Python's f"{n:02d}": at least two characters, zero-padded; a negative
      number keeps its sign and is not padded further. */
  function Pad2(n: int): (s: string)
    ensures |s| >= 2
    ensures 0 <= n < 100 ==> |s| == 2
  {
    if n < 0 then "-" + NatToString(-n)
    else if n < 10 then "0" + NatToString(n)
    else NatToString(n)
  }

  /** A two-digit field reads back as the number it was written from. */
  lemma Pad2RoundTrip(n: nat)
    ensures IsDigits(Pad2(n)) && DigitsValue(Pad2(n)) == n
  {
    DigitsValueOfNatToString(n);
    if n < 10 {
      var s := Pad2(n);
      assert s[..|s| - 1] == "0";
      assert DigitsValue("0") == 0 by {
        assert "0"[..0] == "";
      }
    }
  }

  /** The text of the time label for a position and a frame total. */
  function TimeText(position: int, totalFrames: int, fps: real): string
  {
    var rate := DisplayFps(fps);
    var (cm, cs) := MinutesSeconds(position, rate);
    var (tm, ts) := MinutesSeconds(totalFrames, rate);
    Pad2(cm) + ":" + Pad2(cs) + " / " + Pad2(tm) + ":" + Pad2(ts)
  }

  /** At an unknown frame rate the display counts 30 frames a second: frame 95 of
      3600 shows as "00:03 / 02:00". */
  lemma TimeTextAtDefaultRate()
    ensures TimeText(95, 3600, 0.0) == "00:03 / 02:00"
  {
    assert MinutesSeconds(95, 30.0) == (0, 3) by {
      assert (95 as real / 30.0).Floor == 3;
    }
    assert MinutesSeconds(3600, 30.0) == (2, 0) by {
      assert (3600 as real / 30.0).Floor == 120;
    }
    assert Pad2(0) == "00" && Pad2(3) == "03" && Pad2(2) == "02" by {
      assert NatToString(0) == "0" && NatToString(3) == "3" && NatToString(2) == "2";
    }
  }
}
