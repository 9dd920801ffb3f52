/**
 * The two image decisions `uploadImage` makes after the checks: whether and to what box to
 * resize (image.php:306-329), and how to turn the picture for its EXIF orientation
 * (image.php:331-352). The pixel work itself belongs to the image library.
 */
module Processing {
  import opened Wrappers

  type Positive = n: int | n > 0 witness 1

  /** `Keep`: no resize call; `ScaleInside(w, h)`: `resize(w, h, false, SCALE_INSIDE)`. */
  datatype Resize = Keep | ScaleInside(width: real, height: real)

  /**
   * The box the picture is fitted into, for configured bounds `w` and `h` and a picture of
   * `iw` by `ih`: a zero bound is derived from the other one so as to keep the aspect ratio.
   */
  function TargetBox(w: int, h: int, iw: Positive, ih: Positive): (box: (real, real))
    requires w != 0 || h != 0
    ensures w == 0 || h == 0 ==> box.0 * (ih as real) == box.1 * (iw as real)
    ensures w != 0 ==> box.0 == w as real
    ensures h != 0 ==> box.1 == h as real
  {
    if w == 0 then ((h as real) / (ih as real) * (iw as real), h as real)
    else if h == 0 then (w as real, (w as real) / (iw as real) * (ih as real))
    else (w as real, h as real)
  }

  /**
   * The resize decision. Nothing happens when both bounds are zero; otherwise the picture is
   * fitted into `TargetBox` when `scale_down` is positive (always scale) or when the box is
   * smaller than the picture in some dimension (only scale down).
   */
  function ResizeFor(w: int, h: int, scaleDown: int, iw: Positive, ih: Positive): (r: Resize)
    ensures w == 0 && h == 0 ==> r == Keep
    ensures (w != 0 || h != 0) && scaleDown > 0 ==> r.ScaleInside?
    ensures r.ScaleInside? ==> (w != 0 || h != 0) && (r.width, r.height) == TargetBox(w, h, iw, ih)
    ensures r.ScaleInside? && w == 0 ==> r.width * (ih as real) == r.height * (iw as real)
    ensures r.ScaleInside? && h == 0 ==> r.width * (ih as real) == r.height * (iw as real)
    ensures (w != 0 || h != 0) && scaleDown <= 0 ==>
              (r.ScaleInside? <==> TargetBox(w, h, iw, ih).0 < iw as real || TargetBox(w, h, iw, ih).1 < ih as real)
    ensures scaleDown <= 0 && w >= iw && h >= ih ==> r == Keep
  {
    if w != 0 || h != 0 then
      var box := TargetBox(w, h, iw, ih);
      if scaleDown > 0 || box.0 < iw as real || box.1 < ih as real then ScaleInside(box.0, box.1) else Keep
    else
      Keep
  }

  lemma RatioBelowOne(a: real, b: real, c: real)
    requires b > 0.0 && c > 0.0
    ensures a / b * c < c <==> a < b
  {
    var q := a / b;
    assert q * b == a;
    if a < b {
      assert q < 1.0;
    } else {
      assert q >= 1.0;
    }
  }

  /**
   * With only a height configured and "scale down only", the derived width shrinks exactly
   * when the height does: the picture is resized iff it is taller than the bound. In exact
   * arithmetic; the source divides in floating point.
   */
  lemma HeightOnlyResizesIffTaller(h: int, scaleDown: int, iw: Positive, ih: Positive)
    requires h != 0 && scaleDown <= 0
    ensures ResizeFor(0, h, scaleDown, iw, ih).ScaleInside? <==> h < ih
  {
    RatioBelowOne(h as real, ih as real, iw as real);
  }

  /** Symmetrically, with only a width configured: resized iff wider than the bound. */
  lemma WidthOnlyResizesIffWider(w: int, scaleDown: int, iw: Positive, ih: Positive)
    requires w != 0 && scaleDown <= 0
    ensures ResizeFor(w, 0, scaleDown, iw, ih).ScaleInside? <==> w < iw
  {
    RatioBelowOne(w as real, iw as real, ih as real);
  }

  /**
   * Clockwise quarter turns, in degrees, that show a picture with a given EXIF orientation
   * upright (EXIF 2.3, tag 0x0112); orientations that also need a mirror image are absent.
   */
  const UprightTurn: map<int, int> := map[1 := 0, 3 := 180, 6 := 90, 8 := 270]

  /** The clockwise turn a `rotate(angle)` call makes; the image library turns anticlockwise. */
  function ClockwiseTurn(rotation: Option<int>): int {
    match rotation
    case None => 0
    case Some(angle) => (-angle) % 360
  }

  /**
   * The rotation applied for an EXIF orientation (`None`: the tag is absent or empty, or no
   * rotate call). Every pure rotation is undone; all other values, mirrored ones included,
   * leave the picture as it is.
   */
  function RotationFor(orientation: Option<int>): (r: Option<int>)
    ensures r.Some? <==> orientation.Some? && orientation.value in {3, 6, 8}
    ensures orientation.Some? && orientation.value in UprightTurn ==>
              ClockwiseTurn(r) == UprightTurn[orientation.value]
  {
    match orientation
    case None => None
    case Some(o) =>
      if o == 3 then Some(180)
      else if o == 6 then Some(-90)
      else if o == 8 then Some(90)
      else None
  }
}
