/**
  The crop rectangle under the pointer and the keyboard, in normalized image
  coordinates taken as exact reals. Rounding of `f32` is not modelled.
 */
module CropGeometry {
  import opened Arith
  import opened Wrappers
  import opened CropPixels

  const DEFAULT_CROP_MARGIN: real := 0.1
  const MINIMUM_CROP_SPAN: real := 0.02

  datatype CropHandle = TopLeft | Top | TopRight | Right | BottomRight | Bottom | BottomLeft | Left

  datatype Size = Size(width: U32, height: U32)

  function Abs(x: real): (r: real)
    ensures r >= x && r >= -x && (r == x || r == -x)
  {
    if x >= 0.0 then x else -x
  }

  function Mid(a: real, b: real): real {
    (a + b) / 2.0
  }

  function Mul(a: real, b: real): real {
    a * b
  }

  function Div(a: real, b: real): real
    requires b != 0.0
  {
    a / b
  }

  function PixelAspect(image: Size, ratio: CropRatio): Option<real> {
    if image.width == 0 || image.height == 0 then None
    else match ratio
      case Original => Some(Div(image.width as real, image.height as real))
      case Fixed(w, h) => if w != 0 && h != 0 then Some(Div(w as real, h as real)) else None
      case Free => None
  }

  /** The aspect a crop must have in normalized coordinates, if its ratio is locked. */
  function UvAspect(image: Size, ratio: CropRatio): Option<real> {
    match PixelAspect(image, ratio)
    case None => None
    case Some(aspect) => Some(Div(Mul(aspect, image.height as real), image.width as real))
  }

  function Width(r: UvRect): real {
    r.right - r.left
  }

  function Height(r: UvRect): real {
    r.bottom - r.top
  }

  // ----- what a crop must be

  ghost predicate InUnitSquare(r: UvRect) {
    0.0 <= r.left <= r.right <= 1.0 && 0.0 <= r.top <= r.bottom <= 1.0
  }

  ghost predicate HasAspect(r: UvRect, aspect: Option<real>) {
    aspect.Some? ==> aspect.value > 0.0 && Width(r) == Mul(Height(r), aspect.value)
  }

  ghost predicate WideEnough(r: UvRect) {
    Width(r) >= MINIMUM_CROP_SPAN && Height(r) >= MINIMUM_CROP_SPAN
  }

  /** Inside the image, at the exact locked aspect, and no span below the minimum. */
  ghost predicate GoodCrop(r: UvRect, aspect: Option<real>) {
    InUnitSquare(r) && WideEnough(r) && HasAspect(r, aspect)
  }

  // ----- products and quotients

  lemma DivUndoes(x: real, a: real)
    requires a != 0.0
    ensures Mul(Div(x, a), a) == x
  {
  }

  lemma MulGrows(x: real, y: real, a: real)
    requires a > 0.0
    ensures x <= y <==> Mul(x, a) <= Mul(y, a)
  {
    assert y * a - x * a == (y - x) * a;
  }

  lemma DivGrows(x: real, y: real, a: real)
    requires a > 0.0
    ensures x <= y <==> Div(x, a) <= Div(y, a)
  {
    DivUndoes(x, a);
    DivUndoes(y, a);
    MulGrows(Div(x, a), Div(y, a), a);
  }

  lemma DivIsInverse(w: real, h: real, a: real)
    requires a > 0.0
    ensures w == Mul(h, a) <==> h == Div(w, a)
  {
    DivUndoes(w, a);
  }

  lemma MulPositive(x: real, a: real)
    requires a > 0.0
    ensures x > 0.0 <==> Mul(x, a) > 0.0
    ensures x >= 0.0 <==> Mul(x, a) >= 0.0
  {
    MulGrows(0.0, x, a);
    MulGrows(x, 0.0, a);
  }

  lemma MulRegroups(x: real, a: real, s: real)
    ensures Mul(Mul(x, a), s) == Mul(Mul(x, s), a)
  {
    assert (x * a) * s == (x * s) * a;
  }

  // ----- fitting an extent of fixed aspect

  function DesiredWidth(desiredWidth: real, desiredHeight: real, aspect: real): real {
    MaxReal(MaxReal(MaxReal(desiredWidth, Mul(desiredHeight, aspect)), MINIMUM_CROP_SPAN), Mul(MINIMUM_CROP_SPAN, aspect))
  }

  lemma DesiredIsPositive(desiredWidth: real, desiredHeight: real, aspect: real)
    requires aspect > 0.0
    ensures var w := DesiredWidth(desiredWidth, desiredHeight, aspect);
      w >= MINIMUM_CROP_SPAN && Div(w, aspect) >= MINIMUM_CROP_SPAN
  {
    var w := DesiredWidth(desiredWidth, desiredHeight, aspect);
    DivGrows(Mul(MINIMUM_CROP_SPAN, aspect), w, aspect);
    DivIsInverse(Mul(MINIMUM_CROP_SPAN, aspect), MINIMUM_CROP_SPAN, aspect);
  }

  function FitLockedExtent(
    desiredWidth: real, desiredHeight: real, maximumWidth: real, maximumHeight: real, aspect: real
  ): (real, real)
    requires aspect > 0.0
  {
    DesiredIsPositive(desiredWidth, desiredHeight, aspect);
    var width := DesiredWidth(desiredWidth, desiredHeight, aspect);
    var height := Div(width, aspect);
    var scale := Clamp(MinReal(Div(maximumWidth, width), Div(maximumHeight, height)), 0.0, 1.0);
    (Mul(width, scale), Mul(height, scale))
  }

  /** Scaling into a box yields the smallest of the extent and the two limits. */
  lemma ScaledToFit(width: real, height: real, maxWidth: real, maxHeight: real, aspect: real)
    requires aspect > 0.0 && width > 0.0 && height > 0.0 && width == Mul(height, aspect)
    requires maxWidth >= 0.0 && maxHeight >= 0.0
    ensures var scale := Clamp(MinReal(Div(maxWidth, width), Div(maxHeight, height)), 0.0, 1.0);
      && Mul(width, scale) == MinReal(MinReal(width, maxWidth), Mul(maxHeight, aspect))
      && Mul(width, scale) == Mul(Mul(height, scale), aspect)
  {
    var p, q := Div(maxWidth, width), Div(maxHeight, height);
    var scale := Clamp(MinReal(p, q), 0.0, 1.0);
    DivUndoes(maxWidth, width);
    DivUndoes(maxHeight, height);
    DivGrows(0.0, maxWidth, width);
    DivGrows(0.0, maxHeight, height);
    MulRegroups(height, aspect, scale);
    MulRegroups(height, aspect, q);
    ScaleProducts(width, p, q, scale);
    assert Mul(height, q) == maxHeight by {
      assert height * q == q * height;
    }
  }

  lemma ScaleProducts(width: real, p: real, q: real, scale: real)
    requires width > 0.0 && p >= 0.0 && q >= 0.0 && scale == MinReal(MinReal(p, q), 1.0)
    ensures Mul(width, scale) == MinReal(MinReal(width, Mul(p, width)), Mul(width, q))
  {
    MulGrows(p, q, width);
    MulGrows(p, 1.0, width);
    MulGrows(q, 1.0, width);
    assert width * q == q * width && width * scale == scale * width;
    MulGrows(q, p, width);
    MulGrows(1.0, p, width);
    MulGrows(1.0, q, width);
  }

  /**
    The fitted extent has the exact aspect and is the desired one cut down to the room:
    never larger than the room, and as large as some crop of that aspect already there.
   */
  lemma FittedExtent(
    desiredWidth: real, desiredHeight: real, maxWidth: real, maxHeight: real, aspect: real, fitsHeight: real
  )
    requires aspect > 0.0 && MINIMUM_CROP_SPAN <= fitsHeight <= maxHeight
    requires MINIMUM_CROP_SPAN <= Mul(fitsHeight, aspect) <= maxWidth
    ensures var (w, h) := FitLockedExtent(desiredWidth, desiredHeight, maxWidth, maxHeight, aspect);
      && w == Mul(h, aspect)
      && w == MinReal(MinReal(DesiredWidth(desiredWidth, desiredHeight, aspect), maxWidth), Mul(maxHeight, aspect))
      && MINIMUM_CROP_SPAN <= w <= maxWidth && MINIMUM_CROP_SPAN <= h <= maxHeight
  {
    var width := DesiredWidth(desiredWidth, desiredHeight, aspect);
    var height := Div(width, aspect);
    DesiredIsPositive(desiredWidth, desiredHeight, aspect);
    DivUndoes(width, aspect);
    ScaledToFit(width, height, maxWidth, maxHeight, aspect);
    var (w, h) := FitLockedExtent(desiredWidth, desiredHeight, maxWidth, maxHeight, aspect);
    MulGrows(fitsHeight, maxHeight, aspect);
    MulGrows(MINIMUM_CROP_SPAN, fitsHeight, aspect);
    MulGrows(MINIMUM_CROP_SPAN, h, aspect);
    MulGrows(h, maxHeight, aspect);
    MulGrows(MINIMUM_CROP_SPAN, height, aspect);
  }

  // ----- dragging a handle

  function LockedCorner(
    anchorX: real, anchorY: real, pointerX: real, pointerY: real, leftward: bool, upward: bool, aspect: real
  ): UvRect
    requires aspect > 0.0
  {
    var maximumWidth := if leftward then anchorX else 1.0 - anchorX;
    var maximumHeight := if upward then anchorY else 1.0 - anchorY;
    var (width, height) :=
      FitLockedExtent(Abs(pointerX - anchorX), Abs(pointerY - anchorY), maximumWidth, maximumHeight, aspect);
    UvRect(
      if leftward then anchorX - width else anchorX, if upward then anchorY - height else anchorY,
      if leftward then anchorX else anchorX + width, if upward then anchorY else anchorY + height)
  }

  function LockedHorizontalEdge(r: UvRect, handle: CropHandle, pointerX: real, aspect: real): UvRect
    requires aspect > 0.0
  {
    var centerY := Mid(r.top, r.bottom);
    var leftward := handle == Left;
    var anchorX := if leftward then r.right else r.left;
    var maximumWidth := if leftward then anchorX else 1.0 - anchorX;
    var maximumHeight := 2.0 * MinReal(centerY, 1.0 - centerY);
    var (width, height) := FitLockedExtent(Abs(pointerX - anchorX), 0.0, maximumWidth, maximumHeight, aspect);
    UvRect(
      if leftward then anchorX - width else anchorX, centerY - height * 0.5,
      if leftward then anchorX else anchorX + width, centerY + height * 0.5)
  }

  function LockedVerticalEdge(r: UvRect, handle: CropHandle, pointerY: real, aspect: real): UvRect
    requires aspect > 0.0
  {
    var centerX := Mid(r.left, r.right);
    var upward := handle == Top;
    var anchorY := if upward then r.bottom else r.top;
    var maximumWidth := 2.0 * MinReal(centerX, 1.0 - centerX);
    var maximumHeight := if upward then anchorY else 1.0 - anchorY;
    var (width, height) := FitLockedExtent(0.0, Abs(pointerY - anchorY), maximumWidth, maximumHeight, aspect);
    UvRect(
      centerX - width * 0.5, if upward then anchorY - height else anchorY,
      centerX + width * 0.5, if upward then anchorY else anchorY + height)
  }

  function ResizeLocked(r: UvRect, handle: CropHandle, px: real, py: real, aspect: real): UvRect
    requires aspect > 0.0
  {
    match handle
    case TopLeft => LockedCorner(r.right, r.bottom, px, py, true, true, aspect)
    case TopRight => LockedCorner(r.left, r.bottom, px, py, false, true, aspect)
    case BottomRight => LockedCorner(r.left, r.top, px, py, false, false, aspect)
    case BottomLeft => LockedCorner(r.right, r.top, px, py, true, false, aspect)
    case Left => LockedHorizontalEdge(r, handle, px, aspect)
    case Right => LockedHorizontalEdge(r, handle, px, aspect)
    case Top => LockedVerticalEdge(r, handle, py, aspect)
    case Bottom => LockedVerticalEdge(r, handle, py, aspect)
  }

  function ResizeFree(r: UvRect, handle: CropHandle, px: real, py: real): UvRect {
    var nextLeft := MinReal(px, r.right - MINIMUM_CROP_SPAN);
    var nextRight := MaxReal(px, r.left + MINIMUM_CROP_SPAN);
    var nextTop := MinReal(py, r.bottom - MINIMUM_CROP_SPAN);
    var nextBottom := MaxReal(py, r.top + MINIMUM_CROP_SPAN);
    match handle
    case TopLeft => r.(left := nextLeft, top := nextTop)
    case Top => r.(top := nextTop)
    case TopRight => r.(top := nextTop, right := nextRight)
    case Right => r.(right := nextRight)
    case BottomRight => r.(right := nextRight, bottom := nextBottom)
    case Bottom => r.(bottom := nextBottom)
    case BottomLeft => r.(left := nextLeft, bottom := nextBottom)
    case Left => r.(left := nextLeft)
  }

  lemma AspectPositive(image: Size, ratio: CropRatio)
    ensures UvAspect(image, ratio).Some? ==> UvAspect(image, ratio).value > 0.0
  {
    if PixelAspect(image, ratio).Some? {
      var w, h := image.width as real, image.height as real;
      var p := PixelAspect(image, ratio).value;
      QuotientPositive(w, h);
      if ratio.Fixed? {
        QuotientPositive(ratio.width as real, ratio.height as real);
      }
      MulPositive(p, h);
      QuotientPositive(Mul(p, h), w);
    }
  }

  lemma QuotientPositive(x: real, a: real)
    requires x > 0.0 && a > 0.0
    ensures Div(x, a) > 0.0
  {
    DivUndoes(x, a);
    MulPositive(Div(x, a), a);
  }

  /** A pointer drag of one handle, the pointer anywhere. */
  function ResizeFromPointer(
    rect: UvRect, image: Size, ratio: CropRatio, handle: CropHandle, pointerX: real, pointerY: real
  ): UvRect {
    var r := Normalized(rect);
    var px, py := Clamp(pointerX, 0.0, 1.0), Clamp(pointerY, 0.0, 1.0);
    match UvAspect(image, ratio)
    case None => ResizeFree(r, handle, px, py)
    case Some(aspect) =>
      AspectPositive(image, ratio);
      ResizeLocked(r, handle, px, py, aspect)
  }

  /** The parts of the rectangle a drag of this handle may not move. */
  ghost predicate AnchorKept(before: UvRect, after: UvRect, handle: CropHandle) {
    && (handle in {TopLeft, Left, BottomLeft} ==> after.right == before.right)
    && (handle in {TopRight, Right, BottomRight} ==> after.left == before.left)
    && (handle in {TopLeft, Top, TopRight} ==> after.bottom == before.bottom)
    && (handle in {BottomLeft, Bottom, BottomRight} ==> after.top == before.top)
    && (handle in {Left, Right} ==> Mid(after.top, after.bottom) == Mid(before.top, before.bottom))
    && (handle in {Top, Bottom} ==> Mid(after.left, after.right) == Mid(before.left, before.right))
  }

  lemma CornerDragKeeps(r: UvRect, handle: CropHandle, px: real, py: real, aspect: real)
    requires GoodCrop(r, Some(aspect)) && handle in {TopLeft, TopRight, BottomRight, BottomLeft}
    ensures GoodCrop(ResizeLocked(r, handle, px, py, aspect), Some(aspect))
    ensures AnchorKept(r, ResizeLocked(r, handle, px, py, aspect), handle)
  {
    var anchorX := if handle in {TopLeft, BottomLeft} then r.right else r.left;
    var anchorY := if handle in {TopLeft, TopRight} then r.bottom else r.top;
    var maxWidth := if handle in {TopLeft, BottomLeft} then anchorX else 1.0 - anchorX;
    var maxHeight := if handle in {TopLeft, TopRight} then anchorY else 1.0 - anchorY;
    FittedExtent(Abs(px - anchorX), Abs(py - anchorY), maxWidth, maxHeight, aspect, Height(r));
    hide Mul, FitLockedExtent, DesiredWidth;
  }

  lemma EdgeDragKeeps(r: UvRect, handle: CropHandle, px: real, py: real, aspect: real)
    requires GoodCrop(r, Some(aspect)) && handle in {Left, Right, Top, Bottom}
    ensures GoodCrop(ResizeLocked(r, handle, px, py, aspect), Some(aspect))
    ensures AnchorKept(r, ResizeLocked(r, handle, px, py, aspect), handle)
  {
    if handle in {Left, Right} {
      var centerY := Mid(r.top, r.bottom);
      var anchorX := if handle == Left then r.right else r.left;
      var maxWidth := if handle == Left then anchorX else 1.0 - anchorX;
      FittedExtent(Abs(px - anchorX), 0.0, maxWidth, 2.0 * MinReal(centerY, 1.0 - centerY), aspect, Height(r));
    } else {
      var centerX := Mid(r.left, r.right);
      var anchorY := if handle == Top then r.bottom else r.top;
      var maxHeight := if handle == Top then anchorY else 1.0 - anchorY;
      FittedExtent(0.0, Abs(py - anchorY), 2.0 * MinReal(centerX, 1.0 - centerX), maxHeight, aspect, Height(r));
    }
    hide Mul, FitLockedExtent, DesiredWidth;
  }

  lemma FreeDragKeeps(r: UvRect, handle: CropHandle, px: real, py: real)
    requires GoodCrop(r, None) && 0.0 <= px <= 1.0 && 0.0 <= py <= 1.0
    ensures GoodCrop(ResizeFree(r, handle, px, py), None)
    ensures AnchorKept(r, ResizeFree(r, handle, px, py), handle)
  {
  }

  /** A good crop stays good under any drag, and the side opposite the handle stays put. */
  lemma DragKeepsCrop(r: UvRect, image: Size, ratio: CropRatio, handle: CropHandle, px: real, py: real)
    requires GoodCrop(r, UvAspect(image, ratio))
    ensures var after := ResizeFromPointer(r, image, ratio, handle, px, py);
      GoodCrop(after, UvAspect(image, ratio)) && AnchorKept(r, after, handle)
  {
    assert Normalized(r) == r;
    match UvAspect(image, ratio)
    case None => FreeDragKeeps(r, handle, Clamp(px, 0.0, 1.0), Clamp(py, 0.0, 1.0));
    case Some(aspect) =>
      if handle in {Left, Right, Top, Bottom} {
        EdgeDragKeeps(r, handle, Clamp(px, 0.0, 1.0), Clamp(py, 0.0, 1.0), aspect);
      } else {
        CornerDragKeeps(r, handle, Clamp(px, 0.0, 1.0), Clamp(py, 0.0, 1.0), aspect);
      }
  }

  /** How far an edge moved by the pointer may be off it: only to keep the minimum span. */
  ghost predicate EdgeFollows(edge: real, pointer: real, limit: real, below: bool) {
    edge == pointer || (edge == limit && if below then pointer > limit else pointer < limit)
  }

  /** The edges of the handle are at the point, as far as the minimum span lets them, and no other edge moved. */
  ghost predicate FollowsPointer(before: UvRect, after: UvRect, handle: CropHandle, x: real, y: real) {
    var m := MINIMUM_CROP_SPAN;
    && (if handle in {TopLeft, Left, BottomLeft}
        then EdgeFollows(after.left, x, before.right - m, true) else after.left == before.left)
    && (if handle in {TopRight, Right, BottomRight}
        then EdgeFollows(after.right, x, before.left + m, false) else after.right == before.right)
    && (if handle in {TopLeft, Top, TopRight}
        then EdgeFollows(after.top, y, before.bottom - m, true) else after.top == before.top)
    && (if handle in {BottomLeft, Bottom, BottomRight}
        then EdgeFollows(after.bottom, y, before.top + m, false) else after.bottom == before.bottom)
  }

  /** An unlocked drag puts the edges of its handle at the pointer and moves no other edge. */
  lemma FreeDragFollows(r: UvRect, handle: CropHandle, px: real, py: real)
    requires GoodCrop(r, None)
    ensures FollowsPointer(r, ResizeFree(r, handle, px, py), handle, px, py)
  {
    match handle
    case TopLeft =>
    case _ =>
  }

  /** A crop this high, at the aspect, spans at least the two distances and the minimum. */
  ghost predicate Reaches(height: real, dx: real, dy: real, aspect: real) {
    height >= dy && Mul(height, aspect) >= dx && height >= MINIMUM_CROP_SPAN && Mul(height, aspect) >= MINIMUM_CROP_SPAN
  }

  /** The fitted extent is the smallest of its aspect that reaches, or fills the room on one axis. */
  lemma SmallestReaching(dx: real, dy: real, maxWidth: real, maxHeight: real, aspect: real, fitsHeight: real)
    requires aspect > 0.0 && MINIMUM_CROP_SPAN <= fitsHeight <= maxHeight
    requires MINIMUM_CROP_SPAN <= Mul(fitsHeight, aspect) <= maxWidth
    ensures var (w, h) := FitLockedExtent(dx, dy, maxWidth, maxHeight, aspect);
      && (Reaches(h, dx, dy, aspect) || w == maxWidth || h == maxHeight)
      && forall other :: Reaches(other, dx, dy, aspect) ==> h <= other
  {
    FittedExtent(dx, dy, maxWidth, maxHeight, aspect, fitsHeight);
    var (w, h) := FitLockedExtent(dx, dy, maxWidth, maxHeight, aspect);
    hide FitLockedExtent, Mul;
    MulGrows(dy, h, aspect);
    MulGrows(MINIMUM_CROP_SPAN, h, aspect);
    MulGrows(maxHeight, h, aspect);
    forall other | Reaches(other, dx, dy, aspect)
      ensures h <= other
    {
      MulGrows(h, other, aspect);
      MulGrows(dy, other, aspect);
      MulGrows(MINIMUM_CROP_SPAN, other, aspect);
    }
  }

  /** The point or edge that stays where it is while a handle is dragged. */
  function AnchorX(r: UvRect, handle: CropHandle): real {
    if handle in {TopLeft, Left, BottomLeft} then r.right else r.left
  }

  function AnchorY(r: UvRect, handle: CropHandle): real {
    if handle in {TopLeft, Top, TopRight} then r.bottom else r.top
  }

  /** How far the crop may grow from its anchor, and evenly around a kept center. */
  function Room(r: UvRect, handle: CropHandle): (real, real) {
    var x, y := AnchorX(r, handle), AnchorY(r, handle);
    var centerX, centerY := Mid(r.left, r.right), Mid(r.top, r.bottom);
    (if handle in {Top, Bottom} then 2.0 * MinReal(centerX, 1.0 - centerX)
     else if handle in {TopLeft, Left, BottomLeft} then x else 1.0 - x,
     if handle in {Left, Right} then 2.0 * MinReal(centerY, 1.0 - centerY)
     else if handle in {TopLeft, Top, TopRight} then y else 1.0 - y)
  }

  lemma RoomFits(r: UvRect, handle: CropHandle, aspect: real)
    requires GoodCrop(r, Some(aspect))
    ensures Height(r) <= Room(r, handle).1 && Mul(Height(r), aspect) <= Room(r, handle).0
  {
    hide Mul;
  }

  /** The spans after a locked drag are the extent fitted to the room. */
  lemma FittedSpans(r: UvRect, handle: CropHandle, px: real, py: real, aspect: real)
    requires aspect > 0.0
    ensures var after := ResizeLocked(r, handle, px, py, aspect);
      var dx := if handle in {Top, Bottom} then 0.0 else Abs(px - AnchorX(r, handle));
      var dy := if handle in {Left, Right} then 0.0 else Abs(py - AnchorY(r, handle));
      (Width(after), Height(after)) == FitLockedExtent(dx, dy, Room(r, handle).0, Room(r, handle).1, aspect)
  {
    hide FitLockedExtent, Abs;
  }

  /** The smallest crop that spans from the anchor to the pointer, or one that fills the room. */
  ghost predicate ReachesPointer(before: UvRect, after: UvRect, handle: CropHandle, x: real, y: real, aspect: real) {
    var dx := if handle in {Top, Bottom} then 0.0 else Abs(x - AnchorX(before, handle));
    var dy := if handle in {Left, Right} then 0.0 else Abs(y - AnchorY(before, handle));
    && (Reaches(Height(after), dx, dy, aspect)
        || Width(after) == Room(before, handle).0 || Height(after) == Room(before, handle).1)
    && forall other :: Reaches(other, dx, dy, aspect) ==> Height(after) <= other
  }

  /** A locked drag makes the smallest crop that spans from the anchor to the pointer, or one that fills the room. */
  lemma LockedDragFollows(r: UvRect, handle: CropHandle, px: real, py: real, aspect: real)
    requires GoodCrop(r, Some(aspect)) && aspect > 0.0
    ensures ReachesPointer(r, ResizeLocked(r, handle, px, py, aspect), handle, px, py, aspect)
  {
    var dx := if handle in {Top, Bottom} then 0.0 else Abs(px - AnchorX(r, handle));
    var dy := if handle in {Left, Right} then 0.0 else Abs(py - AnchorY(r, handle));
    RoomFits(r, handle, aspect);
    SmallestReaching(dx, dy, Room(r, handle).0, Room(r, handle).1, aspect, Height(r));
    FittedSpans(r, handle, px, py, aspect);
    hide Mul, FitLockedExtent, Reaches, GoodCrop, Room, Abs, ResizeLocked;
  }

  /** The point of the image nearest to the pointer. */
  ghost predicate NearestPoint(x: real, pointer: real) {
    0.0 <= x <= 1.0 && (x == pointer || (x == 0.0 && pointer < 0.0) || (x == 1.0 && pointer > 1.0))
  }

  /**
    A drag takes the pointer at its nearest point of the image. Unlocked, it puts the edges
    of its handle there and moves no other; locked, it makes the smallest crop of the
    aspect that reaches the point from the anchor, as far as there is room.
   */
  lemma DragFollows(
    r: UvRect, image: Size, ratio: CropRatio, handle: CropHandle, pointerX: real, pointerY: real, x: real, y: real
  )
    requires GoodCrop(r, UvAspect(image, ratio)) && NearestPoint(x, pointerX) && NearestPoint(y, pointerY)
    ensures var after := ResizeFromPointer(r, image, ratio, handle, pointerX, pointerY);
      match UvAspect(image, ratio)
      case None => FollowsPointer(r, after, handle, x, y)
      case Some(aspect) => ReachesPointer(r, after, handle, x, y, aspect)
  {
    assert Normalized(r) == r;
    assert Clamp(pointerX, 0.0, 1.0) == x && Clamp(pointerY, 0.0, 1.0) == y;
    match UvAspect(image, ratio)
    case None => FreeDragFollows(r, handle, x, y);
    case Some(aspect) =>
      hide GoodCrop, Reaches, Room, ResizeLocked, ResizeFree, Clamp;
      assert aspect > 0.0 by { AspectPositive(image, ratio); }
      LockedDragFollows(r, handle, x, y, aspect);
  }

  // ----- keyboard adjustment

  /** The size a keyboard resize aims at, brought to the locked aspect and above the minimum spans. */
  function LockedSize(width: real, height: real, followWidth: bool, aspect: real): (real, real)
    requires aspect > 0.0
  {
    var (w, h) := if followWidth then (width, Div(width, aspect)) else (Mul(height, aspect), height);
    var (w1, h1) := if w < MINIMUM_CROP_SPAN then (MINIMUM_CROP_SPAN, Div(MINIMUM_CROP_SPAN, aspect)) else (w, h);
    if h1 < MINIMUM_CROP_SPAN then (Mul(MINIMUM_CROP_SPAN, aspect), MINIMUM_CROP_SPAN) else (w1, h1)
  }

  lemma LockedSizeFacts(width: real, height: real, followWidth: bool, aspect: real)
    requires aspect > 0.0
    ensures var (w, h) := LockedSize(width, height, followWidth, aspect);
      w == Mul(h, aspect) && w >= MINIMUM_CROP_SPAN && h >= MINIMUM_CROP_SPAN
  {
    DivUndoes(width, aspect);
    DivUndoes(MINIMUM_CROP_SPAN, aspect);
    var (w, h) := if followWidth then (width, Div(width, aspect)) else (Mul(height, aspect), height);
    var (w1, h1) := if w < MINIMUM_CROP_SPAN then (MINIMUM_CROP_SPAN, Div(MINIMUM_CROP_SPAN, aspect)) else (w, h);
    assert w1 == Mul(h1, aspect);
    MulGrows(h1, MINIMUM_CROP_SPAN, aspect);
    hide Mul, Div;
  }

  function ResizedSize(
    width: real, height: real, horizontal: real, vertical: real, aspect: Option<real>
  ): (real, real)
    requires aspect.Some? ==> aspect.value > 0.0
  {
    var nextWidth := Clamp(width + horizontal, MINIMUM_CROP_SPAN, 1.0);
    var nextHeight := Clamp(height + vertical, MINIMUM_CROP_SPAN, 1.0);
    match aspect
    case None => (nextWidth, nextHeight)
    case Some(a) =>
      LockedSizeFacts(nextWidth, nextHeight, Abs(horizontal) >= Abs(vertical), a);
      var (w, h) := LockedSize(nextWidth, nextHeight, Abs(horizontal) >= Abs(vertical), a);
      var fitScale := MinReal(MinReal(Div(1.0, w), Div(1.0, h)), 1.0);
      (Mul(w, fitScale), Mul(h, fitScale))
  }

  function Adjust(
    rect: UvRect, image: Size, ratio: CropRatio, horizontal: real, vertical: real, resize: bool
  ): UvRect {
    var left := Clamp(MinReal(rect.left, rect.right), 0.0, 1.0);
    var top := Clamp(MinReal(rect.top, rect.bottom), 0.0, 1.0);
    var right := Clamp(MaxReal(rect.left, rect.right), left, 1.0);
    var bottom := Clamp(MaxReal(rect.top, rect.bottom), top, 1.0);
    var width := Clamp(right - left, MINIMUM_CROP_SPAN, 1.0);
    var height := Clamp(bottom - top, MINIMUM_CROP_SPAN, 1.0);
    if !resize then
      var nextLeft := Clamp(left + horizontal, 0.0, 1.0 - width);
      var nextTop := Clamp(top + vertical, 0.0, 1.0 - height);
      UvRect(nextLeft, nextTop, nextLeft + width, nextTop + height)
    else
      AspectPositive(image, ratio);
      var (w, h) := ResizedSize(width, height, horizontal, vertical, UvAspect(image, ratio));
      var nextLeft := Clamp(Mid(left, right) - w * 0.5, 0.0, 1.0 - w);
      var nextTop := Clamp(Mid(top, bottom) - h * 0.5, 0.0, 1.0 - h);
      UvRect(nextLeft, nextTop, nextLeft + w, nextTop + h)
  }

  /** An aspect some crop of at least the minimum spans has in the unit square leaves room on both axes. */
  lemma AspectInRange(h: real, aspect: real)
    requires aspect > 0.0 && MINIMUM_CROP_SPAN <= h <= 1.0 && MINIMUM_CROP_SPAN <= Mul(h, aspect) <= 1.0
    ensures aspect >= MINIMUM_CROP_SPAN && Mul(MINIMUM_CROP_SPAN, aspect) <= 1.0
  {
    MulGrows(MINIMUM_CROP_SPAN, h, aspect);
    MulGrows(h, 1.0, aspect);
    assert Mul(1.0, aspect) == aspect;
  }

  lemma ResizedSizeFacts(
    width: real, height: real, horizontal: real, vertical: real, aspect: Option<real>
  )
    requires MINIMUM_CROP_SPAN <= width <= 1.0 && MINIMUM_CROP_SPAN <= height <= 1.0
    requires aspect.Some? ==> aspect.value > 0.0 && width == Mul(height, aspect.value)
    ensures var (w, h) := ResizedSize(width, height, horizontal, vertical, aspect);
      && MINIMUM_CROP_SPAN <= w <= 1.0 && MINIMUM_CROP_SPAN <= h <= 1.0
      && (aspect.Some? ==> w == Mul(h, aspect.value))
  {
    if aspect.Some? {
      var a := aspect.value;
      var nextWidth := Clamp(width + horizontal, MINIMUM_CROP_SPAN, 1.0);
      var nextHeight := Clamp(height + vertical, MINIMUM_CROP_SPAN, 1.0);
      LockedSizeFacts(nextWidth, nextHeight, Abs(horizontal) >= Abs(vertical), a);
      AspectInRange(height, a);
      var (w, h) := LockedSize(nextWidth, nextHeight, Abs(horizontal) >= Abs(vertical), a);
      ScaledToFit(w, h, 1.0, 1.0, a);
      QuotientPositive(1.0, w);
      QuotientPositive(1.0, h);
      var (w', h') := ResizedSize(width, height, horizontal, vertical, aspect);
      assert Mul(1.0, a) == a;
      MulGrows(MINIMUM_CROP_SPAN, h, a);
      MulGrows(MINIMUM_CROP_SPAN, h', a);
      MulGrows(h', 1.0, a);
      hide Mul, Div, LockedSize;
    }
  }

  /** A good crop stays good under any keyboard step; a move keeps its size. */
  lemma AdjustKeepsCrop(
    r: UvRect, image: Size, ratio: CropRatio, horizontal: real, vertical: real, resize: bool
  )
    requires GoodCrop(r, UvAspect(image, ratio))
    ensures var after := Adjust(r, image, ratio, horizontal, vertical, resize);
      && GoodCrop(after, UvAspect(image, ratio))
      && (!resize ==> Width(after) == Width(r) && Height(after) == Height(r))
  {
    AspectPositive(image, ratio);
    if resize {
      ResizedSizeFacts(Width(r), Height(r), horizontal, vertical, UvAspect(image, ratio));
    }
    hide Mul, UvAspect, ResizedSize;
  }

  /** One axis of a keyboard move: shifted as asked, or stopped at the border. */
  ghost predicate Shifted(low: real, high: real, delta: real, nextLow: real, nextHigh: real) {
    && (0.0 <= low + delta && high + delta <= 1.0 ==> nextLow == low + delta && nextHigh == high + delta)
    && (low + delta < 0.0 ==> nextLow == 0.0)
    && (low + delta >= 0.0 && high + delta > 1.0 ==> nextHigh == 1.0)
  }

  /** A keyboard move shifts the crop, and the opposite move undoes one that stayed inside. */
  lemma MoveShifts(r: UvRect, image: Size, ratio: CropRatio, horizontal: real, vertical: real)
    requires GoodCrop(r, UvAspect(image, ratio))
    ensures var after := Adjust(r, image, ratio, horizontal, vertical, false);
      && Shifted(r.left, r.right, horizontal, after.left, after.right)
      && Shifted(r.top, r.bottom, vertical, after.top, after.bottom)
      && (0.0 <= r.left + horizontal && r.right + horizontal <= 1.0
          && 0.0 <= r.top + vertical && r.bottom + vertical <= 1.0 ==>
            Adjust(after, image, ratio, -horizontal, -vertical, false) == r)
  {
    AdjustKeepsCrop(r, image, ratio, horizontal, vertical, false);
    hide Mul, UvAspect, ResizedSize;
  }

  /** A keyboard resize grows around the center unless that would leave the image; unlocked, by what was asked. */
  lemma ResizeKeepsCenter(r: UvRect, image: Size, ratio: CropRatio, horizontal: real, vertical: real)
    requires GoodCrop(r, UvAspect(image, ratio))
    ensures var after := Adjust(r, image, ratio, horizontal, vertical, true);
      && (Mid(after.left, after.right) == Mid(r.left, r.right) || after.left == 0.0 || after.right == 1.0)
      && (Mid(after.top, after.bottom) == Mid(r.top, r.bottom) || after.top == 0.0 || after.bottom == 1.0)
      && (UvAspect(image, ratio).None? ==>
            && Width(after) == Clamp(Width(r) + horizontal, MINIMUM_CROP_SPAN, 1.0)
            && Height(after) == Clamp(Height(r) + vertical, MINIMUM_CROP_SPAN, 1.0))
  {
    AspectPositive(image, ratio);
    ResizedSizeFacts(Width(r), Height(r), horizontal, vertical, UvAspect(image, ratio));
    if UvAspect(image, ratio).Some? {
      hide Mul, UvAspect, ResizedSize;
    } else {
      hide Mul, UvAspect;
    }
  }

  /** A crop of this height and aspect keeps the minimum spans and fits the image. */
  ghost predicate Allowed(height: real, aspect: real) {
    MINIMUM_CROP_SPAN <= height <= 1.0 && MINIMUM_CROP_SPAN <= Mul(height, aspect) <= 1.0
  }

  lemma NearestInRange(target: real, low: real, high: real, nearest: real, other: real)
    requires low <= other <= high && nearest == Clamp(target, low, high)
    ensures Abs(nearest - target) <= Abs(other - target)
  {
  }

  lemma WidthStep(width: real, target: real, height: real, vertical: real, horizontal: real, a: real, other: real)
    requires a > 0.0 && target == width + horizontal && Abs(horizontal) >= Abs(vertical)
    requires MINIMUM_CROP_SPAN <= width <= 1.0 && MINIMUM_CROP_SPAN <= height <= 1.0 && width == Mul(height, a)
    requires Allowed(other, a)
    ensures Abs(ResizedSize(width, height, horizontal, vertical, Some(a)).0 - target) <= Abs(Mul(other, a) - target)
  {
    var m := MINIMUM_CROP_SPAN;
    var next := Clamp(target, m, 1.0);
    var nextHeight := Clamp(height + vertical, m, 1.0);
    var (w, h) := LockedSize(next, nextHeight, true, a);
    LockedSizeFacts(next, nextHeight, true, a);
    DivUndoes(next, a);
    MulGrows(Div(next, a), m, a);
    MulGrows(m, Div(next, a), a);
    assert w == MaxReal(next, Mul(m, a));
    ScaledToFit(w, h, 1.0, 1.0, a);
    ScaleIsPositive(w, h);
    assert Mul(1.0, a) == a;
    MulGrows(m, other, a);
    MulGrows(other, 1.0, a);
    hide Mul, Div, LockedSize;
    NearestInRange(
      target, MaxReal(m, Mul(m, a)), MinReal(1.0, a),
      ResizedSize(width, height, horizontal, vertical, Some(a)).0, Mul(other, a));
  }

  lemma ScaleIsPositive(w: real, h: real)
    requires w > 0.0 && h > 0.0
    ensures var p := MinReal(Div(1.0, w), Div(1.0, h));
      p > 0.0 && MinReal(p, 1.0) == Clamp(p, 0.0, 1.0)
  {
    QuotientPositive(1.0, w);
    QuotientPositive(1.0, h);
  }

  lemma HeightStep(width: real, target: real, height: real, vertical: real, horizontal: real, a: real, other: real)
    requires a > 0.0 && target == height + vertical && Abs(horizontal) < Abs(vertical)
    requires MINIMUM_CROP_SPAN <= width <= 1.0 && MINIMUM_CROP_SPAN <= height <= 1.0 && width == Mul(height, a)
    requires Allowed(other, a)
    ensures Abs(ResizedSize(width, height, horizontal, vertical, Some(a)).1 - target) <= Abs(other - target)
  {
    var m := MINIMUM_CROP_SPAN;
    var next := Clamp(target, m, 1.0);
    var nextWidth := Clamp(width + horizontal, m, 1.0);
    var (w, h) := LockedSize(nextWidth, next, false, a);
    LockedSizeFacts(nextWidth, next, false, a);
    var least, most := Div(m, a), Div(1.0, a);
    DivUndoes(m, a);
    DivUndoes(1.0, a);
    MulGrows(least, next, a);
    MulGrows(next, least, a);
    assert h == MaxReal(next, MaxReal(least, m));
    ScaledToFit(w, h, 1.0, 1.0, a);
    ScaleIsPositive(w, h);
    assert Mul(1.0, a) == a;
    var scaled := ResizedSize(width, height, horizontal, vertical, Some(a)).1;
    ScaledHeight(scaled, h, most, a);
    MulGrows(least, other, a);
    MulGrows(other, most, a);
    hide Mul, Div, LockedSize, ResizedSize;
    NearestInRange(target, MaxReal(m, least), MinReal(1.0, most), scaled, other);
  }

  lemma ScaledHeight(scaled: real, h: real, most: real, a: real)
    requires a > 0.0 && Mul(most, a) == 1.0 && Mul(1.0, a) == a
    requires Mul(scaled, a) == MinReal(MinReal(Mul(h, a), 1.0), a)
    ensures scaled == MinReal(MinReal(h, most), 1.0)
  {
    MulGrows(scaled, h, a);
    MulGrows(scaled, most, a);
    MulGrows(scaled, 1.0, a);
    MulGrows(h, scaled, a);
    MulGrows(most, scaled, a);
    MulGrows(1.0, scaled, a);
  }

  lemma ResizedSpans(r: UvRect, image: Size, ratio: CropRatio, horizontal: real, vertical: real)
    requires GoodCrop(r, UvAspect(image, ratio)) && (UvAspect(image, ratio).Some? ==> UvAspect(image, ratio).value > 0.0)
    ensures var after := Adjust(r, image, ratio, horizontal, vertical, true);
      (Width(after), Height(after)) == ResizedSize(Width(r), Height(r), horizontal, vertical, UvAspect(image, ratio))
  {
    hide UvAspect, ResizedSize, Mul;
  }

  /**
    A locked keyboard resize follows the axis with the larger step: of all crops that may
    be, none of the aspect comes nearer on that axis to the span asked for.
   */
  lemma LockedResizeFollows(
    r: UvRect, image: Size, ratio: CropRatio, horizontal: real, vertical: real, other: real
  )
    requires UvAspect(image, ratio).Some? && GoodCrop(r, UvAspect(image, ratio))
    requires Allowed(other, UvAspect(image, ratio).value)
    ensures var after, a := Adjust(r, image, ratio, horizontal, vertical, true), UvAspect(image, ratio).value;
      && (Abs(horizontal) >= Abs(vertical) ==>
            Abs(Width(after) - (Width(r) + horizontal)) <= Abs(Mul(other, a) - (Width(r) + horizontal)))
      && (Abs(horizontal) < Abs(vertical) ==>
            Abs(Height(after) - (Height(r) + vertical)) <= Abs(other - (Height(r) + vertical)))
  {
    AspectPositive(image, ratio);
    var a := UvAspect(image, ratio).value;
    if Abs(horizontal) >= Abs(vertical) {
      WidthStep(Width(r), Width(r) + horizontal, Height(r), vertical, horizontal, a, other);
    } else {
      HeightStep(Width(r), Height(r) + vertical, Height(r), vertical, horizontal, a, other);
    }
    ResizedSpans(r, image, ratio, horizontal, vertical);
    hide Mul, UvAspect, ResizedSize, Abs, Allowed, Adjust, GoodCrop;
  }

  // ----- any rectangle at all

  /** Every operation starts from the part of the unit square the corners span. */
  lemma SortedFirst(
    r: UvRect, image: Size, ratio: CropRatio, handle: CropHandle, x: real, y: real, resize: bool
  )
    ensures ResizeFromPointer(r, image, ratio, handle, x, y) == ResizeFromPointer(Normalized(r), image, ratio, handle, x, y)
    ensures Adjust(r, image, ratio, x, y, resize) == Adjust(Normalized(r), image, ratio, x, y, resize)
    ensures FitToRatio(r, image, ratio) == FitToRatio(Normalized(r), image, ratio)
  {
    hide UvAspect, ResizedSize, ResizeFree, ResizeLocked;
    var n := Normalized(r);
    assert Normalized(n) == n;
  }

  /** Without a locked ratio, a keyboard step makes a good crop of any rectangle. */
  lemma UnlockedStepIsGood(
    r: UvRect, image: Size, ratio: CropRatio, horizontal: real, vertical: real, resize: bool
  )
    requires UvAspect(image, ratio).None?
    ensures GoodCrop(Adjust(r, image, ratio, horizontal, vertical, resize), None)
  {
  }

  // ----- whole editing sessions

  datatype Edit =
    | Drag(handle: CropHandle, x: real, y: real)
    | Step(horizontal: real, vertical: real, resize: bool)

  function ApplyEdit(r: UvRect, image: Size, ratio: CropRatio, e: Edit): UvRect {
    match e
    case Drag(handle, x, y) => ResizeFromPointer(r, image, ratio, handle, x, y)
    case Step(horizontal, vertical, resize) => Adjust(r, image, ratio, horizontal, vertical, resize)
  }

  function ApplyEdits(r: UvRect, image: Size, ratio: CropRatio, edits: seq<Edit>): UvRect {
    if |edits| == 0 then r
    else ApplyEdit(ApplyEdits(r, image, ratio, edits[..|edits| - 1]), image, ratio, edits[|edits| - 1])
  }

  /** Through any sequence of drags and keyboard steps a good crop stays good. */
  lemma {:induction false} EditsKeepCrop(r: UvRect, image: Size, ratio: CropRatio, edits: seq<Edit>)
    requires GoodCrop(r, UvAspect(image, ratio))
    ensures GoodCrop(ApplyEdits(r, image, ratio, edits), UvAspect(image, ratio))
  {
    if |edits| > 0 {
      hide GoodCrop, UvAspect, ResizeFromPointer, Adjust;
      EditsKeepCrop(r, image, ratio, edits[..|edits| - 1]);
      var before := ApplyEdits(r, image, ratio, edits[..|edits| - 1]);
      match edits[|edits| - 1]
      case Drag(handle, x, y) => DragKeepsCrop(before, image, ratio, handle, x, y);
      case Step(horizontal, vertical, resize) => AdjustKeepsCrop(before, image, ratio, horizontal, vertical, resize);
    }
  }

  // ----- the crop an edit starts from

  function FitToRatio(bounds: UvRect, image: Size, ratio: CropRatio): UvRect {
    var left := Clamp(MinReal(bounds.left, bounds.right), 0.0, 1.0);
    var top := Clamp(MinReal(bounds.top, bounds.bottom), 0.0, 1.0);
    var right := Clamp(MaxReal(bounds.left, bounds.right), left, 1.0);
    var bottom := Clamp(MaxReal(bounds.top, bounds.bottom), top, 1.0);
    match UvAspect(image, ratio)
    case None => UvRect(left, top, right, bottom)
    case Some(aspect) =>
      var availableWidth, availableHeight := right - left, bottom - top;
      if availableWidth <= 0.0 || availableHeight <= 0.0 then UvRect(left, top, right, bottom)
      else
        AspectPositive(image, ratio);
        var (width, height) :=
          if Div(availableWidth, availableHeight) > aspect then (Mul(availableHeight, aspect), availableHeight)
          else (availableWidth, Div(availableWidth, aspect));
        UvRect(
          Mid(left, right) - width * 0.5, Mid(top, bottom) - height * 0.5,
          Mid(left, right) + width * 0.5, Mid(top, bottom) + height * 0.5)
  }

  function DefaultCrop(image: Size, ratio: CropRatio): UvRect {
    FitToRatio(
      UvRect(DEFAULT_CROP_MARGIN, DEFAULT_CROP_MARGIN, 1.0 - DEFAULT_CROP_MARGIN, 1.0 - DEFAULT_CROP_MARGIN),
      image, ratio)
  }

  /**
    A fitted crop keeps the center and the exact aspect, and fills one axis of its bounds;
    without a locked ratio, or when the bounds are empty, it is the bounds.
   */
  lemma FittedCrop(bounds: UvRect, image: Size, ratio: CropRatio)
    requires InUnitSquare(bounds)
    ensures var r := FitToRatio(bounds, image, ratio);
      if UvAspect(image, ratio).None? || Width(bounds) == 0.0 || Height(bounds) == 0.0 then r == bounds
      else
        && bounds.left <= r.left <= r.right <= bounds.right && bounds.top <= r.top <= r.bottom <= bounds.bottom
        && HasAspect(r, UvAspect(image, ratio))
        && Mid(r.left, r.right) == Mid(bounds.left, bounds.right) && Mid(r.top, r.bottom) == Mid(bounds.top, bounds.bottom)
        && (Width(r) == Width(bounds) || Height(r) == Height(bounds))
  {
    AspectPositive(image, ratio);
    if UvAspect(image, ratio).Some? && Width(bounds) > 0.0 && Height(bounds) > 0.0 {
      var a, w, h := UvAspect(image, ratio).value, Width(bounds), Height(bounds);
      DivUndoes(w, h);
      DivUndoes(w, a);
      MulGrows(Div(w, h), a, h);
      MulGrows(a, Div(w, h), h);
      assert Mul(a, h) == Mul(h, a);
      MulPositive(h, a);
      MulGrows(h, Div(w, a), a);
      MulGrows(Div(w, a), h, a);
      MulPositive(Div(w, a), a);
      hide Mul, Div, UvAspect;
    }
  }

  /**
    The default crop is a good crop to start from exactly when the locked aspect lies
    between 1/40 and 40 in normalized coordinates, so that its shorter span is not
    below the minimum. An unlocked default crop always is. It lies at the center of the
    image and leaves a tenth of it free on both sides of one axis or the other.
   */
  lemma DefaultCropIsGood(image: Size, ratio: CropRatio)
    ensures GoodCrop(DefaultCrop(image, ratio), UvAspect(image, ratio)) <==>
      (UvAspect(image, ratio).Some? ==> 0.025 <= UvAspect(image, ratio).value <= 40.0)
    ensures var r := DefaultCrop(image, ratio);
      && Mid(r.left, r.right) == 0.5 && Mid(r.top, r.bottom) == 0.5
      && ((r.left == 0.1 && r.right == 0.9) || (r.top == 0.1 && r.bottom == 0.9))
  {
    var m := DEFAULT_CROP_MARGIN;
    var bounds := UvRect(m, m, 1.0 - m, 1.0 - m);
    FittedCrop(bounds, image, ratio);
    if UvAspect(image, ratio).Some? {
      var a := UvAspect(image, ratio).value;
      DefaultSpans(a);
      hide Mul, Div, UvAspect;
    }
  }

  lemma DefaultSpans(a: real)
    requires a > 0.0
    ensures Div(0.8, 0.8) == 1.0
    ensures Mul(0.8, a) >= MINIMUM_CROP_SPAN <==> a >= 0.025
    ensures Div(0.8, a) >= MINIMUM_CROP_SPAN <==> a <= 40.0
  {
    DivUndoes(0.8, a);
    MulGrows(MINIMUM_CROP_SPAN, Div(0.8, a), a);
    assert Mul(MINIMUM_CROP_SPAN, a) == 0.02 * a;
    assert Mul(0.8, a) == 0.8 * a;
  }

  /** A strip of 41 pixels: its default square crop is narrower than the minimum span. */
  lemma NarrowDefaultCrop()
    ensures UvAspect(Size(41, 1), Fixed(1, 1)) == Some(1.0 / 41.0)
    ensures !GoodCrop(DefaultCrop(Size(41, 1), Fixed(1, 1)), UvAspect(Size(41, 1), Fixed(1, 1)))
  {
    assert Div(1.0, 1.0) == 1.0 && Mul(1.0, 1.0) == 1.0 && Div(1.0, 41.0) == 1.0 / 41.0;
    DefaultCropIsGood(Size(41, 1), Fixed(1, 1));
  }

  // ----- back to pixels

  /** The ratio is locked exactly for an image with pixels and a ratio with terms; the original one is the unit square's. */
  lemma LockedExactly(image: Size, ratio: CropRatio)
    ensures UvAspect(image, ratio).Some? <==>
      image.width > 0 && image.height > 0 && (ratio.Original? || (ratio.Fixed? && ratio.width > 0 && ratio.height > 0))
    ensures image.width > 0 && image.height > 0 ==> UvAspect(image, Original) == Some(1.0)
  {
    if image.width > 0 && image.height > 0 {
      var w, h := image.width as real, image.height as real;
      DivUndoes(w, h);
      DivUndoes(w, w);
      assert Mul(1.0, w) == w;
      MulGrows(1.0, Div(w, w), w);
      MulGrows(Div(w, w), 1.0, w);
      hide Mul, Div;
    }
  }

  /** At the original ratio, the sides of a crop in pixels are exactly as those of the image. */
  lemma OriginalRatioIsExact(r: UvRect, image: Size)
    requires image.width > 0 && image.height > 0
    requires HasAspect(r, UvAspect(image, Original))
    ensures Mul(Mul(Width(r), image.width as real), image.height as real)
            == Mul(Mul(Height(r), image.height as real), image.width as real)
  {
    LockedExactly(image, Original);
    assert Mul(Height(r), 1.0) == Height(r);
    MulRegroups(Width(r), image.width as real, image.height as real);
  }

  /** A crop at the locked normalized aspect has exactly the asked-for ratio in pixels. */
  lemma PixelRatioIsExact(r: UvRect, image: Size, w: U16, h: U16)
    requires image.width > 0 && image.height > 0 && w > 0 && h > 0
    requires HasAspect(r, UvAspect(image, Fixed(w, h)))
    ensures Mul(Mul(Width(r), image.width as real), h as real) == Mul(Mul(Height(r), image.height as real), w as real)
  {
    var iw, ih, rw, rh := image.width as real, image.height as real, w as real, h as real;
    var p := Div(rw, rh);
    var a := Div(Mul(p, ih), iw);
    DivUndoes(rw, rh);
    DivUndoes(Mul(p, ih), iw);
    CrossRatio(Width(r), Height(r), iw, ih, rw, rh, p, a);
  }

  lemma CrossRatio(width: real, height: real, iw: real, ih: real, rw: real, rh: real, p: real, a: real)
    requires width == Mul(height, a) && Mul(a, iw) == Mul(p, ih) && Mul(p, rh) == rw
    ensures Mul(Mul(width, iw), rh) == Mul(Mul(height, ih), rw)
  {
    assert width * iw == height * (a * iw);
    assert height * (p * ih) * rh == height * ih * (p * rh);
  }
}
