/**
  From a selection in the unit square to a rectangle of whole pixels. A locked ratio
  leaves only the multiples of its lowest terms, and the one nearest the selection is taken.
  Coordinates are exact reals; image sizes and results are `u32`.
 */
module CropPixels {
  import opened Wrappers
  import opened Arith

  datatype CropRatio = Free | Original | Fixed(width: U16, height: U16)

  // ----- the greatest common divisor

  ghost predicate Divides(d: nat, n: nat) {
    exists q: nat :: Times(d, q) == n
  }

  /** `g` is a common divisor that every common divisor divides. */
  ghost predicate IsGcd(g: nat, a: nat, b: nat) {
    && Divides(g, a) && Divides(g, b)
    && forall d: nat :: Divides(d, a) && Divides(d, b) ==> Divides(d, g)
  }

  lemma DividesRemainder(d: nat, a: nat, b: nat)
    requires b > 0 && Divides(d, b)
    ensures Divides(d, a) <==> Divides(d, a % b)
  {
    var q: nat :| Times(d, q) == b;
    var k, r := a / b, a % b;
    var m := Times(q, k);
    QuotientRemainder(a, b);
    Associates(d, q, k);
    hide Times;
    assert a == Times(d, m) + r;
    if Divides(d, a) {
      var p: nat :| Times(d, p) == a;
      if p <= m {
        Grows(d, p, m);
        Units(d);
        assert Times(d, 0) == r;
      } else {
        Distributes(d, m, p - m);
        assert Times(d, p - m) == r;
      }
    }
    if Divides(d, r) {
      var p: nat :| Times(d, p) == r;
      Distributes(d, m, p);
      assert Times(d, m + p) == a;
    }
  }

  lemma GcdStep(g: nat, a: nat, b: nat)
    requires b > 0 && IsGcd(g, b, a % b)
    ensures IsGcd(g, a, b)
  {
    DividesRemainder(g, a, b);
    forall d: nat | Divides(d, a) && Divides(d, b)
      ensures Divides(d, g)
    {
      DividesRemainder(d, a, b);
    }
  }

  lemma GcdWithZero(a: nat)
    ensures IsGcd(a, a, 0)
  {
    assert Times(a, 1) == a && Times(a, 0) == 0;
  }

  function Gcd(a: nat, b: nat): (g: nat)
    ensures IsGcd(g, a, b)
    ensures a > 0 || b > 0 ==> g > 0
    decreases b
  {
    if b == 0 then
      GcdWithZero(a);
      a
    else
      var g := Gcd(b, a % b);
      GcdStep(g, a, b);
      g
  }

  /** Euclid's loop. */
  method GreatestCommonDivisor(left: U32, right: U32) returns (divisor: U32)
    ensures divisor == Gcd(left, right)
    ensures IsGcd(divisor, left, right)
  {
    var a, b := left, right;
    while b != 0
      invariant Gcd(a, b) == Gcd(left, right)
      decreases b
    {
      a, b := b, a % b;
    }
    divisor := a;
  }

  lemma DividedBy(n: nat, d: nat)
    requires d > 0 && Divides(d, n)
    ensures Times(d, n / d) == n
    ensures n > 0 ==> n / d > 0
  {
    hide Times;
    var q: nat :| Times(d, q) == n;
    ExactQuotient(n, d, q);
    Units(d);
  }

  /** The terms of a ratio before reduction; zero where there is no ratio to keep. */
  function RatioTerms(width: U32, height: U32, ratio: CropRatio): (nat, nat) {
    match ratio
    case Original => (width, height)
    case Fixed(w, h) => (w, h)
    case Free => (0, 0)
  }

  function IntegerRatio(width: U32, height: U32, ratio: CropRatio): Option<(nat, nat)> {
    var (w, h) := RatioTerms(width, height, ratio);
    if w == 0 || h == 0 then None else Some((w / Gcd(w, h), h / Gcd(w, h)))
  }

  lemma ReducedTerms(w: nat, h: nat)
    requires w > 0 && h > 0
    ensures var g := Gcd(w, h);
      && Times(g, w / g) == w && Times(g, h / g) == h && w / g > 0 && h / g > 0
  {
    hide Times;
    var g := Gcd(w, h);
    DividedBy(w, g);
    DividedBy(h, g);
  }

  /** The reduced terms have no common divisor but one, and keep the ratio. */
  lemma ReducedIsCoprime(w: nat, h: nat, d: nat)
    requires w > 0 && h > 0
    requires Divides(d, w / Gcd(w, h)) && Divides(d, h / Gcd(w, h))
    ensures d == 1
  {
    var g := Gcd(w, h);
    ReducedTerms(w, h);
    CarriesUp(g, d, w / g);
    CarriesUp(g, d, h / g);
    assert Divides(Times(g, d), g);
    DivisorBound(Times(g, d), g);
    hide Times;
    Units(g);
    if d > 1 {
      Grows(g, 1, d);
    }
  }

  lemma CarriesUp(g: nat, d: nat, n: nat)
    requires Divides(d, n)
    ensures Divides(Times(g, d), Times(g, n))
  {
    var p: nat :| Times(d, p) == n;
    Associates(g, d, p);
    assert Times(Times(g, d), p) == Times(g, n);
  }

  lemma DivisorBound(d: nat, n: nat)
    requires n > 0 && Divides(d, n)
    ensures d <= n
  {
    var q: nat :| Times(d, q) == n;
    Units(d);
    hide Times;
    if q > 0 {
      Grows(d, 1, q);
    }
  }

  /** Reducing keeps the ratio. */
  lemma ReducedKeepsRatio(w: nat, h: nat)
    requires w > 0 && h > 0
    ensures Times(w / Gcd(w, h), h) == Times(h / Gcd(w, h), w)
  {
    var g := Gcd(w, h);
    ReducedTerms(w, h);
    CrossProducts(g, w / g, h / g);
  }

  lemma CrossProducts(g: nat, a: nat, b: nat)
    ensures Times(a, Times(g, b)) == Times(b, Times(g, a))
  {
    hide Times;
    Associates(a, g, b);
    Associates(b, g, a);
    Commutes(a, g);
    Commutes(b, g);
    Associates(g, a, b);
    Associates(g, b, a);
    Commutes(a, b);
  }

  // ----- quantization

  datatype UvRect = UvRect(left: real, top: real, right: real, bottom: real)

  /** A selection, or one with a coordinate that is not a finite number. */
  datatype Selection = Finite(rect: UvRect) | NotFinite

  datatype Rect = Rect(x: nat, y: nat, width: nat, height: nat)

  function MinReal(a: real, b: real): (r: real)
    ensures r <= a && r <= b && (r == a || r == b)
  {
    if a <= b then a else b
  }

  function MaxReal(a: real, b: real): (r: real)
    ensures r >= a && r >= b && (r == a || r == b)
  {
    if a >= b then a else b
  }

  function Clamp(x: real, low: real, high: real): (r: real)
    ensures low <= high ==> low <= r <= high && (r == x || (r == low && x < low) || (r == high && x > high))
  {
    if x < low then low else if x > high then high else x
  }

  function NonnegativeFloor(value: real): (n: nat)
    ensures value < 0.0 ==> n == 0
    ensures 0.0 <= value < U32_MAX as real ==> n as real <= value < n as real + 1.0
    ensures value >= U32_MAX as real ==> n == U32_MAX
  {
    if value <= 0.0 then 0
    else if value >= U32_MAX as real then U32_MAX
    else value.Floor
  }

  function Ceil(x: real): (n: int)
    ensures n as real - 1.0 < x <= n as real
  {
    -((-x).Floor)
  }

  function NonnegativeCeil(value: real): nat {
    NonnegativeFloor(Ceil(value) as real)
  }

  /** Round half away from zero, as `f64::round` does. */
  function Round(x: real): (n: int)
    ensures x >= 0.0 ==> n as real - 0.5 <= x < n as real + 0.5
    ensures x < 0.0 ==> n as real - 0.5 < x <= n as real + 0.5
  {
    if x >= 0.0 then (x + 0.5).Floor else -((-x + 0.5).Floor)
  }

  function CenteredOrigin(center: real, extent: nat, bound: nat): nat {
    var maximum := SaturatingSub(bound, extent);
    NonnegativeFloor(Clamp(Round(center - extent as real * 0.5) as real, 0.0, maximum as real))
  }

  /** The sorted selection clamped to the unit square. */
  function Normalized(r: UvRect): UvRect {
    UvRect(
      Clamp(MinReal(r.left, r.right), 0.0, 1.0), Clamp(MinReal(r.top, r.bottom), 0.0, 1.0),
      Clamp(MaxReal(r.left, r.right), 0.0, 1.0), Clamp(MaxReal(r.top, r.bottom), 0.0, 1.0))
  }

  function Product(a: real, b: real): real {
    a * b
  }

  /** One unlocked axis: the start rounded down and the length up to the end rounded up. */
  function OutwardSpan(low: real, high: real, size: nat): (nat, nat) {
    var start := Min(NonnegativeFloor(Product(low, size as real)), size);
    var end := Min(NonnegativeCeil(Product(high, size as real)), size);
    (start, SaturatingSub(end, start))
  }

  function UnlockedRect(r: UvRect, width: nat, height: nat): Option<Rect> {
    var (x, w) := OutwardSpan(r.left, r.right, width);
    var (y, h) := OutwardSpan(r.top, r.bottom, height);
    if w != 0 && h != 0 then Some(Rect(x, y, w, h)) else None
  }

  function MaximumScale(width: nat, height: nat, ratioWidth: nat, ratioHeight: nat): nat
    requires ratioWidth > 0 && ratioHeight > 0
  {
    Min(width / ratioWidth, height / ratioHeight)
  }

  /** How many ratio units the selection holds before rounding. */
  function SelectedScale(r: UvRect, width: nat, height: nat, ratioWidth: nat, ratioHeight: nat): real
    requires ratioWidth > 0 && ratioHeight > 0
  {
    MinReal(
      Product(r.right - r.left, width as real) / ratioWidth as real,
      Product(r.bottom - r.top, height as real) / ratioHeight as real)
  }

  /** Rust's `checked_mul` on `u32`. */
  function CheckedMul(a: nat, b: nat): Option<nat> {
    if Times(a, b) <= U32_MAX then Some(Times(a, b)) else None
  }

  function LockedScale(r: UvRect, width: nat, height: nat, ratioWidth: nat, ratioHeight: nat): nat
    requires ratioWidth > 0 && ratioHeight > 0 && MaximumScale(width, height, ratioWidth, ratioHeight) > 0
  {
    var maximum := MaximumScale(width, height, ratioWidth, ratioHeight);
    var desired := Clamp(Round(SelectedScale(r, width, height, ratioWidth, ratioHeight)) as real, 1.0, maximum as real);
    var scale := NonnegativeFloor(desired);
    if scale < 1 then 1 else Min(scale, maximum)
  }

  function LockedRect(r: UvRect, width: nat, height: nat, ratioWidth: nat, ratioHeight: nat): Option<Rect>
    requires ratioWidth > 0 && ratioHeight > 0
  {
    if MaximumScale(width, height, ratioWidth, ratioHeight) == 0 then None
    else
      var scale := LockedScale(r, width, height, ratioWidth, ratioHeight);
      match (CheckedMul(ratioWidth, scale), CheckedMul(ratioHeight, scale))
      case (Some(w), Some(h)) =>
        var centerX := Product((r.left + r.right) / 2.0, width as real);
        var centerY := Product((r.top + r.bottom) / 2.0, height as real);
        Some(Rect(CenteredOrigin(centerX, w, width), CenteredOrigin(centerY, h, height), w, h))
      case _ => None
  }

  lemma RatioTermsPositive(width: U32, height: U32, ratio: CropRatio)
    requires IntegerRatio(width, height, ratio).Some?
    ensures var (a, b) := IntegerRatio(width, height, ratio).value; a > 0 && b > 0
  {
    match ratio
    case Original => ReducedTerms(width, height);
    case Fixed(w, h) => ReducedTerms(w, h);
    case Free =>
  }

  function CropPixelRect(selection: Selection, width: U32, height: U32, ratio: CropRatio): Option<Rect> {
    if width == 0 || height == 0 || selection.NotFinite? then None
    else
      var r := Normalized(selection.rect);
      match IntegerRatio(width, height, ratio)
      case None => UnlockedRect(r, width, height)
      case Some((a, b)) =>
        RatioTermsPositive(width, height, ratio);
        LockedRect(r, width, height, a, b)
  }

  ghost predicate Inside(r: Rect, width: nat, height: nat) {
    r.width > 0 && r.height > 0 && r.x + r.width <= width && r.y + r.height <= height
  }

  // ----- locked ratios

  lemma OriginFits(center: real, extent: nat, bound: nat)
    requires extent <= bound <= U32_MAX
    ensures CenteredOrigin(center, extent, bound) + extent <= bound
    ensures var origin := CenteredOrigin(center, extent, bound);
      var exact := center - extent as real * 0.5;
      -0.5 < origin as real - exact <= 0.5
      || (origin == 0 && exact < 0.0) || (origin == bound - extent && exact > origin as real)
  {
    var maximum := bound - extent;
    var rounded := Round(center - extent as real * 0.5);
    assert CenteredOrigin(center, extent, bound) == if rounded < 0 then 0 else if rounded > maximum then maximum else rounded;
  }

  lemma MaximumScaleBounded(width: nat, height: nat, a: nat, b: nat)
    requires a > 0 && b > 0
    ensures MaximumScale(width, height, a, b) <= width
    ensures MaximumScale(width, height, a, b) > 0 <==> a <= width && b <= height
  {
    QuotientFits(width, a, 1);
    QuotientFits(height, b, 1);
    Units(a);
    Units(b);
    QuotientFits(width, a, width / a);
    hide Times;
    Grows(width / a, 1, a);
    Units(width / a);
    Commutes(a, width / a);
  }

  lemma ClampedRound(x: real, maximum: nat)
    requires 1 <= maximum <= U32_MAX
    ensures var scale := NonnegativeFloor(Clamp(Round(x) as real, 1.0, maximum as real));
      && 1 <= scale <= maximum
      && (-0.5 < scale as real - x <= 0.5 || (scale == 1 && x < 1.0) || (scale == maximum && x > scale as real))
  {
    var rounded := Round(x);
    assert NonnegativeFloor(Clamp(rounded as real, 1.0, maximum as real))
      == if rounded < 1 then 1 else if rounded > maximum then maximum else rounded;
  }

  /** The possible scale nearest to the exact one. */
  ghost predicate NearestScale(scale: nat, exact: real, maximum: nat) {
    && 1 <= scale <= maximum
    && (-0.5 < scale as real - exact <= 0.5 || (scale == 1 && exact < 1.0) || (scale == maximum && exact > scale as real))
  }

  /** The scale is the selected one rounded, unless that lies outside the possible scales. */
  lemma ScaleInRange(r: UvRect, width: nat, height: nat, a: nat, b: nat)
    requires a > 0 && b > 0 && MaximumScale(width, height, a, b) > 0 && width <= U32_MAX
    ensures NearestScale(
      LockedScale(r, width, height, a, b), SelectedScale(r, width, height, a, b), MaximumScale(width, height, a, b))
  {
    MaximumScaleBounded(width, height, a, b);
    ClampedRound(SelectedScale(r, width, height, a, b), MaximumScale(width, height, a, b));
    hide SelectedScale, MaximumScale;
  }

  /**
    A locked crop exists exactly when one unit of the ratio fits the image. It then
    lies inside the image and is a whole multiple of the ratio, the nearest possible
    one to the selection.
   */
  lemma LockedRectIsExact(r: UvRect, width: nat, height: nat, a: nat, b: nat)
    requires a > 0 && b > 0 && width <= U32_MAX && height <= U32_MAX
    ensures LockedRect(r, width, height, a, b).Some? <==> a <= width && b <= height
    ensures LockedRect(r, width, height, a, b).Some? ==>
      && MaximumScale(width, height, a, b) > 0
      && var rect, scale := LockedRect(r, width, height, a, b).value, LockedScale(r, width, height, a, b);
      && Inside(rect, width, height)
      && rect.width == Times(a, scale) && rect.height == Times(b, scale)
      && Times(rect.width, b) == Times(rect.height, a)
  {
    hide Times, LockedScale, SelectedScale, MaximumScale, CenteredOrigin;
    MaximumScaleBounded(width, height, a, b);
    if MaximumScale(width, height, a, b) > 0 {
      ScaleInRange(r, width, height, a, b);
      var scale := LockedScale(r, width, height, a, b);
      MaximumScaleIsGreatest(width, height, a, b, scale);
      Units(a);
      Units(b);
      Grows(a, 1, scale);
      Grows(b, 1, scale);
      OriginFits(Product((r.left + r.right) / 2.0, width as real), Times(a, scale), width);
      OriginFits(Product((r.top + r.bottom) / 2.0, height as real), Times(b, scale), height);
      Associates(a, scale, b);
      Associates(b, scale, a);
      CrossProducts(scale, a, b);
    }
  }

  /** Placed around the center as exactly as whole pixels allow, or pushed to the border it would cross. */
  ghost predicate Centered(origin: nat, extent: nat, bound: nat, center: real) {
    var middle := origin as real + extent as real * 0.5;
    -0.5 < middle - center <= 0.5 || (origin == 0 && middle > center) || (origin + extent == bound && middle < center)
  }

  /** A locked crop sits on the center of the selection. */
  lemma LockedRectIsCentered(r: UvRect, width: nat, height: nat, a: nat, b: nat)
    requires a > 0 && b > 0 && width <= U32_MAX && height <= U32_MAX
    requires LockedRect(r, width, height, a, b).Some?
    ensures var rect := LockedRect(r, width, height, a, b).value;
      && Centered(rect.x, rect.width, width, Product((r.left + r.right) / 2.0, width as real))
      && Centered(rect.y, rect.height, height, Product((r.top + r.bottom) / 2.0, height as real))
  {
    LockedRectIsExact(r, width, height, a, b);
    var rect := LockedRect(r, width, height, a, b).value;
    OriginFits(Product((r.left + r.right) / 2.0, width as real), rect.width, width);
    OriginFits(Product((r.top + r.bottom) / 2.0, height as real), rect.height, height);
    hide Times, LockedScale, SelectedScale, MaximumScale, CenteredOrigin, Product;
  }

  /** No larger multiple of the ratio than the maximum scale fits the image. */
  lemma MaximumScaleIsGreatest(width: nat, height: nat, a: nat, b: nat, k: nat)
    requires a > 0 && b > 0
    ensures Times(a, k) <= width && Times(b, k) <= height <==> k <= MaximumScale(width, height, a, b)
  {
    QuotientFits(width, a, k);
    QuotientFits(height, b, k);
  }

  /** A whole multiple of the ratio, as near to the selection as possible, inside the image and on the selection's center. */
  ghost predicate IsLockedCrop(rect: Rect, selection: UvRect, width: nat, height: nat, a: nat, b: nat)
    requires a > 0 && b > 0
  {
    && Inside(rect, width, height)
    && Times(rect.width, b) == Times(rect.height, a)
    && (exists scale: nat :: rect.width == Times(a, scale) && rect.height == Times(b, scale)
          && NearestScale(scale, SelectedScale(selection, width, height, a, b), MaximumScale(width, height, a, b)))
    && Centered(rect.x, rect.width, width, Product((selection.left + selection.right) / 2.0, width as real))
    && Centered(rect.y, rect.height, height, Product((selection.top + selection.bottom) / 2.0, height as real))
  }

  /** A locked crop through the public function, in the terms of the ratio asked for. */
  lemma LockedCrop(r: UvRect, width: U32, height: U32, ratio: CropRatio)
    requires width > 0 && height > 0 && IntegerRatio(width, height, ratio).Some?
    ensures var (a, b) := IntegerRatio(width, height, ratio).value;
      var result := CropPixelRect(Finite(r), width, height, ratio);
      && a > 0 && b > 0
      && (result.Some? <==> a <= width && b <= height)
      && (result.Some? ==> IsLockedCrop(result.value, Normalized(r), width, height, a, b))
  {
    RatioTermsPositive(width, height, ratio);
    var (a, b) := IntegerRatio(width, height, ratio).value;
    hide LockedRect, Centered, Times, Product, Normalized, NearestScale, SelectedScale, MaximumScale, LockedScale;
    LockedRectIsExact(Normalized(r), width, height, a, b);
    if LockedRect(Normalized(r), width, height, a, b).Some? {
      LockedRectIsCentered(Normalized(r), width, height, a, b);
      ScaleInRange(Normalized(r), width, height, a, b);
    }
  }

  lemma SameRatio(rect: Rect, g: nat, a: nat, b: nat)
    requires Times(rect.width, b) == Times(rect.height, a)
    ensures Times(rect.width, Times(g, b)) == Times(rect.height, Times(g, a))
  {
    hide Times;
    Commutes(g, b);
    Commutes(g, a);
    Associates(rect.width, b, g);
    Associates(rect.height, a, g);
  }

  /**
    A fixed ratio `w` to `h`: a crop exists exactly when the ratio in lowest terms fits
    the image, and its sides are then in exactly that ratio.
   */
  lemma FixedCrop(r: UvRect, width: U32, height: U32, w: U16, h: U16)
    requires width > 0 && height > 0 && w > 0 && h > 0
    ensures var result, g := CropPixelRect(Finite(r), width, height, Fixed(w, h)), Gcd(w, h);
      && g > 0 && w / g > 0 && h / g > 0
      && (result.Some? <==> w / g <= width && h / g <= height)
      && (result.Some? ==>
            && Times(result.value.width, h) == Times(result.value.height, w)
            && IsLockedCrop(result.value, Normalized(r), width, height, w / g, h / g))
  {
    var g := Gcd(w, h);
    ReducedTerms(w, h);
    LockedCrop(r, width, height, Fixed(w, h));
    var result := CropPixelRect(Finite(r), width, height, Fixed(w, h));
    hide Times, CropPixelRect, Gcd;
    if result.Some? {
      SameRatio(result.value, g, w / g, h / g);
    }
  }

  /** The original ratio always fits, at scales up to the greatest common divisor of the image's sides. */
  lemma OriginalAlwaysFits(r: UvRect, width: U32, height: U32)
    requires width > 0 && height > 0
    ensures var result := CropPixelRect(Finite(r), width, height, Original);
      && result.Some? && Inside(result.value, width, height)
      && Times(result.value.width, height) == Times(result.value.height, width)
      && width / Gcd(width, height) > 0 && height / Gcd(width, height) > 0
      && IsLockedCrop(
           result.value, Normalized(r), width, height, width / Gcd(width, height), height / Gcd(width, height))
    ensures var g := Gcd(width, height);
      width / g > 0 && height / g > 0 && MaximumScale(width, height, width / g, height / g) == g
  {
    var g := Gcd(width, height);
    var a, b := width / g, height / g;
    ReducedTerms(width, height);
    Commutes(g, a);
    Commutes(g, b);
    MaximumScaleOfMultiple(a, b, g);
    MaximumScaleBounded(width, height, a, b);
    LockedRectIsExact(Normalized(r), width, height, a, b);
    LockedCrop(r, width, height, Original);
    hide Times, LockedRect, MaximumScale, LockedScale, Gcd, IsLockedCrop;
    var scale := LockedScale(Normalized(r), width, height, a, b);
    Scaled(a, b, scale, g);
  }

  lemma MaximumScaleOfMultiple(a: nat, b: nat, g: nat)
    requires a > 0 && b > 0
    ensures MaximumScale(Times(a, g), Times(b, g), a, b) == g
  {
    ExactQuotient(Times(a, g), a, g);
    ExactQuotient(Times(b, g), b, g);
  }

  lemma Scaled(a: nat, b: nat, scale: nat, g: nat)
    ensures Times(Times(a, scale), Times(b, g)) == Times(Times(b, scale), Times(a, g))
  {
    assert (a * scale) * (b * g) == (b * scale) * (a * g);
  }

  lemma QuotientBound(k: real, p: real, a: nat)
    requires a > 0
    ensures Product(k, a as real) <= p <==> k <= p / a as real
  {
    var d, q := a as real, p / a as real;
    assert q * d == p;
    if k <= q {
      assert (q - k) * d >= 0.0;
    } else {
      assert (k - q) * d > 0.0;
    }
  }

  /** The selected scale is the greatest at which the ratio still fits the selection. */
  lemma SelectedScaleIsGreatest(r: UvRect, width: nat, height: nat, a: nat, b: nat, k: real)
    requires a > 0 && b > 0
    ensures k <= SelectedScale(r, width, height, a, b) <==>
      && Product(k, a as real) <= Product(r.right - r.left, width as real)
      && Product(k, b as real) <= Product(r.bottom - r.top, height as real)
  {
    QuotientBound(k, Product(r.right - r.left, width as real), a);
    QuotientBound(k, Product(r.bottom - r.top, height as real), b);
  }

  ghost predicate Between(u: real, a: real, b: real) {
    a <= u <= b || b <= u <= a
  }

  /** Whatever corners the selection is given by, it is the part of the unit square between them. */
  lemma NormalizedSelects(r: UvRect, u: real, v: real)
    requires 0.0 < u < 1.0 && 0.0 < v < 1.0
    ensures var n := Normalized(r);
      && 0.0 <= n.left <= n.right <= 1.0 && 0.0 <= n.top <= n.bottom <= 1.0
      && (n.left <= u <= n.right <==> Between(u, r.left, r.right))
      && (n.top <= v <= n.bottom <==> Between(v, r.top, r.bottom))
  {
  }

  // ----- unlocked selections

  lemma ProductBounds(u: real, size: real)
    requires 0.0 <= u <= 1.0 && size >= 0.0
    ensures 0.0 <= Product(u, size) <= size
  {
    assert size - u * size == (1.0 - u) * size;
  }

  lemma ProductGrows(u: real, v: real, size: real)
    requires u <= v && size >= 0.0
    ensures Product(u, size) <= Product(v, size)
  {
    assert v * size - u * size == (v - u) * size;
  }

  /** An unlocked axis covers the selection with the fewest pixels that do. */
  lemma OutwardSpanCovers(low: real, high: real, size: nat)
    requires 0.0 <= low <= high <= 1.0 && size <= U32_MAX
    ensures var (start, length) := OutwardSpan(low, high, size);
      var p, q := Product(low, size as real), Product(high, size as real);
      && start + length <= size
      && start as real <= p < start as real + 1.0
      && q <= (start + length) as real < q + 1.0
      && (length == 0 <==> p == q && p == start as real)
  {
    var s := size as real;
    ProductBounds(low, s);
    ProductBounds(high, s);
    ProductGrows(low, high, s);
    var p, q := Product(low, s), Product(high, s);
    assert NonnegativeFloor(p) == p.Floor;
    assert NonnegativeCeil(q) == Ceil(q);
  }

  /**
    Without a ratio, or with a fixed one that has a zero term, the crop is the smallest
    pixel rectangle covering the selection, inside the image. There is none exactly when
    the selection is a line along a pixel boundary.
   */
  lemma UnlockedCrop(r: UvRect, width: U32, height: U32, ratio: CropRatio)
    requires width > 0 && height > 0
    requires ratio.Free? || (ratio.Fixed? && (ratio.width == 0 || ratio.height == 0))
    ensures var n := Normalized(r);
      var result := CropPixelRect(Finite(r), width, height, ratio);
      var (x, w), (y, h) := OutwardSpan(n.left, n.right, width), OutwardSpan(n.top, n.bottom, height);
      && (result.Some? ==> Inside(result.value, width, height) && result.value == Rect(x, y, w, h))
      && (result.None? <==>
            (Product(n.left, width as real) == Product(n.right, width as real) == x as real)
            || (Product(n.top, height as real) == Product(n.bottom, height as real) == y as real))
  {
    var n := Normalized(r);
    OutwardSpanCovers(n.left, n.right, width);
    OutwardSpanCovers(n.top, n.bottom, height);
  }

  /** Any crop lies inside the image; an empty image or a selection that is not finite has none. */
  lemma CropIsInside(selection: Selection, width: U32, height: U32, ratio: CropRatio)
    ensures var result := CropPixelRect(selection, width, height, ratio);
      && (result.Some? ==> Inside(result.value, width, height))
      && (width == 0 || height == 0 || selection.NotFinite? ==> result.None?)
  {
    if width > 0 && height > 0 && selection.Finite? {
      hide CropPixelRect, Inside, Normalized, NearestScale, SelectedScale, Centered;
      var result := CropPixelRect(selection, width, height, ratio);
      match ratio
      case Original => OriginalAlwaysFits(selection.rect, width, height);
      case Free => UnlockedCrop(selection.rect, width, height, ratio);
      case Fixed(w, h) =>
        if w == 0 || h == 0 {
          UnlockedCrop(selection.rect, width, height, ratio);
        } else {
          FixedCrop(selection.rect, width, height, w, h);
        }
    } else {
      assert CropPixelRect(selection, width, height, ratio).None?;
    }
  }
}
