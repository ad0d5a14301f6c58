/** The segmentation step of `segment_sprites_from_spritesheet`: the
    foreground map, the seed scan over it and the area filter. */
module Segmentation {
  import opened Wrappers
  import opened Pixels
  import opened Components
  import opened Seqs
  import opened Arith

  /** A background colour, as the `(r, g, b)` tuple the script passes around. */
  datatype Rgb = Rgb(r: Channel, g: Channel, b: Channel)

  /** The squared Euclidean distance between the RGB part of `p` and `bg`. */
  function SqDist(p: Pixel, bg: Rgb): nat {
    (p.r - bg.r) * (p.r - bg.r) + (p.g - bg.g) * (p.g - bg.g) + (p.b - bg.b) * (p.b - bg.b)
  }

  /** `sqrt(sum of squared differences) > tolerance`, decided on integers. */
  predicate Differs(p: Pixel, bg: Rgb, tolerance: int) {
    tolerance < 0 || SqDist(p, bg) > tolerance * tolerance
  }

  /** The integer test agrees with comparing the true distance, for every
      tolerance: `dist` is the non-negative square root of the squared
      distance. */
  lemma DiffersIsDistance(p: Pixel, bg: Rgb, tolerance: int, dist: real)
    requires dist >= 0.0 && dist * dist == SqDist(p, bg) as real
    ensures Differs(p, bg, tolerance) <==> dist > tolerance as real
  {
    if tolerance >= 0 {
      var t := tolerance as real;
      assert (tolerance * tolerance) as real == t * t;
      SquareLess(t, dist);
    }
  }

  /** Squaring preserves the order of non-negative reals. */
  lemma SquareLess(a: real, b: real)
    requires a >= 0.0 && b >= 0.0
    ensures a < b <==> a * a < b * b
  {
    if a < b {
      RealMulNonNegative(b - a, a);
      RealMulPositive(b - a, b);
      assert (b - a) * a + (b - a) * b == b * b - a * a;
    } else {
      RealMulNonNegative(a - b, a);
      RealMulNonNegative(a - b, b);
      assert (a - b) * a + (a - b) * b == a * a - b * b;
    }
  }

  /** Some pixel is not fully opaque (`np.any(alpha < 255)`). */
  predicate HasTransparency(img: Image) {
    exists y, x | 0 <= y < |img| && 0 <= x < |img[y]| :: img[y][x].a < 255
  }

  /** How the foreground is told from the background. */
  datatype Detection = ByAlpha(threshold: int) | ByColour(bg: Rgb, tolerance: int)

  /** The colour of the top-left pixel, the default background. */
  function TopLeft(img: Image): Rgb
    requires |img| > 0 && |img[0]| > 0
  {
    Rgb(img[0][0].r, img[0][0].g, img[0][0].b)
  }

  /** What `segment_sprites_from_spritesheet` needs of its sheet: alpha
      detection, or a given background, or a top-left pixel to take it from
      (indexing `img_array[0, 0]` of an empty sheet raises). */
  predicate CanDetect(img: Image, bg: Option<Rgb>) {
    HasTransparency(img) || bg.Some? || (|img| > 0 && |img[0]| > 0)
  }

  /** Alpha detection when the sheet has any transparency; otherwise colour
      distance from `bg`, defaulting to the top-left pixel. */
  function ChooseDetection(img: Image, alphaThreshold: int, bg: Option<Rgb>, tolerance: int): (d: Detection)
    requires CanDetect(img, bg)
    ensures d.ByAlpha? <==> HasTransparency(img)
    ensures d.ByAlpha? ==> d.threshold == alphaThreshold
    ensures d.ByColour? ==> d.tolerance == tolerance && d.bg == (if bg.Some? then bg.value else TopLeft(img))
  {
    if HasTransparency(img) then ByAlpha(alphaThreshold)
    else if bg.Some? then ByColour(bg.value, tolerance)
    else ByColour(TopLeft(img), tolerance)
  }

  /** One pixel of the segmentation map. */
  predicate IsForeground(p: Pixel, d: Detection) {
    match d
    case ByAlpha(threshold) => p.a > threshold
    case ByColour(bg, tolerance) => Differs(p, bg, tolerance)
  }

  /** The segmentation map: one cell per pixel, true for foreground. */
  function SegmentationMap(img: Image, d: Detection): (m: Mask)
    ensures |m| == |img| && forall y :: 0 <= y < |m| ==> |m[y]| == |img[y]|
    ensures forall y, x :: 0 <= y < |m| && 0 <= x < |m[y]| ==> (m[y][x] <==> IsForeground(img[y][x], d))
  {
    seq(|img|, y requires 0 <= y < |img| => seq(|img[y]|, x requires 0 <= x < |img[y]| => IsForeground(img[y][x], d)))
  }

  lemma SegmentationMapRect(img: Image, d: Detection)
    requires IsRect(img)
    ensures IsRect(SegmentationMap(img, d)) && Width(SegmentationMap(img, d)) == Width(img)
  {
  }

  /** In colour mode with the default background, the top-left pixel and
      every pixel of its colour are background, for any tolerance >= 0. */
  lemma TopLeftIsBackground(img: Image, alphaThreshold: int, tolerance: int, y: int, x: int)
    requires |img| > 0 && |img[0]| > 0 && !HasTransparency(img) && tolerance >= 0
    requires 0 <= y < |img| && 0 <= x < |img[y]|
    requires img[y][x].r == img[0][0].r && img[y][x].g == img[0][0].g && img[y][x].b == img[0][0].b
    ensures !SegmentationMap(img, ChooseDetection(img, alphaThreshold, None, tolerance))[y][x]
  {
  }

  /** In alpha mode a fully transparent pixel is never foreground for a
      threshold >= 0, and a fully opaque one always is for a threshold below 255. */
  lemma AlphaExtremes(img: Image, alphaThreshold: int, bg: Option<Rgb>, tolerance: int, y: int, x: int)
    requires HasTransparency(img) && 0 <= y < |img| && 0 <= x < |img[y]|
    ensures img[y][x].a == 0 && alphaThreshold >= 0 ==>
      !SegmentationMap(img, ChooseDetection(img, alphaThreshold, bg, tolerance))[y][x]
    ensures img[y][x].a == 255 && alphaThreshold < 255 ==>
      SegmentationMap(img, ChooseDetection(img, alphaThreshold, bg, tolerance))[y][x]
  {
  }

  /** Raising the colour tolerance never turns background into foreground. */
  lemma {:induction false} ToleranceMonotone(p: Pixel, bg: Rgb, low: int, high: int)
    requires 0 <= low <= high
    ensures Differs(p, bg, high) ==> Differs(p, bg, low)
  {
    assert low * low <= low * high <= high * high;
  }

  /** A stricter threshold or tolerance gives a foreground map that is
      contained in the looser one. */
  lemma MapMonotone(img: Image, alphaLow: int, alphaHigh: int, bg: Option<Rgb>, low: int, high: int)
    requires CanDetect(img, bg) && alphaLow <= alphaHigh && 0 <= low <= high
    ensures forall y, x :: 0 <= y < |img| && 0 <= x < |img[y]| ==>
      (SegmentationMap(img, ChooseDetection(img, alphaHigh, bg, high))[y][x] ==>
       SegmentationMap(img, ChooseDetection(img, alphaLow, bg, low))[y][x])
  {
    var d := ChooseDetection(img, alphaHigh, bg, high);
    if d.ByColour? {
      forall y, x | 0 <= y < |img| && 0 <= x < |img[y]|
        ensures Differs(img[y][x], d.bg, high) ==> Differs(img[y][x], d.bg, low)
      {
        ToleranceMonotone(img[y][x], d.bg, low, high);
      }
    }
  }

  /** The area of a box, `w * h`: the box area, not the pixel count. */
  function Area(b: Box): int {
    b.w * b.h
  }

  /** The area filter: the boxes whose area reaches `minArea`, in their
      original order (see `Seqs.Filter` and `Seqs.FilterAppend`). */
  function KeepLarge(boxes: seq<Box>, minArea: int): seq<Box> {
    Filter(boxes, LargeEnough(minArea))
  }

  /** Accepts the boxes whose area reaches `minArea`. */
  function LargeEnough(minArea: int): Box -> bool {
    (b: Box) => Area(b) >= minArea
  }

  /** `segment_sprites_from_spritesheet`: build the map, scan it, filter
      by area. The result is the components' bounding boxes, in the
      row-major order of their first pixels, that are large enough. */
  method SegmentSprites(img: Image, alphaThreshold: int, bg: Option<Rgb>, tolerance: int, minArea: int)
    returns (sprites: seq<Box>)
    requires IsRect(img) && CanDetect(img, bg)
    ensures sprites == KeepLarge(ComponentBoxes(SheetMap(img, alphaThreshold, bg, tolerance)), minArea)
  {
    var m := SegmentationMap(img, ChooseDetection(img, alphaThreshold, bg, tolerance));
    SegmentationMapRect(img, ChooseDetection(img, alphaThreshold, bg, tolerance));
    var marks, boxes := Scan(m, false);
    sprites := KeepLarge(boxes, minArea);
  }

  /** The map the sheet is segmented with. */
  function SheetMap(img: Image, alphaThreshold: int, bg: Option<Rgb>, tolerance: int): (m: Mask)
    requires IsRect(img) && CanDetect(img, bg)
    ensures IsRect(m) && |m| == |img| && Width(m) == Width(img)
  {
    SegmentationMapRect(img, ChooseDetection(img, alphaThreshold, bg, tolerance));
    SegmentationMap(img, ChooseDetection(img, alphaThreshold, bg, tolerance))
  }

  /** Each kept sprite is the tight box of one foreground component, at
      least one pixel wide and high and inside the sheet, and its area
      reaches the minimum. */
  lemma SpritesAreComponents(img: Image, alphaThreshold: int, bg: Option<Rgb>, tolerance: int, minArea: int, b: Box)
    requires IsRect(img) && CanDetect(img, bg)
    requires b in KeepLarge(ComponentBoxes(SheetMap(img, alphaThreshold, bg, tolerance)), minArea)
    ensures Area(b) >= minArea && BoxInside(b, SheetMap(img, alphaThreshold, bg, tolerance))
    ensures exists i :: (0 <= i < |Seeds(SheetMap(img, alphaThreshold, bg, tolerance))| &&
      IsBoundingBox(b, Component(SheetMap(img, alphaThreshold, bg, tolerance), Seeds(SheetMap(img, alphaThreshold, bg, tolerance))[i])))
  {
    var m := SheetMap(img, alphaThreshold, bg, tolerance);
    FilterMembers(ComponentBoxes(m), LargeEnough(minArea));
    ComponentBoxesSpec(m);
    var i :| 0 <= i < |ComponentBoxes(m)| && ComponentBoxes(m)[i] == b;
    assert IsBoundingBox(b, Component(m, Seeds(m)[i]));
  }
}
