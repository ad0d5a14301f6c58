/** The frame geometry of `spritesheet_to_gif`: tight content boxes
    (`get_content_bbox_alpha`, `get_content_bbox_color`), the choice between
    them, centring offsets (`center_frame`), the union box of unified
    centring and the grid cells frames are cut from. Only rectangles and
    offsets are modelled; the pixel copying of `crop` and `paste` is not. */
module Framing {
  import opened Wrappers
  import opened Pixels
  import opened Arith
  import opened Components
  import opened Segmentation

  /** A half-open rectangle `(left, top, right, bottom)`, as PIL's `crop`
      takes it and the content-box functions return it. */
  datatype Rect = Rect(left: int, top: int, right: int, bottom: int)

  /** The same rectangle as an `(x, y, w, h)` box. */
  function AsBox(r: Rect): Box {
    Box(r.left, r.top, r.right - r.left, r.bottom - r.top)
  }

  /** The positions where `m` is true. */
  ghost function Foreground(m: Mask): set<Coord> {
    set y, x | 0 <= y < |m| && 0 <= x < |m[y]| && m[y][x] :: Coord(x, y)
  }

  /** `np.any(mask, axis=1)`: which rows hold a true cell. */
  function RowsAny(m: Mask): (rows: seq<bool>)
    ensures |rows| == |m|
  {
    seq(|m|, y requires 0 <= y < |m| => exists x | 0 <= x < |m[y]| :: m[y][x])
  }

  /** `np.any(mask, axis=0)`: which columns hold a true cell. */
  function ColsAny(m: Mask): (cols: seq<bool>)
    requires IsRect(m)
    ensures |cols| == Width(m)
  {
    seq(Width(m), x requires 0 <= x < Width(m) => exists y | 0 <= y < |m| :: m[y][x])
  }

  /** The first index of a true entry (`np.where(s)[0][0]`). */
  function First(s: seq<bool>): (i: nat)
    requires true in s
    ensures i < |s| && s[i]
    ensures forall j :: 0 <= j < i ==> !s[j]
  {
    if s[0] then 0 else 1 + First(s[1..])
  }

  /** The last index of a true entry (`np.where(s)[0][-1]`). */
  function Last(s: seq<bool>): (i: nat)
    requires true in s
    ensures i < |s| && s[i]
    ensures forall j :: i < j < |s| ==> !s[j]
  {
    if s[|s| - 1] then |s| - 1 else Last(s[..|s| - 1])
  }

  /** The bounding-box step shared by both content-box functions: `None`
      when no row or no column holds a true cell, else the half-open box
      from the first to one past the last true row and column. */
  function MaskBBox(m: Mask): Option<Rect>
    requires IsRect(m)
  {
    var rows, cols := RowsAny(m), ColsAny(m);
    if !(true in rows) || !(true in cols) then None
    else Some(Rect(First(cols), First(rows), Last(cols) + 1, Last(rows) + 1))
  }

  /** `MaskBBox` finds nothing exactly when the mask is all false, and
      otherwise returns the tight box of its true cells. */
  lemma MaskBBoxSpec(m: Mask)
    requires IsRect(m)
    ensures MaskBBox(m).None? <==> Foreground(m) == {}
    ensures MaskBBox(m).Some? ==> IsBoundingBox(AsBox(MaskBBox(m).value), Foreground(m))
  {
    var fg := Foreground(m);
    if fg != {} {
      MaskBBoxTight(m);
    } else {
      forall y, x | 0 <= y < |m| && 0 <= x < |m[y]|
        ensures !m[y][x]
      {
        assert Coord(x, y) !in fg;
      }
      assert !(true in RowsAny(m));
    }
  }

  lemma MaskBBoxTight(m: Mask)
    requires IsRect(m) && Foreground(m) != {}
    ensures MaskBBox(m).Some? && IsBoundingBox(AsBox(MaskBBox(m).value), Foreground(m))
  {
    var rows, cols := RowsAny(m), ColsAny(m);
    var fg := Foreground(m);
    var c :| c in fg;
    assert rows[c.y] && cols[c.x];
    var ymin, ymax, xmin, xmax := First(rows), Last(rows), First(cols), Last(cols);
    var b := AsBox(MaskBBox(m).value);
    forall c' | c' in fg
      ensures b.x <= c'.x < b.x + b.w && b.y <= c'.y < b.y + b.h
    {
      assert rows[c'.y] && cols[c'.x];
    }
    var xt :| 0 <= xt < |m[ymin]| && m[ymin][xt];
    var xb :| 0 <= xb < |m[ymax]| && m[ymax][xb];
    var yl :| 0 <= yl < |m| && m[yl][xmin];
    var yr :| 0 <= yr < |m| && m[yr][xmax];
    assert Coord(xt, ymin) in fg && Coord(xb, ymax) in fg;
    assert Coord(xmin, yl) in fg && Coord(xmax, yr) in fg;
  }

  /** `get_content_bbox_alpha` (on a frame already in RGBA): the tight box
      of the pixels whose alpha exceeds `threshold`. */
  function ContentBBoxAlpha(frame: Image, threshold: int): Option<Rect>
    requires IsRect(frame)
  {
    SegmentationMapRect(frame, ByAlpha(threshold));
    MaskBBox(SegmentationMap(frame, ByAlpha(threshold)))
  }

  /** `get_content_bbox_color`: the tight box of the pixels whose colour is
      further than `tolerance` from `bg`, which defaults to the top-left
      pixel (reading it from an empty frame raises). */
  function ContentBBoxColour(frame: Image, bg: Option<Rgb>, tolerance: int): Option<Rect>
    requires IsRect(frame) && (bg.Some? || (|frame| > 0 && |frame[0]| > 0))
  {
    var d := ByColour(if bg.Some? then bg.value else TopLeft(frame), tolerance);
    SegmentationMapRect(frame, d);
    MaskBBox(SegmentationMap(frame, d))
  }

  /** `None` exactly when no pixel has alpha above the threshold; otherwise
      the tight box of those pixels, inside the frame. */
  lemma ContentBBoxAlphaSpec(frame: Image, threshold: int)
    requires IsRect(frame)
    ensures ContentBBoxAlpha(frame, threshold).None? <==>
      forall y, x :: 0 <= y < |frame| && 0 <= x < |frame[y]| ==> frame[y][x].a <= threshold
    ensures ContentBBoxAlpha(frame, threshold).Some? ==>
      IsBoundingBox(AsBox(ContentBBoxAlpha(frame, threshold).value), Foreground(SegmentationMap(frame, ByAlpha(threshold))))
  {
    var m := SegmentationMap(frame, ByAlpha(threshold));
    SegmentationMapRect(frame, ByAlpha(threshold));
    MaskBBoxSpec(m);
    if Foreground(m) != {} {
      var c :| c in Foreground(m);
      assert frame[c.y][c.x].a > threshold;
    } else {
      forall y, x | 0 <= y < |frame| && 0 <= x < |frame[y]|
        ensures frame[y][x].a <= threshold
      {
        assert Coord(x, y) !in Foreground(m);
      }
    }
  }

  /** `None` exactly when every pixel is within `tolerance` of the
      background colour; otherwise the tight box of the pixels that are not. */
  lemma ContentBBoxColourSpec(frame: Image, bg: Option<Rgb>, tolerance: int)
    requires IsRect(frame) && (bg.Some? || (|frame| > 0 && |frame[0]| > 0))
    ensures var c := if bg.Some? then bg.value else TopLeft(frame);
      ContentBBoxColour(frame, bg, tolerance).None? <==>
        forall y, x :: 0 <= y < |frame| && 0 <= x < |frame[y]| ==> !Differs(frame[y][x], c, tolerance)
    ensures var c := if bg.Some? then bg.value else TopLeft(frame);
      ContentBBoxColour(frame, bg, tolerance).Some? ==>
        IsBoundingBox(AsBox(ContentBBoxColour(frame, bg, tolerance).value),
                      Foreground(SegmentationMap(frame, ByColour(c, tolerance))))
  {
    var c := if bg.Some? then bg.value else TopLeft(frame);
    var m := SegmentationMap(frame, ByColour(c, tolerance));
    SegmentationMapRect(frame, ByColour(c, tolerance));
    MaskBBoxSpec(m);
    if Foreground(m) != {} {
      var p :| p in Foreground(m);
      assert Differs(frame[p.y][p.x], c, tolerance);
    } else {
      forall y, x | 0 <= y < |frame| && 0 <= x < |frame[y]|
        ensures !Differs(frame[y][x], c, tolerance)
      {
        assert Coord(x, y) !in Foreground(m);
      }
    }
  }

  /** How frames are centred (`--center`). */
  datatype CenterMode = NoCentering | Auto | AlphaCentering | ColourCentering

  /** The colour path of the frame-box choice is taken. */
  predicate UsesColour(frame: Image, rgba: bool, mode: CenterMode) {
    mode == ColourCentering || (mode == Auto && !(rgba && HasTransparency(frame)))
  }

  /** The content box of one frame under a centring mode, as chosen in
      `auto_detect_and_center` and in the unified loop of
      `spritesheet_to_gif`: `Auto` uses alpha for an RGBA frame with any
      transparency and colour otherwise. `rgba` says whether the sheet was
      decoded as RGBA; `NoCentering` computes no box. */
  function FrameBBox(frame: Image, rgba: bool, mode: CenterMode, alphaThreshold: int, bg: Option<Rgb>, tolerance: int)
    : (r: Option<Rect>)
    requires IsRect(frame)
    requires UsesColour(frame, rgba, mode) ==> bg.Some? || (|frame| > 0 && |frame[0]| > 0)
    ensures mode == NoCentering ==> r.None?
    ensures UsesColour(frame, rgba, mode) ==> r == ContentBBoxColour(frame, bg, tolerance)
    ensures mode != NoCentering && !UsesColour(frame, rgba, mode) ==> r == ContentBBoxAlpha(frame, alphaThreshold)
  {
    match mode
    case NoCentering => None
    case AlphaCentering => ContentBBoxAlpha(frame, alphaThreshold)
    case ColourCentering => ContentBBoxColour(frame, bg, tolerance)
    case Auto =>
      if rgba && HasTransparency(frame) then ContentBBoxAlpha(frame, alphaThreshold)
      else ContentBBoxColour(frame, bg, tolerance)
  }

  /** Where `center_frame` puts the content: a canvas of `canvasW` by
      `canvasH`, with the `crop` of the frame pasted at `(offsetX, offsetY)`. */
  datatype Placement = Placement(canvasW: int, canvasH: int, crop: Rect, offsetX: int, offsetY: int)

  /** `center_frame`: `None` (the frame returned unchanged) without a box;
      otherwise the content box centred on a canvas of `frameSize`, which
      defaults to the frame's own size, using floor division for the offsets. */
  function CenterFrame(frameW: int, frameH: int, bbox: Option<Rect>, frameSize: Option<(int, int)>)
    : (p: Option<Placement>)
    ensures p.None? <==> bbox.None?
    ensures p.Some? ==> (p.value.crop == bbox.value &&
      (p.value.canvasW, p.value.canvasH) == (if frameSize.Some? then frameSize.value else (frameW, frameH)))
    ensures p.Some? ==> Balanced(p.value.canvasW, bbox.value.right - bbox.value.left, p.value.offsetX)
    ensures p.Some? ==> Balanced(p.value.canvasH, bbox.value.bottom - bbox.value.top, p.value.offsetY)
  {
    if bbox.None? then None
    else
      var (w, h) := if frameSize.Some? then frameSize.value else (frameW, frameH);
      var b := bbox.value;
      Some(Placement(w, h, b, (w - (b.right - b.left)) / 2, (h - (b.bottom - b.top)) / 2))
  }

  /** The content of length `content` at `offset` leaves equal margins on
      both sides of a canvas of length `canvas`, or one more on the far side. */
  predicate Balanced(canvas: int, content: int, offset: int) {
    var far := canvas - content - offset;
    far == offset || far == offset + 1
  }

  /** Content no larger than the canvas lands wholly on it. */
  lemma CenteredFits(canvas: int, content: int, offset: int)
    requires 0 <= content <= canvas && Balanced(canvas, content, offset)
    ensures 0 <= offset && offset + content <= canvas
  {
  }

  /** The smallest rectangle holding `a` and `b`. */
  function Join(a: Rect, b: Rect): Rect {
    Rect(Min(a.left, b.left), Min(a.top, b.top), Max(a.right, b.right), Max(a.bottom, b.bottom))
  }

  /** The union box of unified centring: `None` when every frame's box is
      `None`, else the element-wise min of the lefts and tops and max of the
      rights and bottoms of the boxes present. */
  function UnionBox(boxes: seq<Option<Rect>>): (u: Option<Rect>)
    ensures u.None? <==> forall i :: 0 <= i < |boxes| ==> boxes[i].None?
    ensures u.Some? ==> forall i :: 0 <= i < |boxes| && boxes[i].Some? ==> Within(boxes[i].value, u.value)
    ensures u.Some? ==> exists i :: 0 <= i < |boxes| && boxes[i].Some? && boxes[i].value.left == u.value.left
    ensures u.Some? ==> exists i :: 0 <= i < |boxes| && boxes[i].Some? && boxes[i].value.top == u.value.top
    ensures u.Some? ==> exists i :: 0 <= i < |boxes| && boxes[i].Some? && boxes[i].value.right == u.value.right
    ensures u.Some? ==> exists i :: 0 <= i < |boxes| && boxes[i].Some? && boxes[i].value.bottom == u.value.bottom
  {
    if |boxes| == 0 then None
    else
      var rest := UnionBox(boxes[1..]);
      if boxes[0].None? then rest
      else if rest.None? then boxes[0]
      else Some(Join(boxes[0].value, rest.value))
  }

  /** `inner` lies within `outer`, edge by edge. */
  predicate Within(inner: Rect, outer: Rect) {
    outer.left <= inner.left && outer.top <= inner.top && inner.right <= outer.right && inner.bottom <= outer.bottom
  }

  /** The crop rectangle of the frame in grid row `row`, column `col`. */
  function CellAt(spriteW: int, spriteH: int, row: int, col: int): Rect {
    Rect(col * spriteW, row * spriteH, col * spriteW + spriteW, row * spriteH + spriteH)
  }

  /** The frame loop of `spritesheet_to_gif`: row by row, column by column,
      the rectangle each frame is cropped from; each frame is the sheet's
      size floor-divided by the grid's. */
  method CellRects(sheetW: nat, sheetH: nat, cols: int, rows: int) returns (cells: seq<Rect>)
    requires cols >= 1 && rows >= 1
    ensures |cells| == rows * cols
    ensures forall i :: 0 <= i < |cells| ==> cells[i] == CellAt(sheetW / cols, sheetH / rows, i / cols, i % cols)
  {
    var spriteW, spriteH := sheetW / cols, sheetH / rows;
    cells := [];
    for row := 0 to rows
      invariant |cells| == row * cols
      invariant forall i :: 0 <= i < |cells| ==> cells[i] == CellAt(spriteW, spriteH, i / cols, i % cols)
    {
      for col := 0 to cols
        invariant |cells| == row * cols + col
        invariant forall i :: 0 <= i < |cells| ==> cells[i] == CellAt(spriteW, spriteH, i / cols, i % cols)
      {
        DivModUnique(row * cols + col, cols, row, col);
        cells := cells + [Rect(col * spriteW, row * spriteH, col * spriteW + spriteW, row * spriteH + spriteH)];
      }
      assert (row + 1) * cols == row * cols + cols;
    }
  }

  /** `(x, y)` lies in the half-open rectangle `r`. */
  predicate Holds(r: Rect, x: int, y: int) {
    r.left <= x < r.right && r.top <= y < r.bottom
  }

  /** Every cell lies inside the sheet. */
  lemma CellInside(sheetW: nat, sheetH: nat, cols: int, rows: int, row: int, col: int)
    requires cols >= 1 && rows >= 1 && 0 <= row < rows && 0 <= col < cols
    ensures var c := CellAt(sheetW / cols, sheetH / rows, row, col);
      0 <= c.left <= c.right <= sheetW && 0 <= c.top <= c.bottom <= sheetH
  {
    var sw, sh := sheetW / cols, sheetH / rows;
    DivFits(sheetW, cols);
    DivFits(sheetH, rows);
    MulNonNegative(col, sw);
    MulNonNegative(row, sh);
    MulMonotone(col + 1, cols, sw);
    MulMonotone(row + 1, rows, sh);
    assert (col + 1) * sw == col * sw + sw && cols * sw == sw * cols;
    assert (row + 1) * sh == row * sh + sh && rows * sh == sh * rows;
  }

  /** Distinct cells share no pixel. */
  lemma CellsDisjoint(sw: nat, sh: nat, r1: int, c1: int, r2: int, c2: int, x: int, y: int)
    requires (r1, c1) != (r2, c2)
    ensures !(Holds(CellAt(sw, sh, r1, c1), x, y) && Holds(CellAt(sw, sh, r2, c2), x, y))
  {
    if r1 < r2 {
      MulMonotone(r1 + 1, r2, sh);
    } else if r2 < r1 {
      MulMonotone(r2 + 1, r1, sh);
    } else if c1 < c2 {
      MulMonotone(c1 + 1, c2, sw);
    } else {
      MulMonotone(c2 + 1, c1, sw);
    }
  }

  /** Every pixel of the `cols * spriteW` by `rows * spriteH` top-left part
      of the sheet lies in a cell (`CellsUncover` shows that pixels right of
      or below it, the remainders of the floor divisions, lie in none). */
  lemma CellsCover(sw: int, sh: int, cols: int, rows: int, x: int, y: int)
    requires sw >= 1 && sh >= 1 && cols >= 1 && rows >= 1
    requires 0 <= x < cols * sw && 0 <= y < rows * sh
    ensures 0 <= y / sh < rows && 0 <= x / sw < cols && Holds(CellAt(sw, sh, y / sh, x / sw), x, y)
  {
    DivModUnique(x, sw, x / sw, x % sw);
    DivModUnique(y, sh, y / sh, y % sh);
    if x / sw >= cols {
      MulMonotone(cols, x / sw, sw);
    }
    if y / sh >= rows {
      MulMonotone(rows, y / sh, sh);
    }
  }

  /** Pixels right of or below the `cols * spriteW` by `rows * spriteH`
      area, the remainders of the floor divisions, lie in no cell. */
  lemma CellsUncover(sw: nat, sh: nat, cols: int, rows: int, row: int, col: int, x: int, y: int)
    requires 0 <= row < rows && 0 <= col < cols
    requires x >= cols * sw || y >= rows * sh
    ensures !Holds(CellAt(sw, sh, row, col), x, y)
  {
    MulMonotone(col + 1, cols, sw);
    MulMonotone(row + 1, rows, sh);
    assert (col + 1) * sw == col * sw + sw && (row + 1) * sh == row * sh + sh;
  }
}
