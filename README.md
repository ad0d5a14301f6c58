# Sprite-sheet tools, modelled in Dafny

This project models the image-processing core of a small set of Python
sprite-sheet scripts and proves properties of that model.

- **`spritesheet_to_gif.py`** turns a sprite sheet into an animated GIF. It can
  find the sprites itself:
  - it segments the sheet into foreground and background, by alpha or by colour
    distance from a background colour;
  - it flood-fills 4-connected foreground regions into bounding boxes and drops
    boxes below a minimum area;
  - it picks the most nearly square `cols x rows` factorisation of the sprite
  count.

  It cuts the sheet into equal cells. It can centre each frame's content: per
  frame, or with one union box shared by all frames. It validates its
  command-line arguments and parses a `#RRGGBB` background colour.
- **`clean_image_specks.py`** removes white specks:
  - candidates are near-white, non-transparent pixels;
  - every 4-connected group of candidates smaller than a minimum size becomes
    black;
  - alpha is kept.

  It also cleans batches of files into `<stem>-cleaned<suffix>` outputs.
- **`make_black_transparent.py`** replaces dark pixels with transparent black and
  counts them.
- **`make_transparent.py`** sets the alpha of pure white pixels to 0.

Modules:

| module | file | contents |
|---|---|---|
| `Pixels` | `pixels.dfy` | 8-bit channels, RGBA pixels, images as rows |
| `Components` | `components.dfy` | 4-connectivity and components. The explicit-stack flood fill on a marks array. The row-major seed scan. The scan numbers components when asked; that numbering stands in for `scipy.ndimage.label`. |
| `Segmentation` | `segmentation.dfy` | the segmentation map, the area filter, `segment_sprites_from_spritesheet` |
| `GridDetection` | `grid.dfy` | factorisations, the closest-to-square choice, the stable `(y, x)` sort, `detect_grid_dimensions`, the tolerance retry |
| `Framing` | `framing.dfy` | content bounding boxes, centring offsets, the union box, cell rectangles |
| `SheetArgs` | `cli.dfy` | `main`'s argument checks and the background-colour parse |
| `Specks` | `specks.dfy` | `clean_white_specks_with_transparency`, `batch_clean_images` |
| `BlackTransparent`, `WhiteTransparent`, `Saving` | `black.dfy`, `white.dfy`, `saving.dfy` | the two transparency scripts and their shared output-path rule |
| `Wrappers`, `Seqs`, `Arith` | `wrappers.dfy`, `seqs.dfy`, `arith.dfy` | `Option`, order-preserving filtering, integer facts |

The scripts' in-place work is kept in imperative form:
- the flood fill's stack and `visited` array;
- the sprite scan;
- the factorisation loop and the frame-cell loop;
- bincount;
- the speck clearing on an `array2` buffer;
- the batch loop;
- the transparency loops.

Each of these is a method proved against a specification function. The
whole-array expressions are functions, with lemmas about them.

The grid shape comes only from factorising the sprite count
(`GridDetection.DetectGridDimensions`).

The white-to-transparent script's comment says white becomes `(0, 0, 0, 0)`,
but the code writes `(255, 255, 255, 0)`. The model follows the code.

## Model

| member | source | states |
|---|---|---|
| `Segmentation.DiffersIsDistance` | scripts/spritesheet_to_gif.py:58-62 | The integer test (`tolerance < 0`, or squared distance above `tolerance²`) holds exactly when the Euclidean distance exceeds the tolerance, for every tolerance. |
| `Segmentation.ChooseDetection` | scripts/spritesheet_to_gif.py:40-53 | Alpha detection is chosen exactly when some pixel has alpha below 255, with the given threshold. Otherwise colour detection is used, against the given background or else the top-left pixel. |
| `Segmentation.SegmentationMap` | scripts/spritesheet_to_gif.py:44-62 | The map has the image's shape. A cell is foreground exactly when its alpha exceeds the threshold, or its colour is farther than the tolerance from the background. |
| `Segmentation.TopLeftIsBackground` | scripts/spritesheet_to_gif.py:51-62 | With the default background and a non-negative tolerance, every pixel coloured like the top-left pixel is background. |
| `Segmentation.AlphaExtremes` | scripts/spritesheet_to_gif.py:45-47 | In alpha mode, a fully transparent pixel is background for any threshold ≥ 0. An opaque pixel is foreground for any threshold < 255. |
| `Segmentation.ToleranceMonotone` | scripts/spritesheet_to_gif.py:61-62 | A pixel that differs at a higher tolerance also differs at every lower non-negative one. |
| `Segmentation.MapMonotone` | scripts/spritesheet_to_gif.py:44-62 | Raising the alpha threshold or the tolerance can only shrink the foreground. |
| `Segmentation.SegmentSprites` | scripts/spritesheet_to_gif.py:70-119 | The sprites returned are the bounding boxes of the map's 4-connected components, in row-major order of each component's first pixel, restricted to those whose area reaches the minimum. |
| `Segmentation.SpritesAreComponents` | scripts/spritesheet_to_gif.py:98-119 | Every returned sprite has area ≥ the minimum, lies inside the sheet, and is the tight bounding box of some component. |
| `Components.FloodFill` | scripts/spritesheet_to_gif.py:74-96 | The fill marks exactly the seed's 4-connected component and changes no other mark. It returns that component's tight bounding box. |
| `Components.Component` | scripts/spritesheet_to_gif.py:93-94 | A position is in the component of `p` exactly when a 4-connected foreground path links it to `p`. |
| `Components.ConnectedSymmetric` | scripts/spritesheet_to_gif.py:94 | The four pushed neighbours make connection symmetric: a path can be walked backwards. |
| `Components.ConnectedTrans` | scripts/spritesheet_to_gif.py:94 | Connection is transitive: paths compose. |
| `Components.SameComponent` | scripts/spritesheet_to_gif.py:80-94 | Connected positions have the same component, so a fill from any member finds the same region. |
| `Components.BoundingBoxTight` | scripts/spritesheet_to_gif.py:88-96 | The running min/max box of a non-empty set encloses it and touches it on all four sides. |
| `Components.Scan` | scripts/spritesheet_to_gif.py:98-103 | The scan returns one box per component, in row-major order of first pixels. When numbering, its marks give every foreground pixel the number of its component's seed and background 0. |
| `Components.ComponentBoxesSpec` | scripts/spritesheet_to_gif.py:98-103 | There are as many boxes as seeds. The i-th box is the tight bounding box of the i-th seed's component, inside the mask. |
| `Components.OneSeedPerComponent` | scripts/spritesheet_to_gif.py:99-103 | Every foreground pixel is connected to exactly one seed, the first pixel of its component. |
| `Components.PixelInOneBox` | scripts/spritesheet_to_gif.py:98-103 | Exactly one emitted box is the box of a foreground pixel's component, and that box encloses the pixel. |
| `Components.SeedOf` | scripts/spritesheet_to_gif.py:99-101 | Every foreground pixel's component has a first pixel in row-major order, where the scan starts its fill. |
| `Seqs.FilterMembers` | scripts/spritesheet_to_gif.py:116-119 | A filtering comprehension keeps exactly the elements its condition accepts. |
| `Seqs.FilterAppend` | scripts/spritesheet_to_gif.py:116-119 | A filtering comprehension keeps the original order. |
| `GridDetection.DivisorPairsSpec` | scripts/spritesheet_to_gif.py:159-163 | The candidate list holds exactly the pairs `(c, n // c)` with `c` dividing `n`, in increasing `c`. |
| `GridDetection.Factorizations` | scripts/spritesheet_to_gif.py:157-163 | The factorisation loop builds that list. |
| `GridDetection.DivisorPair` | scripts/spritesheet_to_gif.py:160-163 | Each column count pairs with a row count that multiplies back to the sprite count. |
| `GridDetection.FirstClosest` | scripts/spritesheet_to_gif.py:169 | `min` with key `abs(cols - rows)` returns the first pair of least gap. |
| `GridDetection.ClosestIsBest` | scripts/spritesheet_to_gif.py:167-171 | The chosen grid divides the count exactly and has `cols ≤ rows`. Its gap is minimal among all factorisations. Every smaller column count has a strictly larger gap. |
| `GridDetection.ClosestAgainst` | scripts/spritesheet_to_gif.py:169 | The chosen pair's gap is no larger than any divisor's. It is strictly smaller than that of any divisor listed before it. |
| `GridDetection.BestGridUnique` | scripts/spritesheet_to_gif.py:167-171 | The best grid is unique. |
| `GridDetection.InsertSorted` | scripts/spritesheet_to_gif.py:175-180 | Inserting into a `(y, x)`-sorted list keeps it sorted. |
| `GridDetection.SortSpec` | scripts/spritesheet_to_gif.py:175-180 | The sorted sprites are ordered by `(y, x)` and are a permutation of the input. Sprites at the same position keep their input order, as the stable sort does. |
| `GridDetection.SortPermutes` | scripts/spritesheet_to_gif.py:180 | The sort is ordered and a permutation. |
| `GridDetection.SortStable` | scripts/spritesheet_to_gif.py:180 | The sort is stable per position. |
| `GridDetection.DetectGridDimensions` | scripts/spritesheet_to_gif.py:134-193 | No grid exactly when fewer than two sprites reach the minimum size. Otherwise the grid is the best one for the count of those sprites, returned with those sprites sorted by `(y, x)`. |
| `GridDetection.AutoDetectGrid` | scripts/spritesheet_to_gif.py:391-425 | Segments with the given tolerance. If that finds no sprite and the tolerance is 80, segments again with 120. Fails exactly when fewer than two sized sprites remain; otherwise returns the best grid for them. |
| `Framing.First` | scripts/spritesheet_to_gif.py:223-224 | `np.where(...)[0][0]` is the first true index. |
| `Framing.Last` | scripts/spritesheet_to_gif.py:223-224 | `np.where(...)[0][-1]` is the last true index. |
| `Framing.MaskBBoxSpec` | scripts/spritesheet_to_gif.py:213-226 | No box exactly when the mask is empty. Otherwise `(xmin, ymin, xmax + 1, ymax + 1)` is the tight bounding box of its true cells. |
| `Framing.MaskBBoxTight` | scripts/spritesheet_to_gif.py:216-226 | A non-empty mask has a box, and it is tight. |
| `Framing.ContentBBoxAlphaSpec` | scripts/spritesheet_to_gif.py:196-226 | No box exactly when no pixel's alpha exceeds the threshold. Otherwise the tight box of those pixels. |
| `Framing.ContentBBoxColourSpec` | scripts/spritesheet_to_gif.py:229-268 | No box exactly when every pixel is within the tolerance of the background (given, or the top-left pixel). Otherwise the tight box of the pixels that are not. |
| `Framing.FrameBBox` | scripts/spritesheet_to_gif.py:326-348 | `none` gives no box. `color` uses colour. `auto` uses alpha for an RGBA frame with some transparency and colour otherwise. `alpha` uses alpha. |
| `Framing.CenterFrame` | scripts/spritesheet_to_gif.py:283-295 | No placement exactly when there is no box. Otherwise the crop is the box, the canvas is the frame size or the given size, and each offset leaves the two margins equal or the far one larger by 1. |
| `Framing.CenteredFits` | scripts/spritesheet_to_gif.py:293-306 | Content no larger than the canvas is pasted wholly inside it. |
| `Framing.UnionBox` | scripts/spritesheet_to_gif.py:486-497 | No union exactly when every frame's box is missing. Otherwise it contains every present box, and each of its four edges is attained by some box. |
| `Framing.CellRects` | scripts/spritesheet_to_gif.py:427-449 | The frame loop yields `rows * cols` cells in row-major order. Cell `i` is at row `i // cols`, column `i % cols`, with size `(W // cols, H // rows)`. |
| `Framing.CellInside` | scripts/spritesheet_to_gif.py:428-449 | Every cell lies inside the sheet. |
| `Framing.CellsDisjoint` | scripts/spritesheet_to_gif.py:443-449 | Distinct cells share no pixel. |
| `Framing.CellsCover` | scripts/spritesheet_to_gif.py:428-449 | Every pixel of the `cols*sw x rows*sh` area lies in the cell `(y // sh, x // sw)`. |
| `Framing.CellsUncover` | scripts/spritesheet_to_gif.py:428-449 | No cell holds a pixel right of or below the `cols*sw x rows*sh` area. |
| `SheetArgs.CheckArgs` | scripts/spritesheet_to_gif.py:658-706 | Accepted only when no check fails, carrying the colour read by the corrected parse (see Findings). Otherwise rejected with a failing check, every earlier check having passed. |
| `SheetArgs.CheckArgsRejectsSignedPair` | scripts/spritesheet_to_gif.py:692-706 | `--bg-color "#-f0000"`, which the parse as written accepts, is rejected by the checks as modelled, which use the corrected parse. |
| `SheetArgs.AcceptedArgsUsable` | scripts/spritesheet_to_gif.py:658-690 | Accepted arguments have a grid or auto-detection, positive cols/rows/fps, loop ≥ 0, alpha 0..100 and tolerance 0..255. |
| `SheetArgs.LStrip` | scripts/spritesheet_to_gif.py:697 | `lstrip('#')` removes exactly the leading `#`s. |
| `SheetArgs.AsWrittenAcceptsSignedPair` | scripts/spritesheet_to_gif.py:697-703 | As written, `#-f0000` parses to red = -15 (see Findings). |
| `SheetArgs.PyIntHex2` | scripts/spritesheet_to_gif.py:700-702 | `int(pair, 16)` on two ASCII characters succeeds exactly for two hex digits, or one hex digit after a sign or beside whitespace (tab, line feed, vertical tab, form feed, carriage return, space). The value lies in -15..255, is negative only after `-`, and is the two-digit value for two hex digits. |
| `SheetArgs.ParseBgColourAsWritten` | scripts/spritesheet_to_gif.py:697-703 | The parse as written succeeds only on six characters after the leading `#`s, exactly when each pair passes `int(pair, 16)`, with every channel in -15..255. |
| `SheetArgs.ParseBgColour` | scripts/spritesheet_to_gif.py:692-706 | The intended (corrected) parse, not what the lines do: a colour exactly when six hex digits follow the leading `#`s. |
| `SheetArgs.ParseAgreesOnHex` | scripts/spritesheet_to_gif.py:697-703 | On six hex digits the corrected parse and the parse as written agree. |
| `SheetArgs.ParseFormatRoundTrip` | scripts/spritesheet_to_gif.py:697-703 | Parsing `#rrggbb` formatted from any colour gives that colour back. |
| `SheetArgs.FormatParseRoundTrip` | scripts/spritesheet_to_gif.py:697-703 | Formatting a parsed colour gives back the digits, lower-cased. |
| `Specks.ValidateParams` | scripts/clean_image_specks.py:45-50 | No error exactly when the input exists, `1 ≤ min_speck_size ≤ 10000` and `0 ≤ white_threshold ≤ 255`. A missing input is reported first, then a bad size. |
| `Specks.CandidateMask` | scripts/clean_image_specks.py:62-76 | The mask has the image's shape. A cell is set exactly when r, g and b all exceed the threshold and alpha > 0. |
| `Specks.CandidatesShrink` | scripts/clean_image_specks.py:67-71 | A candidate at a higher threshold is a candidate at every lower one. |
| `Specks.BinCount` | scripts/clean_image_specks.py:82 | Entry `k` is the number of positions labelled `k`, for every label 0..n. |
| `Specks.LabelIsComponent` | scripts/clean_image_specks.py:79 | Label `k + 1` marks exactly the k-th component of the candidates. |
| `Specks.SmallIsCleared` | scripts/clean_image_specks.py:79-90 | `small_components[labeled]` selects a position exactly when it is a candidate whose component has fewer than `min_speck_size` pixels. Label 0 is never selected. |
| `Specks.ClearSmall` | scripts/clean_image_specks.py:90-110 | Each selected pixel gets RGB 0 and keeps its alpha; every other pixel is unchanged. The count is the number of selected pixels. |
| `Specks.CleanWhiteSpecks` | scripts/clean_image_specks.py:44-110 | Validation errors come first. Otherwise each output pixel is the input pixel, blackened with alpha kept exactly when it is cleared. `pixels cleaned` is the number of cleared pixels. |
| `Specks.CleanPixelKeepsAlpha` | scripts/clean_image_specks.py:94-100 | Alpha never changes; a cleared pixel's RGB is 0; other pixels are unchanged. |
| `Specks.ClearedWholeComponent` | scripts/clean_image_specks.py:79-90 | A component is cleared as a whole: any candidate connected to a cleared pixel is cleared. |
| `Specks.MinSizeOneClearsNothing` | scripts/clean_image_specks.py:86-90 | With `min_speck_size = 1` no pixel is cleared. |
| `Specks.MaxThresholdClearsNothing` | scripts/clean_image_specks.py:67-71 | With threshold 255 no pixel is a candidate, so none is cleared. |
| `Specks.OutputPaths` | scripts/clean_image_specks.py:143-146 | Each output path is `<dir>/<stem>-cleaned<suffix>`, in the output directory if given, beside the input otherwise. |
| `Specks.OutputBesideInput` | scripts/clean_image_specks.py:145-146 | Without an output directory, the output name differs from the input's, so the input is not overwritten. |
| `Specks.BatchCleanImages` | scripts/clean_image_specks.py:138-154 | The result is the output paths of the successful inputs, in input order; failures are skipped. |
| `Specks.BatchOutputsSucceeded` | scripts/clean_image_specks.py:148-154 | A path is returned exactly when some input with that output path succeeded. |
| `BlackTransparent.BlackToClear` | scripts/make_black_transparent.py:29-41 | The output has one pixel per input pixel. |
| `BlackTransparent.BlackToClearSpec` | scripts/make_black_transparent.py:33-38 | A pixel with r, g, b ≤ threshold becomes `(0,0,0,0)` whatever its alpha. Every other pixel, alpha included, is copied. |
| `BlackTransparent.MakeBlackTransparent` | scripts/make_black_transparent.py:7-45 | The loop's output is the pixel map of the input. `pixels_changed` is the number of input pixels meeting the test. The result is saved to the output path or over the input. |
| `BlackTransparent.DefaultOnlyPureBlack` | scripts/make_black_transparent.py:7-33 | With the default threshold 0, exactly the pure black pixels (at any alpha) are replaced. |
| `BlackTransparent.BlackToClearIdempotent` | scripts/make_black_transparent.py:33-38 | A second pass changes nothing. |
| `BlackTransparent.ThresholdMonotone` | scripts/make_black_transparent.py:33 | A higher threshold replaces every pixel a lower one does. |
| `BlackTransparent.ThresholdExtremes` | scripts/make_black_transparent.py:27-36 | From 255 up every pixel is counted. Below 0 none is, and the image is unchanged. |
| `WhiteTransparent.WhiteToClear` | scripts/make_transparent.py:24-33 | One output pixel per input pixel. |
| `WhiteTransparent.WhiteToClearSpec` | scripts/make_transparent.py:24-30 | RGB is never altered. Alpha becomes 0 exactly on pure white pixels and is otherwise kept. Non-white pixels are copied unchanged. |
| `WhiteTransparent.WhiteToClearIdempotent` | scripts/make_transparent.py:26-30 | A second pass changes nothing. |
| `WhiteTransparent.MakeWhiteTransparent` | scripts/make_transparent.py:7-37 | The loop's output is the pixel map of the input, saved to the output path or over the input. |
| `Saving.SaveTarget` | scripts/make_black_transparent.py:44 | A non-empty output path is used. A missing or empty one means the input path. |
| `Saving.SaveTargetOverwrites` | scripts/make_transparent.py:36 | The input is overwritten exactly when no output path, an empty one, or the input's own path is given. |

## Left out

- File I/O and encoding are not modelled: `Image.open`, `convert`, `save`, `getdata`/`putdata`, GIF assembly, `os.makedirs` and `os.path` calls. Images arrive decoded as RGBA rows (for the transparency scripts, as the flat row-major pixel list), and the results stay as values or arrays.
- Pixel copying by PIL (`crop`, `paste`, `Image.new`) is not modelled. `Framing.CenterFrame` gives the crop rectangle, canvas size and paste offsets.
- Progress and diagnostic `print`s, `np.median`, and the percentage figures are not modelled.
- The specks-removed figure printed by `clean_image_specks.py` is not modelled. It subtracts 1 for a background label that was already excluded, so it reports one fewer than the number of small components.
- The alpha-percentage scaling `int(alpha_threshold / 100 * 255)` and the frame duration `int(1000 / fps)` are float arithmetic. They are left out: the segmentation and content-box members take the already-scaled threshold.
- `Segmentation.Differs`: the source takes a float32 square root. The model compares the exact squared integer distance, which `Segmentation.DiffersIsDistance` shows is the exact-arithmetic meaning. Float rounding at the boundary is not modelled.
- `scipy.ndimage.label` is not modelled internally. It is replaced by the model's own numbered 4-connected scan (`Components.Scan` with numbering), which labels components in row-major order of first pixels. The proved properties use only "one label per component".
- `Segmentation.SegmentSprites` requires a non-empty sheet, or some transparency, or a given background. On an empty opaque sheet with no background, the source raises `IndexError` reading the top-left pixel. `Framing.ContentBBoxColour` has the same requirement.
- `SheetArgs.CheckArgs` checks `--bg-color` with the corrected parse of the Findings row, so it rejects signed or space-padded pairs (`#-f0000`, `#+f0000`, `# f0000`) that `main` accepts and passes on.
- `SheetArgs.PyIntHex2` models `int(s, 16)` for ASCII input only. Python also accepts non-ASCII Unicode digits and whitespace there.
- `argparse` wiring, `sys.argv` parsing and the default output path are not modelled. `main` derives that path as `<input dir>/<input name>.gif`.
- `Specks.BatchCleanImages` takes each input's success or failure as given. Whether cleaning raises depends on the file system and the parameters (`Specks.ValidateParams`). `pathlib` joining is modelled as `dir + "/" + name`.
- `Specks.CleanWhiteSpecks` requires a rectangular image, as every decoded image is.
- The frame loop's `frames` and `bboxes` lists are not modelled as a whole. They are covered by `Framing.CellRects` (which cells, in which order), `Framing.FrameBBox` (each frame's box), `Framing.UnionBox` and `Framing.CenterFrame` (unified and per-frame centring).

## Findings

| source | as written | input that shows it | evidently intended | confidence | as-written member | corrected member |
|---|---|---|---|---|---|---|
| scripts/spritesheet_to_gif.py:697-703 | Each channel is read with `int(pair, 16)`. That also accepts a sign or surrounding whitespace, so a pair can parse to a negative number or to a single digit. | `--bg-color "#-f0000"` parses to the colour `(-15, 0, 0)`, which is not an 8-bit colour and is passed on as the background. | Exactly six hex digits, each pair read as a channel in 0..255. | high; not executed | `SheetArgs.AsWrittenAcceptsSignedPair` | `SheetArgs.ParseFormatRoundTrip` |
