/** White-speck removal from `clean_image_specks.py`: near-white pixels that
    are not transparent form 4-connected components, and every component
    smaller than the minimum speck size has its colour set to black while
    the alpha channel is kept. */
module Specks {
  import opened Wrappers
  import opened Pixels
  import opened Components
  import opened Seqs

  /** The errors raised before any pixel is read, in the order they are checked. */
  datatype SpeckError = InputNotFound | BadMinSpeckSize | BadWhiteThreshold

  const DefaultMinSpeckSize := 50
  const DefaultWhiteThreshold := 250

  /** The checks at the top of `clean_white_specks_with_transparency`: the
      input must exist, then the minimum size must lie in 1..10000, then the
      threshold in 0..255; the first failing check is the error raised. */
  function ValidateParams(inputExists: bool, minSpeckSize: int, whiteThreshold: int): (r: Option<SpeckError>)
    ensures r.None? <==> inputExists && 1 <= minSpeckSize <= 10000 && 0 <= whiteThreshold <= 255
    ensures r == Some(InputNotFound) <==> !inputExists
    ensures r == Some(BadMinSpeckSize) <==> inputExists && !(1 <= minSpeckSize <= 10000)
  {
    if !inputExists then Some(InputNotFound)
    else if !(1 <= minSpeckSize <= 10000) then Some(BadMinSpeckSize)
    else if !(0 <= whiteThreshold <= 255) then Some(BadWhiteThreshold)
    else None
  }

  /** A speck candidate: all three colour channels strictly above the
      threshold, and not fully transparent. */
  predicate IsCandidate(p: Pixel, whiteThreshold: int) {
    p.r > whiteThreshold && p.g > whiteThreshold && p.b > whiteThreshold && p.a > 0
  }

  /** The candidate mask (`white_in_opaque`), the same shape as the image. */
  function CandidateMask(img: Image, whiteThreshold: int): (m: Mask)
    ensures |m| == |img|
    ensures forall y :: 0 <= y < |img| ==> |m[y]| == |img[y]|
    ensures forall y, x :: 0 <= y < |img| && 0 <= x < |img[y]| ==>
      (m[y][x] <==> IsCandidate(img[y][x], whiteThreshold))
  {
    seq(|img|, y requires 0 <= y < |img| =>
      seq(|img[y]|, x requires 0 <= x < |img[y]| => IsCandidate(img[y][x], whiteThreshold)))
  }

  lemma CandidateMaskRect(img: Image, whiteThreshold: int)
    requires IsRect(img)
    ensures IsRect(CandidateMask(img, whiteThreshold))
    ensures Width(CandidateMask(img, whiteThreshold)) == Width(img)
  {
  }

  /** The pixel at `c` is cleared: it is a candidate whose 4-connected
      component of candidates has fewer than `minSpeckSize` pixels. */
  ghost predicate Cleared(img: Image, whiteThreshold: int, minSpeckSize: int, c: Coord) {
    var m := CandidateMask(img, whiteThreshold);
    Fg(m, c) && |Component(m, c)| < minSpeckSize
  }

  /** Every cleared position. */
  ghost function ClearedCells(img: Image, whiteThreshold: int, minSpeckSize: int): set<Coord> {
    set y, x | 0 <= y < |img| && 0 <= x < |img[y]| && Cleared(img, whiteThreshold, minSpeckSize, Coord(x, y))
      :: Coord(x, y)
  }

  /** What happens to one pixel: a cleared pixel becomes black with its
      alpha kept, any other pixel stays as it is. */
  function CleanPixel(p: Pixel, clear: bool): Pixel {
    if clear then Pixel(0, 0, 0, p.a) else p
  }

  /** The alpha channel survives cleaning, and a pixel's colour changes only
      when it is cleared, and then to black. */
  lemma CleanPixelKeepsAlpha(p: Pixel, clear: bool)
    ensures CleanPixel(p, clear).a == p.a
    ensures clear ==> CleanPixel(p, clear).r == 0 && CleanPixel(p, clear).g == 0 && CleanPixel(p, clear).b == 0
    ensures !clear ==> CleanPixel(p, clear) == p
  {
  }

  /** A component is removed or kept as a whole: every candidate connected
      to a cleared pixel is cleared too. */
  lemma ClearedWholeComponent(img: Image, whiteThreshold: int, minSpeckSize: int, c: Coord, d: Coord)
    requires Cleared(img, whiteThreshold, minSpeckSize, c)
    requires Connected(CandidateMask(img, whiteThreshold), c, d)
    ensures Cleared(img, whiteThreshold, minSpeckSize, d)
  {
    var m := CandidateMask(img, whiteThreshold);
    ConnectedEnds(m, c, d);
    SameComponent(m, c, d);
  }

  /** With a minimum size of 1 nothing is small enough to clear, since every
      component holds at least the pixel it was found from. */
  lemma MinSizeOneClearsNothing(img: Image, whiteThreshold: int)
    ensures ClearedCells(img, whiteThreshold, 1) == {}
  {
    var m := CandidateMask(img, whiteThreshold);
    forall y, x | 0 <= y < |img| && 0 <= x < |img[y]|
      ensures !Cleared(img, whiteThreshold, 1, Coord(x, y))
    {
      if Fg(m, Coord(x, y)) {
        ConnectedRefl(m, Coord(x, y));
        assert Coord(x, y) in Component(m, Coord(x, y));
      }
    }
  }

  /** A threshold of 255 admits no candidate, so nothing is cleared. */
  lemma MaxThresholdClearsNothing(img: Image, minSpeckSize: int)
    ensures ClearedCells(img, 255, minSpeckSize) == {}
  {
  }

  /** Raising the threshold can only shrink the candidate set. */
  lemma CandidatesShrink(p: Pixel, t1: int, t2: int)
    requires t1 <= t2 && IsCandidate(p, t2)
    ensures IsCandidate(p, t1)
  {
  }

  // Counting positions in row-major order.

  /** The positions of a grid `w` wide that come before `(x, y)` in
      row-major order. */
  ghost function Prefix(w: int, y: int, x: int): set<Coord> {
    set yy, xx | 0 <= yy <= y && 0 <= xx < w && Before(Coord(xx, yy), Coord(x, y)) :: Coord(xx, yy)
  }

  lemma PrefixStart(w: int, s: set<Coord>)
    ensures s * Prefix(w, 0, 0) == {}
  {
  }

  /** Moving one position on adds exactly that position. */
  lemma PrefixStep(s: set<Coord>, w: int, y: int, x: int)
    requires 0 <= y && 0 <= x < w
    ensures |s * Prefix(w, y, x + 1)| == |s * Prefix(w, y, x)| + (if Coord(x, y) in s then 1 else 0)
  {
    var c := Coord(x, y);
    var before, after := s * Prefix(w, y, x), s * Prefix(w, y, x + 1);
    assert c !in before;
    if c in s {
      assert c in after;
      forall d | d in after ensures d in before + {c} {
      }
      assert after == before + {c};
    } else {
      forall d | d in after ensures d in before {
      }
      assert after == before;
    }
  }

  /** The end of one row is the start of the next. */
  lemma PrefixRow(w: int, y: int)
    requires y >= 0
    ensures Prefix(w, y, w) == Prefix(w, y + 1, 0)
  {
    forall c | c in Prefix(w, y + 1, 0) ensures c in Prefix(w, y, w) {
      assert 0 <= c.y <= y && 0 <= c.x < w;
    }
  }

  /** Past the last row the prefix holds every position of the grid. */
  lemma PrefixAll(s: set<Coord>, w: int, h: int)
    requires forall c :: c in s ==> 0 <= c.y < h && 0 <= c.x < w
    ensures s * Prefix(w, h, 0) == s
  {
    forall c | c in s ensures c in Prefix(w, h, 0) {
      assert 0 <= c.y <= h && 0 <= c.x < w && Before(c, Coord(0, h));
    }
  }

  // Component sizes from the labels.

  /** The positions carrying label `k`. */
  ghost function LabelCells(labels: array2<int>, k: int): set<Coord>
    reads labels
  {
    set y, x | 0 <= y < labels.Length0 && 0 <= x < labels.Length1 && labels[y, x] == k :: Coord(x, y)
  }

  /** `np.bincount(labeled.ravel())`: for each label from 0 to `n`, the
      number of positions carrying it. */
  method BinCount(labels: array2<int>, n: nat) returns (sizes: seq<nat>)
    requires forall y, x :: 0 <= y < labels.Length0 && 0 <= x < labels.Length1 ==> 0 <= labels[y, x] <= n
    ensures |sizes| == n + 1
    ensures forall k :: 0 <= k <= n ==> sizes[k] == |LabelCells(labels, k)|
  {
    var w := labels.Length1;
    sizes := seq(n + 1, _ => 0);
    forall k | 0 <= k <= n ensures sizes[k] == |LabelCells(labels, k) * Prefix(w, 0, 0)| {
      PrefixStart(w, LabelCells(labels, k));
    }
    for y := 0 to labels.Length0
      invariant |sizes| == n + 1
      invariant forall k :: 0 <= k <= n ==> sizes[k] == |LabelCells(labels, k) * Prefix(w, y, 0)|
    {
      for x := 0 to w
        invariant |sizes| == n + 1
        invariant forall k :: 0 <= k <= n ==> sizes[k] == |LabelCells(labels, k) * Prefix(w, y, x)|
      {
        var l := labels[y, x];
        forall k | 0 <= k <= n
          ensures |LabelCells(labels, k) * Prefix(w, y, x + 1)|
            == |LabelCells(labels, k) * Prefix(w, y, x)| + (if k == l then 1 else 0)
        {
          PrefixStep(LabelCells(labels, k), w, y, x);
        }
        sizes := sizes[l := sizes[l] + 1];
      }
      PrefixRow(w, y);
    }
    forall k | 0 <= k <= n ensures sizes[k] == |LabelCells(labels, k)| {
      PrefixAll(LabelCells(labels, k), w, labels.Length0);
    }
  }

  /** Under a numbered labelling, label `k + 1` marks exactly the component
      of the k-th seed. */
  lemma LabelIsComponent(m: Mask, labels: array2<int>, k: int)
    requires IsRect(m) && Labelled(m, labels, true)
    requires 0 <= k < |Seeds(m)|
    ensures LabelCells(labels, k + 1) == Component(m, Seeds(m)[k])
  {
    var s := Seeds(m)[k];
    forall c | c in LabelCells(labels, k + 1) ensures c in Component(m, s) {
      assert labels[c.y, c.x] == k + 1;
    }
    forall c | c in Component(m, s) ensures c in LabelCells(labels, k + 1) {
      ConnectedEnds(m, s, c);
      var j := labels[c.y, c.x] - 1;
      OneSeedPerComponent(m, c);
      assert Connected(m, Seeds(m)[j], c);
    }
  }

  /** `small_components[labeled]` at one position: the label is a real
      component (not 0) whose size is below the minimum. */
  predicate Small(sizes: seq<nat>, minSpeckSize: int, lab: int) {
    1 <= lab < |sizes| && sizes[lab] < minSpeckSize
  }

  /** The positions `remove_mask` selects. */
  ghost function SmallCells(labels: array2<int>, sizes: seq<nat>, minSpeckSize: int): set<Coord>
    reads labels
  {
    set y, x | 0 <= y < labels.Length0 && 0 <= x < labels.Length1 && Small(sizes, minSpeckSize, labels[y, x])
      :: Coord(x, y)
  }

  /** The buffer holds the image with every selected pixel before `(x, y)`
      in row-major order cleaned and every other pixel as it was. */
  ghost predicate ClearedUpTo(out: array2<Pixel>, img: Image, labels: array2<int>, sizes: seq<nat>,
                              minSpeckSize: int, y: int, x: int)
    reads out, labels
    requires IsRect(img) && out.Length0 == labels.Length0 == |img| && out.Length1 == labels.Length1 == Width(img)
  {
    forall yy, xx :: 0 <= yy < |img| && 0 <= xx < Width(img) ==>
      out[yy, xx] == (if Before(Coord(xx, yy), Coord(x, y))
                      then CleanPixel(img[yy][xx], Small(sizes, minSpeckSize, labels[yy, xx]))
                      else img[yy][xx])
  }

  /** The removal step on the output buffer, a copy of the image: every
      selected pixel loses its colour and keeps its alpha, every other pixel
      is left alone, and the count returned is the number of selected pixels
      (`np.sum(remove_mask)`). */
  method ClearSmall(out: array2<Pixel>, img: Image, labels: array2<int>, sizes: seq<nat>, minSpeckSize: int)
    returns (count: nat)
    requires IsRect(img) && out.Length0 == labels.Length0 == |img| && out.Length1 == labels.Length1 == Width(img)
    requires forall y, x :: 0 <= y < |img| && 0 <= x < Width(img) ==> out[y, x] == img[y][x]
    modifies out
    ensures forall y, x :: 0 <= y < |img| && 0 <= x < Width(img) ==>
      out[y, x] == CleanPixel(img[y][x], Small(sizes, minSpeckSize, labels[y, x]))
    ensures count == |SmallCells(labels, sizes, minSpeckSize)|
  {
    var w := out.Length1;
    ghost var sel := SmallCells(labels, sizes, minSpeckSize);
    count := 0;
    PrefixStart(w, sel);
    for y := 0 to out.Length0
      invariant count == |sel * Prefix(w, y, 0)|
      invariant ClearedUpTo(out, img, labels, sizes, minSpeckSize, y, 0)
    {
      count := ClearRow(out, img, labels, sizes, minSpeckSize, y, count);
      PrefixRow(w, y);
    }
    PrefixAll(sel, w, out.Length0);
    forall y, x | 0 <= y < |img| && 0 <= x < Width(img)
      ensures out[y, x] == CleanPixel(img[y][x], Small(sizes, minSpeckSize, labels[y, x]))
    {
      assert Before(Coord(x, y), Coord(0, |img|));
    }
  }

  /** One row of the removal step, adding the row's selected pixels to `count`. */
  method ClearRow(out: array2<Pixel>, img: Image, labels: array2<int>, sizes: seq<nat>, minSpeckSize: int,
                  y: nat, count0: nat)
    returns (count: nat)
    requires IsRect(img) && out.Length0 == labels.Length0 == |img| && out.Length1 == labels.Length1 == Width(img)
    requires y < |img|
    requires ClearedUpTo(out, img, labels, sizes, minSpeckSize, y, 0)
    requires count0 == |SmallCells(labels, sizes, minSpeckSize) * Prefix(Width(img), y, 0)|
    modifies out
    ensures ClearedUpTo(out, img, labels, sizes, minSpeckSize, y + 1, 0)
    ensures count == |SmallCells(labels, sizes, minSpeckSize) * Prefix(Width(img), y, Width(img))|
  {
    var w := out.Length1;
    ghost var sel := SmallCells(labels, sizes, minSpeckSize);
    count := count0;
    for x := 0 to w
      invariant count == |sel * Prefix(w, y, x)|
      invariant ClearedUpTo(out, img, labels, sizes, minSpeckSize, y, x)
    {
      PrefixStep(sel, w, y, x);
      label L:
      if Small(sizes, minSpeckSize, labels[y, x]) {
        assert Coord(x, y) in sel;
        out[y, x] := Pixel(0, 0, 0, out[y, x].a);
        count := count + 1;
      } else {
        assert Coord(x, y) !in sel;
      }
      forall yy, xx | 0 <= yy < |img| && 0 <= xx < w
        ensures out[yy, xx] == (if Before(Coord(xx, yy), Coord(x + 1, y))
                                then CleanPixel(img[yy][xx], Small(sizes, minSpeckSize, labels[yy, xx]))
                                else img[yy][xx])
      {
        if yy != y || xx != x {
          assert out[yy, xx] == old@L(out[yy, xx]);
        }
      }
    }
  }

  /** The sizes counted from a numbered labelling of the candidates. */
  ghost predicate SizesOfLabels(img: Image, whiteThreshold: int, labels: array2<int>, sizes: seq<nat>)
    reads labels
    requires IsRect(img)
  {
    && Labelled(CandidateMask(img, whiteThreshold), labels, true)
    && |sizes| == |Seeds(CandidateMask(img, whiteThreshold))| + 1
    && forall k :: 0 <= k < |sizes| ==> sizes[k] == |LabelCells(labels, k)|
  }

  /** At one position, the removal selection agrees with the clearing rule. */
  lemma SmallIsClearedAt(img: Image, whiteThreshold: int, minSpeckSize: int, labels: array2<int>, sizes: seq<nat>,
                         y: int, x: int)
    requires IsRect(img) && SizesOfLabels(img, whiteThreshold, labels, sizes)
    requires 0 <= y < |img| && 0 <= x < Width(img)
    ensures Small(sizes, minSpeckSize, labels[y, x]) <==> Cleared(img, whiteThreshold, minSpeckSize, Coord(x, y))
  {
    var m := CandidateMask(img, whiteThreshold);
    CandidateMaskRect(img, whiteThreshold);
    if m[y][x] {
      var k := labels[y, x] - 1;
      LabelIsComponent(m, labels, k);
      SameComponent(m, Seeds(m)[k], Coord(x, y));
    }
  }

  /** With the component sizes counted from a numbered labelling, the
      removal selection is exactly the set of cleared pixels. */
  lemma SmallIsCleared(img: Image, whiteThreshold: int, minSpeckSize: int, labels: array2<int>, sizes: seq<nat>)
    requires IsRect(img) && SizesOfLabels(img, whiteThreshold, labels, sizes)
    ensures forall y, x :: 0 <= y < |img| && 0 <= x < Width(img) ==>
      (Small(sizes, minSpeckSize, labels[y, x]) <==> Cleared(img, whiteThreshold, minSpeckSize, Coord(x, y)))
    ensures SmallCells(labels, sizes, minSpeckSize) == ClearedCells(img, whiteThreshold, minSpeckSize)
  {
    CandidateMaskRect(img, whiteThreshold);
    forall y, x | 0 <= y < |img| && 0 <= x < Width(img)
      ensures Small(sizes, minSpeckSize, labels[y, x]) <==> Cleared(img, whiteThreshold, minSpeckSize, Coord(x, y))
    {
      SmallIsClearedAt(img, whiteThreshold, minSpeckSize, labels, sizes, y, x);
    }
  }

  /** `clean_white_specks_with_transparency` on a decoded image: after the
      parameter checks, the candidates are labelled by 4-connected
      component, the components are sized, and the output buffer, a copy of
      the image, has the colour of every pixel of a small component set to
      black; alpha is never touched. Also returns the pixels-cleaned count. */
  method CleanWhiteSpecks(img: Image, inputExists: bool, minSpeckSize: int, whiteThreshold: int)
    returns (err: Option<SpeckError>, out: array2<Pixel>, pixelsCleaned: nat)
    requires IsRect(img)
    ensures err == ValidateParams(inputExists, minSpeckSize, whiteThreshold)
    ensures fresh(out)
    ensures err.None? ==> out.Length0 == |img| && out.Length1 == Width(img)
    ensures err.None? ==> forall y, x :: 0 <= y < |img| && 0 <= x < Width(img) ==>
      out[y, x] == CleanPixel(img[y][x], Cleared(img, whiteThreshold, minSpeckSize, Coord(x, y)))
    ensures err.None? ==> pixelsCleaned == |ClearedCells(img, whiteThreshold, minSpeckSize)|
  {
    err := ValidateParams(inputExists, minSpeckSize, whiteThreshold);
    if err.Some? {
      out := new Pixel[0, 0]((_, _) => Pixel(0, 0, 0, 0));
      pixelsCleaned := 0;
      return;
    }
    var m := CandidateMask(img, whiteThreshold);
    CandidateMaskRect(img, whiteThreshold);
    var labeled, boxes := Scan(m, true);
    ComponentBoxesSpec(m);
    var sizes := BinCount(labeled, |boxes|);
    out := new Pixel[|img|, Width(img)]((y, x) requires 0 <= y < |img| && 0 <= x < Width(img) => img[y][x]);
    pixelsCleaned := ClearSmall(out, img, labeled, sizes, minSpeckSize);
    SmallIsCleared(img, whiteThreshold, minSpeckSize, labeled, sizes);
  }

  // Batch cleaning.

  /** An input path as `pathlib` splits it. */
  datatype PathParts = PathParts(parent: string, stem: string, suffix: string)

  /** One input of a batch and whether cleaning it returned without raising
      (a missing file, a rejected parameter or a failed read or write make
      it fail). */
  datatype Attempt = Attempt(path: PathParts, ok: bool)

  function Succeeded(a: Attempt): bool { a.ok }

  /** The output path of an input: `<stem>-cleaned<suffix>` in the output
      directory when one is given, beside the input otherwise. */
  function OutputPath(p: PathParts, outputDir: Option<string>): string {
    (if outputDir.Some? then outputDir.value else p.parent) + "/" + p.stem + "-cleaned" + p.suffix
  }

  /** Without an output directory the output is written beside the input
      under a different name, so the input is never overwritten. */
  lemma OutputBesideInput(p: PathParts)
    ensures OutputPath(p, None) != p.parent + "/" + p.stem + p.suffix
  {
    assert |OutputPath(p, None)| == |p.parent + "/" + p.stem + p.suffix| + 8;
  }

  /** The output paths of some attempts, in their order. */
  function OutputPaths(attempts: seq<Attempt>, outputDir: Option<string>): (r: seq<string>)
    ensures |r| == |attempts|
    ensures forall i :: 0 <= i < |attempts| ==> r[i] == OutputPath(attempts[i].path, outputDir)
  {
    seq(|attempts|, i requires 0 <= i < |attempts| => OutputPath(attempts[i].path, outputDir))
  }

  /** `batch_clean_images`: the output paths of the inputs that were cleaned,
      in input order; failed inputs are skipped. */
  method BatchCleanImages(attempts: seq<Attempt>, outputDir: Option<string>) returns (outputPaths: seq<string>)
    ensures outputPaths == OutputPaths(Filter(attempts, Succeeded), outputDir)
  {
    outputPaths := [];
    for i := 0 to |attempts|
      invariant outputPaths == OutputPaths(Filter(attempts[..i], Succeeded), outputDir)
    {
      FilterAppend(attempts[..i], [attempts[i]], Succeeded);
      assert attempts[..i + 1] == attempts[..i] + [attempts[i]];
      assert Filter([attempts[i]], Succeeded) == if attempts[i].ok then [attempts[i]] else [];
      if attempts[i].ok {
        outputPaths := outputPaths + [OutputPath(attempts[i].path, outputDir)];
      }
    }
    assert attempts[..|attempts|] == attempts;
  }

  /** Every returned path belongs to an input that was cleaned, and every
      cleaned input's path is returned. */
  lemma BatchOutputsSucceeded(attempts: seq<Attempt>, outputDir: Option<string>)
    ensures forall o :: o in OutputPaths(Filter(attempts, Succeeded), outputDir) <==>
      exists a :: a in attempts && a.ok && o == OutputPath(a.path, outputDir)
  {
    var kept := Filter(attempts, Succeeded);
    FilterMembers(attempts, Succeeded);
    forall o | o in OutputPaths(kept, outputDir)
      ensures exists a :: a in attempts && a.ok && o == OutputPath(a.path, outputDir)
    {
      var i :| 0 <= i < |kept| && OutputPaths(kept, outputDir)[i] == o;
      assert kept[i] in kept;
    }
    forall a | a in attempts && a.ok
      ensures OutputPath(a.path, outputDir) in OutputPaths(kept, outputDir)
    {
      assert a in kept;
      var i :| 0 <= i < |kept| && kept[i] == a;
      assert OutputPaths(kept, outputDir)[i] == OutputPath(a.path, outputDir);
    }
  }
}
