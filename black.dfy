/** `make_black_transparent.py`: every pixel whose three colour channels
    are all at or below the threshold becomes fully transparent black, and
    the changed pixels are counted. The pixels are the flat row-major
    sequence `getdata` yields. */
module BlackTransparent {
  import opened Wrappers
  import opened Pixels
  import opened Seqs
  import opened Saving

  /** The default threshold: only pure black is replaced. */
  const DefaultThreshold := 0

  const Clear := Pixel(0, 0, 0, 0)

  /** The replacement test; the alpha channel plays no part in it. */
  predicate IsDark(p: Pixel, threshold: int) {
    p.r <= threshold && p.g <= threshold && p.b <= threshold
  }

  function Dark(threshold: int): Pixel -> bool {
    p => IsDark(p, threshold)
  }

  /** One pixel through the loop body. */
  function ClearDark(p: Pixel, threshold: int): Pixel {
    if IsDark(p, threshold) then Clear else p
  }

  /** The whole output: pixel `i` of the result comes from pixel `i` of
      the input alone. */
  function BlackToClear(data: seq<Pixel>, threshold: int): (r: seq<Pixel>)
    ensures |r| == |data|
  {
    seq(|data|, i requires 0 <= i < |data| => ClearDark(data[i], threshold))
  }

  /** A dark pixel becomes transparent black whatever its alpha was; every
      other pixel, alpha included, is copied unchanged. */
  lemma BlackToClearSpec(data: seq<Pixel>, threshold: int)
    ensures forall i :: 0 <= i < |data| && IsDark(data[i], threshold) ==> BlackToClear(data, threshold)[i] == Clear
    ensures forall i :: 0 <= i < |data| && !IsDark(data[i], threshold) ==> BlackToClear(data, threshold)[i] == data[i]
  {
  }

  /** With the default threshold a pixel is replaced exactly when it is
      pure black, at any alpha. */
  lemma DefaultOnlyPureBlack(p: Pixel)
    ensures IsDark(p, DefaultThreshold) <==> p.r == 0 && p.g == 0 && p.b == 0
  {
  }

  /** A second pass changes nothing: transparent black is itself dark at
      any threshold that lets a pixel through, and every other pixel is
      already not dark. */
  lemma BlackToClearIdempotent(data: seq<Pixel>, threshold: int)
    ensures BlackToClear(BlackToClear(data, threshold), threshold) == BlackToClear(data, threshold)
  {
    var once := BlackToClear(data, threshold);
    forall i | 0 <= i < |data|
      ensures BlackToClear(once, threshold)[i] == once[i]
    {
      if IsDark(data[i], threshold) {
        assert threshold >= 0;
      }
    }
  }

  /** A higher threshold replaces every pixel a lower one does. */
  lemma ThresholdMonotone(p: Pixel, t1: int, t2: int)
    requires t1 <= t2 && IsDark(p, t1)
    ensures IsDark(p, t2)
  {
  }

  /** From 255 up every pixel is replaced and counted; below 0 none is. */
  lemma {:induction false} ThresholdExtremes(data: seq<Pixel>, threshold: int)
    ensures threshold >= 255 ==> |Filter(data, Dark(threshold))| == |data|
    ensures threshold < 0 ==> Filter(data, Dark(threshold)) == [] && BlackToClear(data, threshold) == data
  {
    if |data| > 0 {
      ThresholdExtremes(data[1..], threshold);
    }
  }

  /** `make_black_transparent` once the image is decoded: the loop appends
      each mapped pixel and counts the replaced ones; the result is written
      to the output path, or over the input when none is given. */
  method MakeBlackTransparent(inputPath: string, outputPath: Option<string>, data: seq<Pixel>, threshold: int)
    returns (newData: seq<Pixel>, pixelsChanged: nat, savedTo: string)
    ensures newData == BlackToClear(data, threshold)
    ensures pixelsChanged == |Filter(data, Dark(threshold))|
    ensures savedTo == SaveTarget(inputPath, outputPath)
  {
    newData := [];
    pixelsChanged := 0;
    for i := 0 to |data|
      invariant newData == BlackToClear(data[..i], threshold)
      invariant pixelsChanged == |Filter(data[..i], Dark(threshold))|
    {
      var item := data[i];
      assert data[..i + 1] == data[..i] + [item];
      FilterAppend(data[..i], [item], Dark(threshold));
      assert Filter([item], Dark(threshold)) == if IsDark(item, threshold) then [item] else [];
      if item.r <= threshold && item.g <= threshold && item.b <= threshold {
        newData := newData + [Clear];
        pixelsChanged := pixelsChanged + 1;
      } else {
        newData := newData + [item];
      }
    }
    assert data[..|data|] == data;
    savedTo := SaveTarget(inputPath, outputPath);
  }
}
