/** `make_transparent.py`: every pure white pixel keeps its colour and has
    its alpha set to 0. The pixels are the flat row-major sequence
    `getdata` yields. */
module WhiteTransparent {
  import opened Wrappers
  import opened Pixels
  import opened Saving

  predicate IsPureWhite(p: Pixel) {
    p.r == 255 && p.g == 255 && p.b == 255
  }

  /** One pixel through the loop body: white with alpha 0 for pure white,
      otherwise unchanged. */
  function ClearWhite(p: Pixel): Pixel {
    if IsPureWhite(p) then Pixel(255, 255, 255, 0) else p
  }

  /** The whole output, position by position. */
  function WhiteToClear(data: seq<Pixel>): (r: seq<Pixel>)
    ensures |r| == |data|
  {
    seq(|data|, i requires 0 <= i < |data| => ClearWhite(data[i]))
  }

  /** No colour channel is ever altered; alpha becomes 0 exactly on pure
      white pixels and is otherwise kept. */
  lemma WhiteToClearSpec(data: seq<Pixel>)
    ensures forall i :: 0 <= i < |data| ==>
      var p, q := data[i], WhiteToClear(data)[i];
      q.r == p.r && q.g == p.g && q.b == p.b && (q.a == if IsPureWhite(p) then 0 else p.a)
    ensures forall i :: 0 <= i < |data| && !IsPureWhite(data[i]) ==> WhiteToClear(data)[i] == data[i]
  {
  }

  /** A second pass changes nothing. */
  lemma WhiteToClearIdempotent(data: seq<Pixel>)
    ensures WhiteToClear(WhiteToClear(data)) == WhiteToClear(data)
  {
  }

  /** `make_white_transparent` once the image is decoded: the loop appends
      each mapped pixel; the result is written to the output path, or over
      the input when none is given. */
  method MakeWhiteTransparent(inputPath: string, outputPath: Option<string>, data: seq<Pixel>)
    returns (newData: seq<Pixel>, savedTo: string)
    ensures newData == WhiteToClear(data)
    ensures savedTo == SaveTarget(inputPath, outputPath)
  {
    newData := [];
    for i := 0 to |data|
      invariant newData == WhiteToClear(data[..i])
    {
      var item := data[i];
      if item.r == 255 && item.g == 255 && item.b == 255 {
        newData := newData + [Pixel(255, 255, 255, 0)];
      } else {
        newData := newData + [item];
      }
    }
    assert data[..|data|] == data;
    savedTo := SaveTarget(inputPath, outputPath);
  }
}
