/** Where the two transparency scripts write their result. */
module Saving {
  import opened Wrappers

  /** `output_path if output_path else input_path`: an absent or empty
      output path means the input file is overwritten. */
  function SaveTarget(inputPath: string, outputPath: Option<string>): (target: string)
    ensures outputPath.Some? && outputPath.value != [] ==> target == outputPath.value
    ensures outputPath.None? || outputPath.value == [] ==> target == inputPath
  {
    match outputPath
    case Some(p) => if p != [] then p else inputPath
    case None => inputPath
  }

  /** The input survives exactly when a non-empty output path other than
      the input's own is given. */
  lemma SaveTargetOverwrites(inputPath: string, outputPath: Option<string>)
    ensures SaveTarget(inputPath, outputPath) == inputPath <==>
      outputPath.None? || outputPath.value == [] || outputPath.value == inputPath
  {
  }
}
