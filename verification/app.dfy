/**
 What the viewer does with a file dropped on its window: load it, export the
 explode animation next to it as `<input path>_out.png`, and report a load
 failure. Window, drawing and playback are not modelled.
 */
module App {
  import opened CStrings
  import opened GifSave
  import opened Explode

  /** What is appended to a dropped file's path to name its animation. */
  const OutputSuffix: CString := "_out.png"

  const OutputStem: CString := "_out"

  /** `string_append_prefix("_out.png", input_path)`: the input path comes first. */
  function OutputPath(inputPath: CString): (r: CString)
    ensures r == inputPath + OutputSuffix
    ensures |r| == |inputPath| + 8
  {
    AppendPrefix(OutputSuffix, inputPath)
  }

  /** The output path ends in `.png`, so it selects the animated PNG encoder. */
  lemma OutputIsApng(inputPath: CString)
    ensures EndsWith(OutputPath(inputPath), PngExtension)
    ensures IsApngPath(OutputPath(inputPath))
  {
    var stem: CString := inputPath + OutputStem;
    assert OutputSuffix == OutputStem + PngExtension;
    assert OutputPath(inputPath) == stem + PngExtension;
    EndsWithConcat(stem, PngExtension);
  }

  /** The library is handed `APNG:<input path>_out.png`, which never takes the `.gif` delay branch. */
  lemma OutputTarget(inputPath: CString)
    ensures Target(OutputPath(inputPath)) == ApngPrefix + inputPath + OutputSuffix
    ensures !IsGifPath(Target(OutputPath(inputPath)))
  {
    var output := OutputPath(inputPath);
    OutputIsApng(inputPath);
    assert ApngPrefix + output == ApngPrefix + inputPath + OutputSuffix;
    ApngTargetIsNotGif(output);
  }

  /** The result of `load_image`: a decoded image, or no pixel data. */
  datatype Loaded = NotLoaded | Loaded(image: Image)

  /** What handling one dropped file ends in. */
  datatype Dropped =
    | LoadFailed(exitCode: int)
    | Exported(output: CString, saving: Export)

  /**
   Handling the first dropped file: the output path is computed, the file is
   loaded, a load failure ends the program with status 1, and otherwise the
   image is exported to the output path.
   */
  function DropFile(inputPath: CString, loaded: Loaded, curve: Curve, resize: Resizer,
                    assets: seq<Asset>, codec: Codec): (r: Dropped)
    requires loaded.Loaded? ==> loaded.image.Valid()
    requires |assets| == DecorativeFrameCount
    ensures loaded.NotLoaded? <==> r == LoadFailed(1)
    ensures r.Exported? ==>
              && r.output == inputPath + OutputSuffix
              && r.saving == ImageToExplodeGif(loaded.image, r.output, curve, resize, assets, codec)
              && r.saving.frames.frames[0] == loaded.image.data
              && r.saving.saved == Save(r.saving.frames, r.output, codec)
              && FramesOf(Delayed, r.saving.saved.trace) == []
  {
    var output := OutputPath(inputPath);
    match loaded
    case NotLoaded => LoadFailed(1)
    case Loaded(image) =>
      var saving := ImageToExplodeGif(image, output, curve, resize, assets, codec);
      OutputIsApng(inputPath);
      ApngSaveHasNoDelays(saving.frames, output, codec);
      Exported(output, saving)
  }

  /**
   A loaded image whose frames all import and whose write succeeds is saved,
   all 31 frames in order, to `APNG:<input path>_out.png`.
   */
  lemma DropFileSaves(inputPath: CString, image: Image, curve: Curve, resize: Resizer,
                      assets: seq<Asset>, codec: Codec)
    requires image.Valid() && |assets| == DecorativeFrameCount
    requires forall j :: 0 <= j < FrameCount ==> codec.imports(j)
    requires codec.writes
    ensures var r := DropFile(inputPath, Loaded(image), curve, resize, assets, codec);
            && r.Exported? && r.saving.saved.ok
            && FramesOf(Added, r.saving.saved.trace) == Range(0, FrameCount)
            && Write(ApngPrefix + inputPath + OutputSuffix) in r.saving.saved.trace
  {
    var r := DropFile(inputPath, Loaded(image), curve, resize, assets, codec);
    OutputTarget(inputPath);
    SaveSucceeds(r.saving.frames, OutputPath(inputPath), codec);
  }
}
