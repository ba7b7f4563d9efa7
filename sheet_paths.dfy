/** Where `pack` (`src/atlas.rs`) puts its outputs: the output directory
    resolved against the configuration file's directory, and the path of the
    saved sheet image that `save_as` reports. */
module SheetPaths {
  import opened Wrappers
  import opened Text
  import opened Paths
  import opened AtlasTypes

  /** `Config::fixed_output_path`: the configured output path, joined onto
      the directory of the configuration file when one was given. An absolute
      output path is kept as it is; a relative one ends up after that
      directory and a separator; either way the result ends with it. */
  function FixedOutputPath(outputPath: string, inputPath: Option<string>): (r: string)
    ensures inputPath.None? || Parent(inputPath.value).None? || IsAbsolute(outputPath) ==> r == outputPath
    ensures inputPath.Some? && Parent(inputPath.value).Some? && !IsAbsolute(outputPath) ==>
      var parent := Parent(inputPath.value).value;
      StartsWith(r, parent) && |r| >= |outputPath| && r[|r| - |outputPath|..] == outputPath &&
      (parent != "" && parent[|parent| - 1] != '/' ==> r == parent + "/" + outputPath) &&
      (parent == "/" ==> r == "/" + outputPath)
    ensures inputPath.Some? && Parent(inputPath.value) == Some("") ==> r == outputPath
  {
    match inputPath
    case None => outputPath
    case Some(path) =>
      match Parent(path)
      case None => outputPath
      case Some(parent) => Join(parent, outputPath)
  }

  /** The file extension of each sheet image format. */
  function ImageExtension(format: OutputExtensionType): (e: string)
    ensures PlainExtension(e)
  {
    match format
    case Png => "png"
    case Qoi => "qoi"
    case Jpg => "jpg"
  }

  /** The file `save_as` writes the sheet image to: `path.with_extension(ext)`. */
  function SheetFile(path: string, format: OutputExtensionType): string {
    WithExtension(path, ImageExtension(format))
  }

  /** The path `save_as` returns as written: `path.push(ext)`, which appends
      the extension as a further path component. */
  function SaveAsAsWritten(path: string, format: OutputExtensionType): (r: string)
    ensures StartsWith(r, path)
    ensures FileName(r) == Some(ImageExtension(format))
  {
    var e := ImageExtension(format);
    assert !IsAbsolute(e) by { assert e[0] != '/'; }
    var r := Join(path, e);
    assert r == (if path == "" || path[|path| - 1] == '/' then path + e else path + "/" + e);
    assert r[|r| - |e|..] == e;
    NameOfPushed(r, e);
    r
  }

  /** A path that ends in a separator-free component has that component
      as its file name. */
  lemma NameOfPushed(r: string, e: string)
    requires PlainExtension(e) && |e| <= |r| && r[|r| - |e|..] == e
    requires |r| == |e| || r[|r| - |e| - 1] == '/'
    ensures FileName(r) == Some(e)
  {
    PushedNameStart(r, e);
    assert e != "." && e != ".." by { assert e[0] != '.'; }
  }

  /** The pushed component starts after the last separator. */
  lemma PushedNameStart(r: string, e: string)
    requires PlainExtension(e) && |e| <= |r| && r[|r| - |e|..] == e
    requires |r| == |e| || r[|r| - |e| - 1] == '/'
    ensures NameEnd(r) == |r| && NameStart(r) == |r| - |e|
  {
    SeparatorFreeTail(r, e);
    TrimNothing(r);
    LastIndexAfter(r, '/', |r| - |e|);
  }

  /** The text after the pushed separator is `e`, which has none. */
  lemma SeparatorFreeTail(r: string, e: string)
    requires '/' !in e && |e| <= |r| && r[|r| - |e|..] == e
    ensures forall j :: |r| - |e| <= j < |r| ==> r[j] != '/'
  {
    var k := |r| - |e|;
    assert forall j :: k <= j < |r| ==> r[j] == e[j - k];
  }

  /** The returned path never names the file that was written: the written
      file's name ends in `.ext`, the returned path's last component is the
      bare extension (for `out/atlas` and PNG: `out/atlas.png` is written,
      `out/atlas/png` is recorded as the sheet path). */
  lemma SaveAsAsWrittenMissesSheet(path: string, format: OutputExtensionType)
    ensures SaveAsAsWritten(path, format) != SheetFile(path, format)
  {
    PushedExtensionIsNotExtension(path, ImageExtension(format));
  }

  /** Pushing `e` as a component never yields the path with extension `e`:
      the one has a separator before `e`, the other a `.`. */
  lemma PushedExtensionIsNotExtension(path: string, e: string)
    requires PlainExtension(e)
    ensures Join(path, e) != WithExtension(path, e)
  {
    assert !IsAbsolute(e) by { assert e[0] != '/'; }
    if FileName(path).Some? {
      var a := Join(path, e);
      var w := WithExtension(path, e);
      assert w == path[..StemEnd(path)] + "." + e;
      assert path != "";
      if |a| == |w| {
        assert a[|a| - |e| - 1] == '/';
        assert w[|w| - |e| - 1] == '.';
      }
    }
  }

  /** `save_as` with the returned path corrected to the file it writes: the
      path with its extension set to the format's, so the descriptor names
      the image actually saved. */
  function SaveAs(path: string, format: OutputExtensionType): (r: string)
    ensures r == SheetFile(path, format)
    ensures FileName(path).Some? ==> Extension(r) == Some(ImageExtension(format))
  {
    var ext := ImageExtension(format);
    if FileName(path).Some? then
      WithExtensionSetsExtension(path, ext);
      WithExtension(path, ext)
    else WithExtension(path, ext)
  }
}
