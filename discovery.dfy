/** Asset discovery in `pack` (`src/atlas.rs`): which walked files become
    textures, the logical name each is filed under, and where its nine-patch
    sidecar is looked for. */
module Discovery {
  import opened Wrappers
  import opened Text
  import opened Paths
  import opened AtlasTypes

  /** How a kept file is decoded. */
  datatype SourceKind = PngSource | AsepriteSource

  /** The file filter: a `.png` is always kept, an `.aseprite` file only when
      the aseprite feature is on, anything else is dropped. The extension is
      compared exactly, so `.PNG` is dropped. */
  function Classify(file: string, features: Features): (k: Option<SourceKind>)
    ensures k == Some(PngSource) <==> Extension(file) == Some("png")
    ensures k == Some(AsepriteSource) <==> Extension(file) == Some("aseprite") && features.aseprite
    ensures k.Some? ==> FileName(file).Some?
  {
    if Extension(file) != Some("png") then
      if features.aseprite then
        if Extension(file) != Some("aseprite") then None else Some(AsepriteSource)
      else None
    else Some(PngSource)
  }

  /** The prefix trimmed off names: `"{parent}/"` for the directory of the
      configuration file, when there is one. */
  function TrimPrefix(inputPath: Option<string>): Option<string> {
    match inputPath
    case None => None
    case Some(path) =>
      match Parent(path)
      case None => None
      case Some(parent) => Some(parent + "/")
  }

  /** The logical name of a walked file: the path, without its extension
      unless `show_extension` is set; every `\` turned into `/`; every `./`
      deleted, wherever it occurs; then the `"{parent}/"` prefix stripped as
      many times as it repeats. The result has no `\` and does not begin with
      the prefix. */
  function LogicalName(file: string, showExtension: bool, inputPath: Option<string>): (name: string)
    ensures '\\' !in name
    ensures TrimPrefix(inputPath).Some? ==> !StartsWith(name, TrimPrefix(inputPath).value)
  {
    var raw := if !showExtension then WithExtension(file, "") else file;
    var slashed := Replace(raw, "\\", "/");
    ReplaceCharRemoves(raw, '\\', '/');
    var cleaned := Replace(slashed, "./", "");
    assert '\\' !in cleaned by {
      if '\\' in cleaned { ReplaceChars(slashed, "./", "", '\\'); }
    }
    match TrimPrefix(inputPath)
    case None => cleaned
    case Some(prefix) => TrimStartMatches(cleaned, prefix)
  }

  /** A path with no `\` and no `./` in it is its own logical name when the
      extension is shown and no configuration directory is stripped; when the
      extension is hidden the name is the path less `.` and the extension (and
      less any separators at its end). */
  lemma LogicalNameOfCleanPath(file: string, showExtension: bool)
    requires '\\' !in file && !Contains(file, "./")
    ensures showExtension ==> LogicalName(file, showExtension, None) == file
    ensures !showExtension && Extension(file).Some? ==>
      LogicalName(file, showExtension, None) + "." + Extension(file).value == TrimSeparators(file)
    ensures !showExtension && FileName(file).Some? && Extension(file).None? ==>
      LogicalName(file, showExtension, None) == TrimSeparators(file)
    ensures !showExtension && FileName(file).None? ==> LogicalName(file, showExtension, None) == file
  {
    WithoutExtension(file);
    if showExtension {
      CleanTextUnchanged(file);
    } else {
      CleanStemUnchanged(file);
    }
  }

  /** With the extension hidden, a clean path's logical name is its stem. */
  lemma CleanStemUnchanged(file: string)
    requires '\\' !in file && !Contains(file, "./")
    ensures LogicalName(file, false, None) == WithExtension(file, "")
  {
    var raw := WithExtension(file, "");
    StemIsPrefix(file);
    CleanPrefix(file, |raw|);
    CleanTextUnchanged(raw);
  }

  /** A prefix of a clean path is clean. */
  lemma CleanPrefix(file: string, n: nat)
    requires n <= |file| && '\\' !in file && !Contains(file, "./")
    ensures '\\' !in file[..n] && !Contains(file[..n], "./")
  {
    if Contains(file[..n], "./") { ContainsPrefix(file, n, "./"); }
  }

  /** Normalising separators and deleting `./` leave a text free of both. */
  lemma CleanTextUnchanged(raw: string)
    requires '\\' !in raw && !Contains(raw, "./")
    ensures Replace(Replace(raw, "\\", "/"), "./", "") == raw
  {
    assert forall i :: OccursAt(raw, "\\", i) ==> raw[i] == raw[i..i + 1][0] == '\\';
    ReplaceAbsent(raw, "\\", "/");
    ReplaceAbsent(raw, "./", "");
  }

  /** `find_nine_patch_file`: the `.json` sidecar if it can be read (parsed as
      JSON, and a parse failure is simply no nine-patch), otherwise the `.ron`
      sidecar of that `.json` path. Reading is a lookup in `texts`, the files
      that can be read; the two parsers are parameters. A nine-patch is only
      ever the parse of a readable sidecar. */
  function FindNinePatchFile(file: string, texts: map<string, string>,
                             parseJson: string -> Option<Rect>, parseRon: string -> Option<Rect>): (r: Option<Rect>)
    ensures r.Some? ==>
      (WithExtension(file, "json") in texts && r == parseJson(texts[WithExtension(file, "json")])) ||
      (WithExtension(WithExtension(file, "json"), "ron") in texts &&
       r == parseRon(texts[WithExtension(WithExtension(file, "json"), "ron")]))
  {
    var json := WithExtension(file, "json");
    if json in texts then parseJson(texts[json])
    else
      var ron := WithExtension(json, "ron");
      if ron in texts then parseRon(texts[ron]) else None
  }

  /** Sidecar precedence: a readable `.json` sidecar decides, even when it
      does not parse, and the `.ron` sidecar is never consulted; otherwise it
      is the file's own `.ron` sidecar that is read. */
  lemma NinePatchPrecedence(file: string, texts: map<string, string>,
                            parseJson: string -> Option<Rect>, parseRon: string -> Option<Rect>)
    requires FileName(file).Some?
    ensures WithExtension(file, "json") in texts ==>
      FindNinePatchFile(file, texts, parseJson, parseRon) == parseJson(texts[WithExtension(file, "json")])
    ensures WithExtension(file, "json") !in texts ==>
      FindNinePatchFile(file, texts, parseJson, parseRon) ==
        if WithExtension(file, "ron") in texts then parseRon(texts[WithExtension(file, "ron")]) else None
  {
    WithExtensionTwice(file, "json", "ron");
  }
}
