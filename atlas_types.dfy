/** The records of `src/atlas.rs`: the build configuration, the nine-patch
    rectangle, a packed frame's record, a discovered texture, and the atlas
    descriptor `PackerAtlas` that the compositor fills in place. */
module AtlasTypes {
  import opened Bytes
  import opened Wrappers
  import opened Raster

  /** The descriptor encodings a build may request. */
  datatype OutputType = Json | Binary | Ron | Toml

  /** The image formats the finished sheet may be saved in. */
  datatype OutputExtensionType = Png | Qoi | Jpg

  datatype ImageOptions = ImageOptions(
    outputExtension: OutputExtensionType,
    maxSize: nat,
    showExtension: bool)

  /** `ImageOptions::default()`. */
  const DefaultImageOptions: ImageOptions := ImageOptions(Png, 1024, true)

  datatype Features = Features(ninePatch: bool, aseprite: bool, aseSheet: bool)

  /** `Features::default()`: every feature off. */
  const DefaultFeatures: Features := Features(false, false, false)

  /** The configuration fields the pipeline reads (`template_path` belongs to
      template rendering, which is not part of this model). */
  datatype Config = Config(
    name: string,
    outputPath: string,
    folders: seq<string>,
    allowNormalOutput: bool,
    outputType: OutputType,
    imageOptions: ImageOptions,
    features: Features)

  /** A nine-patch stretch region, in the frame's own coordinates. */
  datatype Rect = Rect(x: u32, y: u32, w: u32, h: u32)

  /** One frame's entry in the descriptor. */
  datatype TextureData = TextureData(x: u32, y: u32, width: u32, height: u32, ninePatch: Option<Rect>)

  /** A discovered texture: its logical name, its pixels and its nine-patch. */
  datatype ImageTexture = ImageTexture(name: string, img: Image, ninePatch: Option<Rect>)

  /** `PackerError` of `src/error.rs`. */
  datatype PackerError = FailedToPacked | NoTemplateFile

  /** A `PackerAtlas` as the encoders receive it: a value. */
  datatype Descriptor = Descriptor(sheetPath: string, frames: map<string, TextureData>)

  /** The frames map after the given `add` calls, in order, on an empty map. */
  function FramesAfter(adds: seq<(string, TextureData)>): map<string, TextureData> {
    if adds == [] then map[]
    else FramesAfter(adds[..|adds| - 1])[adds[|adds| - 1].0 := adds[|adds| - 1].1]
  }

  /** The `i`-th `add` is the last one that uses `name`. */
  predicate IsLastAdd(adds: seq<(string, TextureData)>, name: string, i: int) {
    0 <= i < |adds| && adds[i].0 == name && forall j :: i < j < |adds| ==> adds[j].0 != name
  }

  /** A name is in the map exactly when some `add` used it. */
  lemma {:induction false} FramesAfterKeys(adds: seq<(string, TextureData)>, name: string)
    ensures name in FramesAfter(adds) <==> exists i :: 0 <= i < |adds| && adds[i].0 == name
  {
    if adds != [] {
      var n := |adds| - 1;
      var init := adds[..n];
      FramesAfterKeys(init, name);
      if name in FramesAfter(init) {
        var i :| 0 <= i < n && init[i].0 == name;
        assert adds[i].0 == name;
      }
      if adds[n].0 != name && exists i :: 0 <= i < |adds| && adds[i].0 == name {
        var i :| 0 <= i < |adds| && adds[i].0 == name;
        assert init[i].0 == name;
      }
    }
  }

  /** Last write wins: a name maps to the record of the last `add` that used
      it, whatever was added under it before. */
  lemma {:induction false} FramesAfterLastWins(adds: seq<(string, TextureData)>, name: string, i: int)
    requires IsLastAdd(adds, name, i)
    ensures name in FramesAfter(adds) && FramesAfter(adds)[name] == adds[i].1
  {
    var n := |adds| - 1;
    if i < n {
      var init := adds[..n];
      assert IsLastAdd(init, name, i);
      FramesAfterLastWins(init, name, i);
    }
  }

  /** `PackerAtlas`: the path of the written sheet and the frames by name. */
  class PackerAtlas {
    var sheetPath: string
    var frames: map<string, TextureData>

    /** `PackerAtlas::default()`. */
    constructor ()
      ensures sheetPath == "" && frames == map[]
    {
      sheetPath := "";
      frames := map[];
    }

    /** `PackerAtlas::add`: `frames[name]` becomes the new record, replacing any
        earlier one; every other name keeps its record. */
    method Add(name: string, x: u32, y: u32, width: u32, height: u32, ninePatch: Option<Rect>)
      modifies this
      ensures frames == old(frames)[name := TextureData(x, y, width, height, ninePatch)]
      ensures sheetPath == old(sheetPath)
    {
      frames := frames[name := TextureData(x, y, width, height, ninePatch)];
    }

    /** `PackerAtlas::add_sheet_path`. */
    method AddSheetPath(path: string)
      modifies this
      ensures sheetPath == path && frames == old(frames)
    {
      sheetPath := path;
    }

    /** The descriptor as the encoders are handed it (`atlas.clone()`). */
    function Value(): Descriptor
      reads this
    {
      Descriptor(sheetPath, frames)
    }
  }
}
