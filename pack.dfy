/** The body of `pack` (`src/atlas.rs`): gathering the textures from the
    walked files, compositing the packed textures into one sheet while
    recording each placement in a `PackerAtlas`, and naming the sheet. */
module Pack {
  import opened Wrappers
  import opened Bytes
  import opened Text
  import opened Paths
  import opened Raster
  import opened AtlasTypes
  import opened AseSheet
  import opened Discovery
  import opened SheetPaths

  /** What the file system and the decoders make of each walked file: the
      files `image::open` decodes, the files `AsepriteFile::read_file`
      decodes, the text files that can be read, and the two nine-patch
      parsers (`serde_json` and `ron` reading a `Rect`). A file missing from
      a map fails to decode or to be read. */
  datatype Sources = Sources(
    images: map<string, Image>,
    aseFiles: map<string, AseFile>,
    texts: map<string, string>,
    parseJson: string -> Option<Rect>,
    parseRon: string -> Option<Rect>)
  {
    predicate Valid() {
      (forall f :: f in images ==> images[f].Valid()) &&
      (forall f :: f in aseFiles ==> aseFiles[f].Valid())
    }
  }

  /** The discovery settings `pack` reads. */
  datatype Discover = Discover(features: Features, showExtension: bool, inputPath: Option<string>)

  function NinePatchOf(file: string, d: Discover, src: Sources): Option<Rect> {
    if d.features.ninePatch then FindNinePatchFile(file, src.texts, src.parseJson, src.parseRon) else None
  }

  function NameOf(file: string, d: Discover): string {
    LogicalName(file, d.showExtension, d.inputPath)
  }

  /** The texture a kept `.png` yields, when it decodes. */
  function PlainTexture(file: string, d: Discover, src: Sources): seq<ImageTexture> {
    if Classify(file, d.features) == Some(PngSource) && file in src.images
    then [ImageTexture(NameOf(file, d), src.images[file], NinePatchOf(file, d, src))]
    else []
  }

  /** The textures a kept `.aseprite` file yields, when it decodes. */
  function AseTexturesOfFile(file: string, d: Discover, src: Sources): seq<ImageTexture>
    requires src.Valid()
  {
    if Classify(file, d.features) == Some(AsepriteSource) && file in src.aseFiles
    then AseTextures(src.aseFiles[file], NameOf(file, d), NinePatchOf(file, d, src), d.features.aseSheet)
    else []
  }

  /** The textures of the plain images, in discovery order. */
  function PlainTextures(files: seq<string>, d: Discover, src: Sources): seq<ImageTexture> {
    if files == [] then []
    else PlainTextures(files[..|files| - 1], d, src) + PlainTexture(files[|files| - 1], d, src)
  }

  /** The textures of the Aseprite files, in discovery order. */
  function AseDerived(files: seq<string>, d: Discover, src: Sources): seq<ImageTexture>
    requires src.Valid()
  {
    if files == [] then []
    else AseDerived(files[..|files| - 1], d, src) + AseTexturesOfFile(files[|files| - 1], d, src)
  }

  /** The `filter_map` over the walked files followed by
      `images.append(&mut temp_ase)`: plain images are collected as they are
      met, Aseprite textures are set aside in `temp_ase`, and the packer is
      handed the plain ones first, then the Aseprite ones, each group in
      discovery order. */
  method CollectTextures(files: seq<string>, d: Discover, src: Sources) returns (images: seq<ImageTexture>)
    requires src.Valid()
    ensures images == PlainTextures(files, d, src) + AseDerived(files, d, src)
  {
    var plain: seq<ImageTexture> := [];
    var tempAse: seq<ImageTexture> := [];
    for i := 0 to |files|
      invariant plain == PlainTextures(files[..i], d, src)
      invariant tempAse == AseDerived(files[..i], d, src)
    {
      var file := files[i];
      CollectStep(files, i, d, src);
      var kind := Classify(file, d.features);
      if kind.None? {
        assert plain + [] == plain && tempAse + [] == tempAse;
        continue;
      }
      var ninePatch := if d.features.ninePatch
        then FindNinePatchFile(file, src.texts, src.parseJson, src.parseRon) else None;
      var filename := LogicalName(file, d.showExtension, d.inputPath);
      if kind == Some(AsepriteSource) {
        if file !in src.aseFiles {
          assert plain + [] == plain && tempAse + [] == tempAse;
          continue;
        }
        var more := ProcessAse(src.aseFiles[file], filename, ninePatch, d.features.aseSheet);
        tempAse := tempAse + more;
        assert plain + [] == plain;
      } else {
        if file !in src.images {
          assert plain + [] == plain && tempAse + [] == tempAse;
          continue;
        }
        plain := plain + [ImageTexture(filename, src.images[file], ninePatch)];
        assert tempAse + [] == tempAse;
      }
    }
    assert files[..|files|] == files;
    images := plain + tempAse;
  }

  /** What one more walked file adds to each group. */
  lemma CollectStep(files: seq<string>, i: nat, d: Discover, src: Sources)
    requires src.Valid() && i < |files|
    ensures PlainTextures(files[..i + 1], d, src) == PlainTextures(files[..i], d, src) + PlainTexture(files[i], d, src)
    ensures AseDerived(files[..i + 1], d, src) == AseDerived(files[..i], d, src) + AseTexturesOfFile(files[i], d, src)
  {
    assert files[..i + 1][..i] == files[..i];
  }

  /** Where each texture handed to the packer comes from: a plain texture is
      a kept `.png` under its logical name with its decoded pixels; an
      Aseprite texture is one of the textures `process_ase` makes of a kept
      `.aseprite` file. */
  lemma {:induction false} TextureOrigins(files: seq<string>, d: Discover, src: Sources)
    requires src.Valid()
    ensures forall t :: t in PlainTextures(files, d, src) ==>
      exists f :: f in files && Extension(f) == Some("png") && f in src.images &&
        t == ImageTexture(NameOf(f, d), src.images[f], NinePatchOf(f, d, src))
    ensures forall t :: t in AseDerived(files, d, src) ==>
      exists f :: f in files && Extension(f) == Some("aseprite") && d.features.aseprite && f in src.aseFiles &&
        t in AseTextures(src.aseFiles[f], NameOf(f, d), NinePatchOf(f, d, src), d.features.aseSheet)
  {
    if files != [] {
      var init, last := files[..|files| - 1], files[|files| - 1];
      TextureOrigins(init, d, src);
      assert forall f :: f in init ==> f in files;
    }
  }

  /** Without the aseprite feature every texture comes from a `.png`. */
  lemma {:induction false} NoAsepriteWithoutFeature(files: seq<string>, d: Discover, src: Sources)
    requires src.Valid() && !d.features.aseprite
    ensures AseDerived(files, d, src) == []
  {
    if files != [] {
      NoAsepriteWithoutFeature(files[..|files| - 1], d, src);
    }
  }

  /** One placement from the packer: where the rectangle of texture `item`
      went, and its size. */
  datatype Placement = Placement(x: u32, y: u32, w: u32, h: u32, item: nat)

  /** A successful packing: the canvas size and every placement. */
  datatype Packing = Packing(width: nat, height: nat, packed: seq<Placement>)

  /** Every placement refers to a texture and is no larger than it, as the
      `view(0, 0, width, height)` of the source image demands. */
  predicate PlacementsValid(packed: seq<Placement>, textures: seq<ImageTexture>) {
    forall k :: 0 <= k < |packed| ==>
      packed[k].item < |textures| && textures[packed[k].item].img.Valid() &&
      packed[k].w <= textures[packed[k].item].img.width &&
      packed[k].h <= textures[packed[k].item].img.height
  }

  /** The `copy_from` call for a placement. */
  function PlacementBlit(p: Placement, textures: seq<ImageTexture>): Blit
    requires p.item < |textures| && textures[p.item].img.Valid()
    requires p.w <= textures[p.item].img.width && p.h <= textures[p.item].img.height
  {
    Blit(p.x, p.y, View(textures[p.item].img, p.w, p.h))
  }

  function PlacementBlits(packed: seq<Placement>, textures: seq<ImageTexture>): (blits: seq<Blit>)
    requires PlacementsValid(packed, textures)
    ensures |blits| == |packed| && ValidBlits(blits)
  {
    seq(|packed|, k requires 0 <= k < |packed| => PlacementBlit(packed[k], textures))
  }

  /** The `add` call for a placement. */
  function PlacementAdd(p: Placement, textures: seq<ImageTexture>): (string, TextureData)
    requires p.item < |textures|
  {
    var t := textures[p.item];
    (t.name, TextureData(p.x, p.y, p.w, p.h, t.ninePatch))
  }

  function PlacementAdds(packed: seq<Placement>, textures: seq<ImageTexture>): (adds: seq<(string, TextureData)>)
    requires PlacementsValid(packed, textures)
    ensures |adds| == |packed|
  {
    seq(|packed|, k requires 0 <= k < |packed| => PlacementAdd(packed[k], textures))
  }

  /** Every placement lies inside the canvas. */
  predicate AllFit(blits: seq<Blit>, w: nat, h: nat) {
    forall k :: 0 <= k < |blits| ==> Fits(blits[k], w, h)
  }

  /** Why a build stops. */
  datatype BuildError = Packer(error: PackerError) | DimensionMismatch

  /** The compositor loop: a transparent `w` × `h` canvas; for each packed
      texture, in the packer's order, its pixels are copied in place at its
      placement (a placement outside the canvas stops the build with the
      error `copy_from` reports) and the placement is recorded under the
      texture's name with its nine-patch unchanged. */
  method Composite(w: nat, h: nat, packed: seq<Placement>, textures: seq<ImageTexture>)
    returns (r: Result<Image, BuildError>, atlas: PackerAtlas)
    requires PlacementsValid(packed, textures)
    ensures fresh(atlas)
    ensures r.Ok? <==> AllFit(PlacementBlits(packed, textures), w, h)
    ensures r.Err? ==> r.error == DimensionMismatch
    ensures r.Ok? ==> r.value == Composed(w, h, PlacementBlits(packed, textures))
    ensures r.Ok? ==> atlas.frames == FramesAfter(PlacementAdds(packed, textures)) && atlas.sheetPath == ""
  {
    ghost var blits := PlacementBlits(packed, textures);
    ghost var adds := PlacementAdds(packed, textures);
    atlas := new PackerAtlas();
    var canvas := NewCanvas(w, h);
    for k := 0 to |packed|
      invariant fresh(atlas)
      invariant canvas.Length0 == w && canvas.Length1 == h
      invariant forall x, y :: 0 <= x < w && 0 <= y < h ==> canvas[x, y] == ComposedAt(blits[..k], x, y)
      invariant AllFit(blits[..k], w, h)
      invariant atlas.frames == FramesAfter(adds[..k]) && atlas.sheetPath == ""
    {
      var p := packed[k];
      var data := textures[p.item];
      var view := View(data.img, p.w, p.h);
      assert blits[k] == Blit(p.x, p.y, view);
      assert adds[k] == (data.name, TextureData(p.x, p.y, p.w, p.h, data.ninePatch));
      var ok := CopyFrom(canvas, view, p.x, p.y);
      if !ok {
        return Err(DimensionMismatch), atlas;
      }
      CompositeStep(blits, adds, k, w, h);
      assert forall x, y :: 0 <= x < w && 0 <= y < h ==> canvas[x, y] == ComposedAt(blits[..k + 1], x, y);
      atlas.Add(data.name, p.x, p.y, p.w, p.h, data.ninePatch);
    }
    assert blits[..|packed|] == blits;
    assert adds[..|packed|] == adds;
    ImageEquality(Snapshot(canvas), Composed(w, h, blits));
    r := Ok(Snapshot(canvas));
  }

  /** How one more placement extends the partial sheet, the fitting prefix
      and the partial frames. */
  lemma CompositeStep(blits: seq<Blit>, adds: seq<(string, TextureData)>, k: nat, w: nat, h: nat)
    requires ValidBlits(blits) && k < |blits| && k < |adds|
    requires AllFit(blits[..k], w, h) && Fits(blits[k], w, h)
    ensures AllFit(blits[..k + 1], w, h)
    ensures FramesAfter(adds[..k + 1]) == FramesAfter(adds[..k])[adds[k].0 := adds[k].1]
    ensures forall x, y :: 0 <= x < w && 0 <= y < h ==>
      ComposedAt(blits[..k + 1], x, y) ==
        if Covers(blits[k], x, y) then blits[k].src.At(x - blits[k].x, y - blits[k].y)
        else ComposedAt(blits[..k], x, y)
  {
    assert blits[..k + 1][..k] == blits[..k];
    assert adds[..k + 1][..k] == adds[..k];
  }

  /** The finished sheet, the file `save_as` writes it to, its descriptor,
      and the base path of the descriptor files (`fixed_output_path` joined
      with the build's name). */
  datatype Sheet = Sheet(image: Image, imageFile: string, descriptor: Descriptor, outputBase: string)

  /** The compositor placed inside `pack`: a failed packing is
      `FailedToPacked`; otherwise the sheet is composited, saved next to
      the descriptors, and its path recorded with `add_sheet_path`. The
      recorded path is the corrected `SaveAs`, so the descriptor names the
      image file actually written. */
  method Assemble(config: Config, inputPath: Option<string>, textures: seq<ImageTexture>, packing: Option<Packing>)
    returns (r: Result<Sheet, BuildError>)
    requires packing.Some? ==> PlacementsValid(packing.value.packed, textures)
    ensures packing.None? ==> r == Err(Packer(FailedToPacked))
    ensures packing.Some? ==>
      (r.Ok? <==> AllFit(PlacementBlits(packing.value.packed, textures), packing.value.width, packing.value.height))
    ensures r.Ok? ==>
      packing.Some? &&
      var base := Join(FixedOutputPath(config.outputPath, inputPath), config.name);
      r.value == Sheet(
        Composed(packing.value.width, packing.value.height, PlacementBlits(packing.value.packed, textures)),
        SheetFile(base, config.imageOptions.outputExtension),
        Descriptor(SaveAs(base, config.imageOptions.outputExtension), FramesAfter(PlacementAdds(packing.value.packed, textures))),
        base)
    ensures r.Ok? ==> r.value.descriptor.sheetPath == r.value.imageFile
  {
    if packing.None? {
      return Err(Packer(FailedToPacked));
    }
    var Packing(w, h, packed) := packing.value;
    var image, atlas := Composite(w, h, packed, textures);
    if image.Err? {
      return Err(image.error);
    }
    var path := Join(FixedOutputPath(config.outputPath, inputPath), config.name);
    var imageFile := SheetFile(path, config.imageOptions.outputExtension);
    var sheetPath := SaveAs(path, config.imageOptions.outputExtension);
    atlas.AddSheetPath(sheetPath);
    var filePath := Join(FixedOutputPath(config.outputPath, inputPath), config.name);
    r := Ok(Sheet(image.value, imageFile, atlas.Value(), filePath));
  }

  /** Pixel fidelity of the sheet: when the packer's placements fit the
      canvas and do not overlap, each texture's pixels appear unchanged at
      its placement. */
  lemma SheetShowsTexture(packing: Packing, textures: seq<ImageTexture>, k: nat, dx: nat, dy: nat)
    requires PlacementsValid(packing.packed, textures)
    requires AllFit(PlacementBlits(packing.packed, textures), packing.width, packing.height)
    requires PairwiseDisjoint(PlacementBlits(packing.packed, textures))
    requires k < |packing.packed| && dx < packing.packed[k].w && dy < packing.packed[k].h
    ensures packing.packed[k].x + dx < packing.width && packing.packed[k].y + dy < packing.height
    ensures Composed(packing.width, packing.height, PlacementBlits(packing.packed, textures))
      .At(packing.packed[k].x + dx, packing.packed[k].y + dy)
      == textures[packing.packed[k].item].img.At(dx, dy)
  {
    var p := packing.packed[k];
    var blits := PlacementBlits(packing.packed, textures);
    assert Fits(blits[k], packing.width, packing.height);
    ComposedOnBlit(blits, k, p.x + dx, p.y + dy);
  }

  /** Outside every placement the sheet keeps the transparent fill. */
  lemma SheetBackgroundTransparent(packing: Packing, textures: seq<ImageTexture>, px: nat, py: nat)
    requires PlacementsValid(packing.packed, textures)
    requires px < packing.width && py < packing.height
    requires forall k :: 0 <= k < |packing.packed| ==>
      !(packing.packed[k].x <= px < packing.packed[k].x + packing.packed[k].w &&
        packing.packed[k].y <= py < packing.packed[k].y + packing.packed[k].h)
    ensures Composed(packing.width, packing.height, PlacementBlits(packing.packed, textures)).At(px, py) == Transparent
  {
    var blits := PlacementBlits(packing.packed, textures);
    assert forall k :: 0 <= k < |blits| ==> !Covers(blits[k], px, py);
    ComposedOffBlits(blits, px, py);
  }

  /** The descriptor entry of a name is the packer's rectangle for the last
      texture placed under that name, with that texture's nine-patch. */
  lemma DescriptorRecordsPlacement(packed: seq<Placement>, textures: seq<ImageTexture>, k: nat)
    requires PlacementsValid(packed, textures)
    requires k < |packed|
    requires forall j :: k < j < |packed| ==> textures[packed[j].item].name != textures[packed[k].item].name
    ensures var t := textures[packed[k].item];
      t.name in FramesAfter(PlacementAdds(packed, textures)) &&
      FramesAfter(PlacementAdds(packed, textures))[t.name] ==
        TextureData(packed[k].x, packed[k].y, packed[k].w, packed[k].h, t.ninePatch)
  {
    var adds := PlacementAdds(packed, textures);
    FramesAfterLastWins(adds, textures[packed[k].item].name, k);
  }
}
