/** `process_ase` of `src/atlas.rs`: turning a decoded Aseprite file into the
    textures handed to the packer, either one texture per frame named
    `"{filename}/{i}"` or, in sheet mode, one grid-tiled sheet. */
module AseSheet {
  import opened Text
  import opened Raster
  import opened Bytes
  import opened Wrappers
  import opened AtlasTypes

  /** A decoded Aseprite file: its sprite size and each frame's image. */
  datatype AseFile = AseFile(width: nat, height: nat, frames: seq<Image>) {
    /** Every frame image has the sprite's size, as the decoder produces them. */
    predicate Valid() {
      forall i :: 0 <= i < |frames| ==>
        frames[i].Valid() && frames[i].width == width && frames[i].height == height
    }
  }

  /** The number of frames per grid row: half the frames below four, a
      quarter from four on. */
  function BorderRow(n: nat): (br: nat)
    ensures n >= 2 ==> 1 <= br <= n / 2
  {
    if n < 4 then n / 2 else n / 4
  }

  /** The value `column` has when the sheet is allocated: one more than the
      last frame's grid column (a sheet for no frames still has one). */
  function SheetRows(n: nat): (rows: nat)
    requires n != 1
    ensures rows >= 1
  {
    if n == 0 then 1 else (n - 1) / BorderRow(n) + 1
  }

  /** A frame's grid cell: `row` counts across (x), `column` counts down (y). */
  datatype AseItem = AseItem(row: nat, column: nat, frame: nat)

  /** The cell of frame `i`. */
  function Cell(n: nat, i: nat): (a: AseItem)
    requires n >= 2
    ensures a.row < BorderRow(n)
  {
    AseItem(i % BorderRow(n), i / BorderRow(n), i)
  }

  /** Division by a positive number is monotonic. */
  lemma DivMonotonic(a: nat, b: nat, d: nat)
    requires a <= b && d > 0
    ensures a / d <= b / d
  {
    if a / d > b / d {
      DivModUnique(b, d, b / d, b % d);
      assert d * (b / d + 1) <= d * (a / d) by { MulLeq(d, b / d + 1, a / d); }
    }
  }

  /** The first loop of `process_ase`: walks the frames, starting a new grid
      column whenever `row` reaches `border_row`. Frame `i` lands in row
      `i mod border_row` of column `i div border_row`, and `column` ends one
      past the last column used. */
  method LayoutFrames(n: nat) returns (items: seq<AseItem>, column: nat)
    requires n != 1
    ensures |items| == n
    ensures forall i :: 0 <= i < n ==> items[i] == Cell(n, i)
    ensures column == SheetRows(n)
  {
    var borderRow := BorderRow(n);
    var row := 0;
    column := 0;
    items := [];
    for i := 0 to n
      invariant |items| == i
      invariant forall k :: 0 <= k < i ==> items[k] == Cell(n, k)
      invariant i == column * borderRow + row
      invariant row <= borderRow && (i > 0 ==> row >= 1)
      invariant i == 0 ==> column == 0
    {
      if row == borderRow {
        column := column + 1;
        row := 0;
      }
      DivModUnique(i, borderRow, column, row);
      items := items + [AseItem(row, column, i)];
      row := row + 1;
    }
    if n > 0 {
      DivModUnique(n - 1, borderRow, column, row - 1);
    }
    column := column + 1;
  }

  /** The blit that puts frame `i` in its cell of the sheet. */
  function TileBlit(ase: AseFile, i: nat): Blit
    requires ase.Valid() && |ase.frames| >= 2 && i < |ase.frames|
  {
    var a := Cell(|ase.frames|, i);
    Blit(a.row * ase.width, a.column * ase.height, View(ase.frames[i], ase.width, ase.height))
  }

  /** The blits of the sheet's second loop, in frame order. */
  function TileBlits(ase: AseFile): (blits: seq<Blit>)
    requires ase.Valid() && |ase.frames| >= 2
    ensures |blits| == |ase.frames| && ValidBlits(blits)
  {
    seq(|ase.frames|, i requires 0 <= i < |ase.frames| => TileBlit(ase, i))
  }

  function SheetWidth(ase: AseFile): nat
    requires |ase.frames| != 1
  {
    BorderRow(|ase.frames|) * ase.width
  }

  function SheetHeight(ase: AseFile): nat
    requires |ase.frames| != 1
  {
    SheetRows(|ase.frames|) * ase.height
  }

  /** The sheet of a multi-frame file: `border_row * iw` by `column * ih`,
      transparent where no frame is drawn. */
  function Sheet(ase: AseFile): (img: Image)
    requires ase.Valid() && |ase.frames| != 1
    ensures img.Valid() && img.width == SheetWidth(ase) && img.height == SheetHeight(ase)
  {
    if |ase.frames| == 0 then Blank(SheetWidth(ase), SheetHeight(ase))
    else Composed(SheetWidth(ase), SheetHeight(ase), TileBlits(ase))
  }

  /** The textures `process_ase` returns. */
  function AseTextures(ase: AseFile, filename: string, ninePatch: Option<Rect>, oneFrame: bool): seq<ImageTexture>
    requires ase.Valid()
  {
    var n := |ase.frames|;
    if n == 1 then [ImageTexture(filename, ase.frames[0], ninePatch)]
    else if oneFrame then [ImageTexture(filename, Sheet(ase), ninePatch)]
    else seq(n, i requires 0 <= i < n => ImageTexture(FrameName(filename, i), ase.frames[i], ninePatch))
  }

  /** `format!("{}/{}", filename, i)`. */
  function FrameName(filename: string, i: nat): string {
    filename + "/" + NatToString(i)
  }

  /** Every tile lies inside the sheet. */
  lemma TileFits(ase: AseFile, i: nat)
    requires ase.Valid() && |ase.frames| >= 2 && i < |ase.frames|
    ensures Fits(TileBlit(ase, i), SheetWidth(ase), SheetHeight(ase))
  {
    var n := |ase.frames|;
    var a := Cell(n, i);
    MulLeq(ase.width, a.row + 1, BorderRow(n));
    DivMonotonic(i, n - 1, BorderRow(n));
    MulLeq(ase.height, a.column + 1, SheetRows(n));
  }

  /** `a * w <= p < (a + 1) * w` pins `a` down. */
  lemma SameBand(p: int, w: nat, a: nat, b: nat)
    requires w > 0
    requires a * w <= p < a * w + w && b * w <= p < b * w + w
    ensures a == b
  {
    if a < b {
      MulLeq(w, a + 1, b);
    } else if b < a {
      MulLeq(w, b + 1, a);
    }
  }

  /** Distinct frames get distinct cells. */
  lemma CellInjective(n: nat, i: nat, j: nat)
    requires n >= 2 && i != j
    ensures Cell(n, i).row != Cell(n, j).row || Cell(n, i).column != Cell(n, j).column
  {
    var br := BorderRow(n);
    assert i == br * (i / br) + i % br;
    assert j == br * (j / br) + j % br;
  }

  /** Two distinct tiles do not overlap. */
  lemma TilePairDisjoint(ase: AseFile, i: nat, j: nat)
    requires ase.Valid() && |ase.frames| >= 2 && i < |ase.frames| && j < |ase.frames| && i != j
    ensures Disjoint(TileBlit(ase, i), TileBlit(ase, j))
  {
    var n := |ase.frames|;
    var a, b := Cell(n, i), Cell(n, j);
    var bi, bj := TileBlit(ase, i), TileBlit(ase, j);
    if !Disjoint(bi, bj) {
      var px := if bi.x < bj.x then bj.x else bi.x;
      var py := if bi.y < bj.y then bj.y else bi.y;
      SameBand(px, ase.width, a.row, b.row);
      SameBand(py, ase.height, a.column, b.column);
      CellInjective(n, i, j);
    }
  }

  /** No two tiles overlap. */
  lemma TilesDisjoint(ase: AseFile)
    requires ase.Valid() && |ase.frames| >= 2
    ensures PairwiseDisjoint(TileBlits(ase))
  {
    var n, blits := |ase.frames|, TileBlits(ase);
    forall i, j | 0 <= i < n && 0 <= j < n && i != j
      ensures Disjoint(blits[i], blits[j])
    {
      TilePairDisjoint(ase, i, j);
    }
  }

  /** Pixel fidelity of the sheet: frame `i` appears unchanged in its cell. */
  lemma SheetShowsFrame(ase: AseFile, i: nat, dx: nat, dy: nat)
    requires ase.Valid() && |ase.frames| >= 2 && i < |ase.frames|
    requires dx < ase.width && dy < ase.height
    ensures Cell(|ase.frames|, i).row * ase.width + dx < SheetWidth(ase)
    ensures Cell(|ase.frames|, i).column * ase.height + dy < SheetHeight(ase)
    ensures Sheet(ase).At(Cell(|ase.frames|, i).row * ase.width + dx, Cell(|ase.frames|, i).column * ase.height + dy)
      == ase.frames[i].At(dx, dy)
  {
    var a := Cell(|ase.frames|, i);
    TileFits(ase, i);
    TilesDisjoint(ase);
    ComposedOnBlit(TileBlits(ase), i, a.row * ase.width + dx, a.column * ase.height + dy);
  }

  /** The cells past the last frame stay transparent: a pixel whose grid
      cell number `(y div ih) * border_row + x div iw` is not a frame
      number keeps the fill. */
  lemma SheetBackground(ase: AseFile, px: nat, py: nat)
    requires ase.Valid() && |ase.frames| >= 2 && ase.width > 0 && ase.height > 0
    requires px < SheetWidth(ase) && py < SheetHeight(ase)
    requires (py / ase.height) * BorderRow(|ase.frames|) + px / ase.width >= |ase.frames|
    ensures Sheet(ase).At(px, py) == Transparent
  {
    var n, blits := |ase.frames|, TileBlits(ase);
    forall k | 0 <= k < n ensures !Covers(blits[k], px, py) {
      TileMisses(ase, k, px, py);
    }
    ComposedOffBlits(blits, px, py);
  }

  /** A pixel whose cell number is not `k` lies outside tile `k`. */
  lemma TileMisses(ase: AseFile, k: nat, px: nat, py: nat)
    requires ase.Valid() && |ase.frames| >= 2 && ase.width > 0 && ase.height > 0 && k < |ase.frames|
    requires (py / ase.height) * BorderRow(|ase.frames|) + px / ase.width >= |ase.frames|
    ensures !Covers(TileBlit(ase, k), px, py)
  {
    var a := Cell(|ase.frames|, k);
    if Covers(TileBlit(ase, k), px, py) {
      DivModUnique(px, ase.width, a.row, px - a.row * ase.width);
      DivModUnique(py, ase.height, a.column, py - a.column * ase.height);
    }
  }

  /** What `process_ase` yields: one texture under the file's own name for a
      one-frame file or in sheet mode; otherwise one texture per frame, named
      `"{filename}/{i}"`, in frame order. Every texture carries the file's
      nine-patch. */
  lemma AseTexturesShape(ase: AseFile, filename: string, ninePatch: Option<Rect>, oneFrame: bool)
    requires ase.Valid()
    ensures var ts := AseTextures(ase, filename, ninePatch, oneFrame);
      && (|ase.frames| == 1 || oneFrame ==> |ts| == 1 && ts[0].name == filename)
      && (|ase.frames| != 1 && !oneFrame ==>
            && |ts| == |ase.frames|
            && forall i :: 0 <= i < |ts| ==> ts[i].name == FrameName(filename, i) && ts[i].img == ase.frames[i])
      && forall t :: t in ts ==> t.ninePatch == ninePatch
  {
  }

  /** The per-frame names are pairwise distinct. */
  lemma FrameNamesDistinct(filename: string, i: nat, j: nat)
    requires FrameName(filename, i) == FrameName(filename, j)
    ensures i == j
  {
    var k := |filename| + 1;
    assert FrameName(filename, i)[k..] == NatToString(i);
    assert FrameName(filename, j)[k..] == NatToString(j);
    NatToStringInjective(i, j);
  }

  /** The sheet mode of `process_ase`: every frame is drawn into its cell of
      a transparent `border_row * iw` by `column * ih` canvas (each draw is
      known to fit, so the `unwrap` never panics). */
  method DrawSheet(ase: AseFile) returns (sheet: Image)
    requires ase.Valid() && |ase.frames| != 1
    ensures sheet == Sheet(ase)
  {
    var frames := |ase.frames|;
    var iw, ih := ase.width, ase.height;
    var ases, column := LayoutFrames(frames);
    var borderRow := BorderRow(frames);
    var texture := NewCanvas(borderRow * iw, column * ih);
    if frames == 0 {
      ImageEquality(Snapshot(texture), Sheet(ase));
      return Snapshot(texture);
    }
    ghost var blits := TileBlits(ase);
    for k := 0 to frames
      invariant forall x, y :: 0 <= x < texture.Length0 && 0 <= y < texture.Length1 ==>
        texture[x, y] == ComposedAt(blits[..k], x, y)
    {
      var a := ases[k];
      var img := View(ase.frames[a.frame], iw, ih);
      TileFits(ase, k);
      var ok := CopyFrom(texture, img, a.row * iw, a.column * ih);
      assert ok;
      assert blits[..k + 1][..k] == blits[..k];
    }
    assert blits[..frames] == blits;
    ImageEquality(Snapshot(texture), Sheet(ase));
    sheet := Snapshot(texture);
  }

  /** `process_ase`: a one-frame file yields its frame; sheet mode yields
      the drawn sheet; otherwise each frame becomes its own texture. */
  method ProcessAse(ase: AseFile, filename: string, ninePatch: Option<Rect>, oneFrame: bool)
    returns (images: seq<ImageTexture>)
    requires ase.Valid()
    ensures images == AseTextures(ase, filename, ninePatch, oneFrame)
  {
    var frames := |ase.frames|;
    images := [];
    if frames == 1 {
      images := images + [ImageTexture(filename, ase.frames[0], ninePatch)];
      return;
    }
    if oneFrame {
      var texture := DrawSheet(ase);
      images := images + [ImageTexture(filename, texture, ninePatch)];
    } else {
      for i := 0 to frames
        invariant |images| == i
        invariant forall k :: 0 <= k < i ==> images[k] == ImageTexture(FrameName(filename, k), ase.frames[k], ninePatch)
      {
        images := images + [ImageTexture(filename + "/" + NatToString(i), ase.frames[i], ninePatch)];
      }
    }
  }
}
