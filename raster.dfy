/** RGBA pixel buffers (`image::RgbaImage`) and the one operation the atlas
    builder performs on them in place: `GenericImage::copy_from`. A canvas
    being filled is an `array2<Rgba>` indexed `[x, y]`; a finished image is
    an `Image` value. */
module Raster {
  import opened Bytes

  datatype Rgba = Rgba(r: byte, g: byte, b: byte, a: byte)

  /** The fill of a fresh canvas, `Rgba([0, 0, 0, 0])`. */
  const Transparent: Rgba := Rgba(0, 0, 0, 0)

  /** A `width` × `height` image held row by row: the pixel in column `x` of
      row `y` is `rows[y][x]`. */
  datatype Image = Image(width: nat, height: nat, rows: seq<seq<Rgba>>) {

    predicate Valid() {
      |rows| == height && forall y :: 0 <= y < |rows| ==> |rows[y]| == width
    }

    function At(x: nat, y: nat): Rgba
      requires Valid() && x < width && y < height
    {
      rows[y][x]
    }
  }

  /** `ImageBuffer::from_fn(w, h, |_, _| Rgba([0, 0, 0, 0]))` as a value. */
  function Blank(w: nat, h: nat): (img: Image)
    ensures img.Valid() && img.width == w && img.height == h
    ensures forall x, y :: 0 <= x < w && 0 <= y < h ==> img.At(x, y) == Transparent
  {
    Image(w, h, seq(h, _ => seq(w, _ => Transparent)))
  }

  /** `img.view(0, 0, w, h).to_image()`: the top-left `w` × `h` corner. */
  function View(img: Image, w: nat, h: nat): (v: Image)
    requires img.Valid() && w <= img.width && h <= img.height
    ensures v.Valid() && v.width == w && v.height == h
    ensures forall x, y :: 0 <= x < w && 0 <= y < h ==> v.At(x, y) == img.At(x, y)
  {
    Image(w, h, seq(h, y requires 0 <= y < h => img.rows[y][..w]))
  }

  /** One `copy_from(src, x, y)` call: `src` is to land with its top-left
      corner at `(x, y)`. */
  datatype Blit = Blit(x: nat, y: nat, src: Image)

  predicate ValidBlits(blits: seq<Blit>) {
    forall k :: 0 <= k < |blits| ==> blits[k].src.Valid()
  }

  /** Pixel `(px, py)` lies in the rectangle the blit writes. */
  predicate Covers(b: Blit, px: int, py: int) {
    b.x <= px < b.x + b.src.width && b.y <= py < b.y + b.src.height
  }

  /** The bounds check `copy_from` makes before writing anything. */
  predicate Fits(b: Blit, w: nat, h: nat) {
    b.x + b.src.width <= w && b.y + b.src.height <= h
  }

  /** The two blits write no pixel in common. */
  predicate Disjoint(a: Blit, b: Blit) {
    a.x + a.src.width <= b.x || b.x + b.src.width <= a.x ||
    a.y + a.src.height <= b.y || b.y + b.src.height <= a.y
  }

  predicate PairwiseDisjoint(blits: seq<Blit>) {
    forall i, j :: 0 <= i < |blits| && 0 <= j < |blits| && i != j ==> Disjoint(blits[i], blits[j])
  }

  /** The pixel at `(px, py)` after the blits have been applied in order to a
      transparent canvas: the last blit covering it decides. */
  function ComposedAt(blits: seq<Blit>, px: nat, py: nat): Rgba
    requires ValidBlits(blits)
  {
    if blits == [] then Transparent
    else
      var b := blits[|blits| - 1];
      if Covers(b, px, py) then b.src.At(px - b.x, py - b.y)
      else ComposedAt(blits[..|blits| - 1], px, py)
  }

  /** The `w` × `h` image the blits compose. */
  function Composed(w: nat, h: nat, blits: seq<Blit>): (img: Image)
    requires ValidBlits(blits)
    ensures img.Valid() && img.width == w && img.height == h
  {
    Image(w, h, seq(h, (y: nat) => seq(w, (x: nat) => ComposedAt(blits, x, y))))
  }

  /** Pixel fidelity: when the blits do not overlap, every pixel a blit
      covers shows that blit's source pixel, whatever the order. */
  lemma {:induction false} ComposedOnBlit(blits: seq<Blit>, k: nat, px: nat, py: nat)
    requires ValidBlits(blits) && PairwiseDisjoint(blits)
    requires k < |blits| && Covers(blits[k], px, py)
    ensures ComposedAt(blits, px, py) == blits[k].src.At(px - blits[k].x, py - blits[k].y)
  {
    var n := |blits| - 1;
    if k < n {
      assert Disjoint(blits[k], blits[n]);
      var init := blits[..n];
      assert init[k] == blits[k];
      ComposedOnBlit(init, k, px, py);
    }
  }

  /** A pixel no blit covers keeps the transparent fill. */
  lemma {:induction false} ComposedOffBlits(blits: seq<Blit>, px: nat, py: nat)
    requires ValidBlits(blits)
    requires forall k :: 0 <= k < |blits| ==> !Covers(blits[k], px, py)
    ensures ComposedAt(blits, px, py) == Transparent
  {
    if blits != [] {
      var init := blits[..|blits| - 1];
      assert forall k :: 0 <= k < |init| ==> init[k] == blits[k];
      ComposedOffBlits(init, px, py);
    }
  }

  /** Two images of the same size that agree on every pixel are equal. */
  lemma ImageEquality(a: Image, b: Image)
    requires a.Valid() && b.Valid() && a.width == b.width && a.height == b.height
    requires forall x, y :: 0 <= x < a.width && 0 <= y < a.height ==> a.At(x, y) == b.At(x, y)
    ensures a == b
  {
    forall y | 0 <= y < a.height ensures a.rows[y] == b.rows[y] {
      assert forall x :: 0 <= x < a.width ==> a.rows[y][x] == a.At(x, y) && b.rows[y][x] == b.At(x, y);
    }
  }

  /** A new `w` × `h` canvas filled with `Transparent`. */
  method NewCanvas(w: nat, h: nat) returns (c: array2<Rgba>)
    ensures fresh(c) && c.Length0 == w && c.Length1 == h
    ensures forall x, y :: 0 <= x < w && 0 <= y < h ==> c[x, y] == Transparent
  {
    c := new Rgba[w, h]((_, _) => Transparent);
  }

  /** The canvas read as an image. */
  function Snapshot(c: array2<Rgba>): (img: Image)
    reads c
    ensures img.Valid() && img.width == c.Length0 && img.height == c.Length1
    ensures forall x, y :: 0 <= x < c.Length0 && 0 <= y < c.Length1 ==> img.At(x, y) == c[x, y]
  {
    Image(c.Length0, c.Length1,
      seq(c.Length1, y requires 0 <= y < c.Length1 reads c =>
        seq(c.Length0, x requires 0 <= x < c.Length0 reads c => c[x, y])))
  }

  /** `GenericImage::copy_from(src, x, y)`: fails, writing nothing, unless
      `src` fits inside the canvas at `(x, y)`; otherwise writes exactly the
      source pixels into `[x, x + width) × [y, y + height)` and leaves every
      other pixel as it was. */
  method CopyFrom(canvas: array2<Rgba>, src: Image, x: nat, y: nat) returns (ok: bool)
    requires src.Valid()
    modifies canvas
    ensures ok == Fits(Blit(x, y, src), canvas.Length0, canvas.Length1)
    ensures forall i, j :: 0 <= i < canvas.Length0 && 0 <= j < canvas.Length1 ==>
      canvas[i, j] == if ok && Covers(Blit(x, y, src), i, j) then src.At(i - x, j - y) else old(canvas[i, j])
  {
    if canvas.Length0 < src.width + x || canvas.Length1 < src.height + y {
      return false;
    }
    ok := true;
    for k := 0 to src.height
      invariant forall i, j :: 0 <= i < canvas.Length0 && 0 <= j < canvas.Length1 ==>
        canvas[i, j] == if x <= i < x + src.width && y <= j < y + k then src.At(i - x, j - y) else old(canvas[i, j])
    {
      for c := 0 to src.width
        invariant forall i, j :: 0 <= i < canvas.Length0 && 0 <= j < canvas.Length1 ==>
          canvas[i, j] ==
            if x <= i < x + src.width && y <= j < y + k then src.At(i - x, j - y)
            else if x <= i < x + c && j == y + k then src.At(i - x, j - y)
            else old(canvas[i, j])
      {
        canvas[x + c, y + k] := src.At(c, k);
      }
    }
  }
}
