/** Pixels, images and the in-place canvas that both the Python and the Go
    pipeline paint into. Images that are only read are values (`Image`);
    an image whose pixels are overwritten in place is a `Canvas` over a
    two-dimensional array. */
module Raster {

  /** An 8-bit colour channel. */
  newtype byte = x: int | 0 <= x < 256

  /** An RGB pixel with 8-bit channels. */
  datatype Pixel = Pixel(r: byte, g: byte, b: byte)

  /** The zero colour: the fill of a new canvas, and what an image returns
      when it is read outside its bounds. */
  const Black: Pixel := Pixel(0, 0, 0)

  /** A raster: `rows[y][x]` is the pixel in column x of row y. */
  datatype Grid = Grid(width: nat, height: nat, rows: seq<seq<Pixel>>) {
    predicate Valid() {
      |rows| == height && forall y | 0 <= y < height :: |rows[y]| == width
    }
  }

  /** A well-formed raster: `height` rows of `width` pixels each. */
  type Image = g: Grid | g.Valid() witness Grid(0, 0, [])

  /** A resampling filter (PIL `resize` with LANCZOS, `imaging.Resize` with
      `imaging.Lanczos`), applied as `resize(img, width, height)`. */
  type Resample = (Image, nat, nat) -> Image

  /** A Gaussian blur (PIL `GaussianBlur`, `imaging.Blur`), applied as
      `blur(img, radius)`. */
  type Blur = (Image, nat) -> Image

  /** What the model knows about the resampling library: it returns an
      image of exactly the requested size, and asked for the size the
      image already has it returns the image unchanged (PIL's `resize`
      and `imaging.Resize` both return a copy then). */
  ghost predicate ResizesExactly(resize: Resample) {
    && (forall im: Image, w: nat, h: nat ::
          resize(im, w, h).width == w && resize(im, w, h).height == h)
    && (forall im: Image :: resize(im, im.width, im.height) == im)
  }

  /** The only thing the model knows about the blur library: it keeps the
      size of the image it is given. */
  ghost predicate KeepsSize(blur: Blur) {
    forall im: Image, radius: nat ::
      blur(im, radius).width == im.width && blur(im, radius).height == im.height
  }

  predicate InBounds(im: Image, x: int, y: int) {
    0 <= x < im.width && 0 <= y < im.height
  }

  /** Reading a pixel the way Go's `image.NRGBA.At` does: a point outside
      the image yields the zero colour instead of failing. */
  function At(im: Image, x: int, y: int): (p: Pixel)
    ensures InBounds(im, x, y) ==> p == im.rows[y][x]
    ensures !InBounds(im, x, y) ==> p == Black
  {
    if InBounds(im, x, y) then im.rows[y][x] else Black
  }

  /** An image of the given size filled with one colour. */
  function Solid(width: nat, height: nat, fill: Pixel): (im: Image)
    ensures im.width == width && im.height == height
  {
    Grid(width, height, seq(height, _ => seq(width, _ => fill)))
  }

  /** The sub-image `[x0, x1) x [y0, y1)` (PIL `crop`, `imaging.Crop`);
      every crop the pipeline asks for lies inside the image. */
  function Crop(im: Image, x0: nat, y0: nat, x1: nat, y1: nat): (r: Image)
    requires x0 <= x1 <= im.width && y0 <= y1 <= im.height
    ensures r.width == x1 - x0 && r.height == y1 - y0
    ensures forall y, x | 0 <= y < r.height && 0 <= x < r.width ::
      r.rows[y][x] == im.rows[y0 + y][x0 + x]
  {
    Grid(x1 - x0, y1 - y0,
      seq(y1 - y0, y requires 0 <= y < y1 - y0 => im.rows[y0 + y][x0..x1]))
  }

  /** True when `src` placed with its top-left corner at `(ox, oy)` covers
      the point `(x, y)`. */
  predicate Covers(src: Image, ox: int, oy: int, x: int, y: int) {
    ox <= x < ox + src.width && oy <= y < oy + src.height
  }

  /** `dst` after copying `src` onto it at offset `(ox, oy)`: the part of
      `src` that falls inside `dst` replaces what was there, the part that
      falls outside is dropped, and every other pixel keeps its value. */
  function Pasted(dst: Image, src: Image, ox: int, oy: int): (r: Image)
    ensures r.width == dst.width && r.height == dst.height
  {
    Grid(dst.width, dst.height,
      seq(dst.height, y requires 0 <= y < dst.height =>
        seq(dst.width, x requires 0 <= x < dst.width =>
          if Covers(src, ox, oy, x, y) then src.rows[y - oy][x - ox] else dst.rows[y][x])))
  }

  /** Cropping to the full extent gives back the image itself. */
  lemma CropWhole(im: Image)
    ensures Crop(im, 0, 0, im.width, im.height) == im
  {
    SameImage(Crop(im, 0, 0, im.width, im.height), im);
  }

  /** Two images of the same size with the same pixels are the same image. */
  lemma SameImage(a: Image, b: Image)
    requires a.width == b.width && a.height == b.height
    requires forall y, x | 0 <= y < a.height && 0 <= x < a.width :: a.rows[y][x] == b.rows[y][x]
    ensures a == b
  {
    forall y | 0 <= y < a.height
      ensures a.rows[y] == b.rows[y]
    {
      assert |a.rows[y]| == |b.rows[y]| == a.width;
    }
  }

  /** A mutable image (PIL `Image`, Go `*image.NRGBA`): its size is fixed,
      its pixels are overwritten in place. */
  class Canvas {
    const px: array2<Pixel>

    function Width(): nat { px.Length1 }
    function Height(): nat { px.Length0 }

    /** The current contents as an image value. */
    function View(): (im: Image)
      reads px
      ensures im.width == Width() && im.height == Height()
      ensures forall y, x | 0 <= y < Height() && 0 <= x < Width() :: im.rows[y][x] == px[y, x]
    {
      Grid(px.Length1, px.Length0,
        seq(px.Length0, y requires 0 <= y < px.Length0 reads px =>
          seq(px.Length1, x requires 0 <= x < px.Length1 reads px => px[y, x])))
    }

    /** A new canvas of one colour (PIL `Image.new`, `imaging.New`). */
    constructor New(width: nat, height: nat, fill: Pixel)
      ensures fresh(px)
      ensures View() == Solid(width, height, fill)
    {
      px := new Pixel[height, width]((y, x) => fill);
      new;
      SameImage(View(), Solid(width, height, fill));
    }

    /** A canvas holding a copy of `im` (`imaging.Clone`). */
    constructor Clone(im: Image)
      ensures fresh(px)
      ensures View() == im
    {
      px := new Pixel[im.height, im.width]((y, x) =>
        if 0 <= y < im.height && 0 <= x < im.width then im.rows[y][x] else Black);
      new;
      SameImage(View(), im);
    }

    /** Go's `(*image.NRGBA).Set`: writes one pixel when `(x, y)` lies
        inside the canvas and silently does nothing otherwise. */
    method Set(x: int, y: int, p: Pixel)
      modifies px
      ensures forall j, i | 0 <= j < Height() && 0 <= i < Width() ::
        px[j, i] == (if j == y && i == x then p else old(px[j, i]))
    {
      if 0 <= y < px.Length0 && 0 <= x < px.Length1 {
        px[y, x] := p;
      }
    }
  }

  /** Go's `drawImage`: copies every pixel of `src` to `dst` at offset
      `(offX, offY)` through `Set`, so that writes falling outside `dst`
      are dropped and uncovered pixels keep their value. The images the
      filters return all start at the origin, so the source's `Min`
      offsets are zero. The same clipped copy is what PIL's `paste` does
      for an RGB image without a mask, so the Python side uses it too. */
  method DrawImage(dst: Canvas, src: Image, offX: int, offY: int)
    modifies dst.px
    ensures dst.View() == Pasted(old(dst.View()), src, offX, offY)
  {
    ghost var before := dst.View();
    var y := 0;
    while y < src.height
      invariant 0 <= y <= src.height
      invariant forall j, i | 0 <= j < dst.Height() && 0 <= i < dst.Width() ::
        dst.px[j, i] == (if Covers(src, offX, offY, i, j) && j - offY < y
                         then src.rows[j - offY][i - offX] else before.rows[j][i])
    {
      var x := 0;
      while x < src.width
        invariant 0 <= x <= src.width
        invariant forall j, i | 0 <= j < dst.Height() && 0 <= i < dst.Width() ::
          dst.px[j, i] == (if Covers(src, offX, offY, i, j) && (j - offY < y || (j - offY == y && i - offX < x))
                           then src.rows[j - offY][i - offX] else before.rows[j][i])
      {
        dst.Set(offX + x, offY + y, At(src, x, y));
        x := x + 1;
      }
      y := y + 1;
    }
    SameImage(dst.View(), Pasted(before, src, offX, offY));
  }

  /** A colour channel of a pixel. */
  datatype Channel = Red | Green | Blue

  function Value(p: Pixel, c: Channel): int {
    match c
    case Red => p.r as int
    case Green => p.g as int
    case Blue => p.b as int
  }

  function Min(a: nat, b: nat): nat {
    if a < b then a else b
  }

  /** The sum of channel `c` over the first `n` pixels of `row`. */
  function RowSum(row: seq<Pixel>, n: nat, c: Channel): int
    requires n <= |row|
  {
    if n == 0 then 0 else RowSum(row, n - 1, c) + Value(row[n - 1], c)
  }

  /** The sum of channel `c` over the top-left `w` x `h` block of `img`. */
  function BlockSum(img: Image, h: nat, w: nat, c: Channel): int
    requires h <= img.height && w <= img.width
  {
    if h == 0 then 0 else BlockSum(img, h - 1, w, c) + RowSum(img.rows[h - 1], w, c)
  }

  lemma {:induction false} UniformRowSum(row: seq<Pixel>, n: nat, c: Channel, p: Pixel)
    requires n <= |row|
    requires forall i | 0 <= i < n :: row[i] == p
    ensures RowSum(row, n, c) == n * Value(p, c)
  {
    if n > 0 {
      UniformRowSum(row, n - 1, c, p);
    }
  }

  /** A channel sum over `n` pixels lies between 0 and `n * 255`. */
  lemma {:induction false} RowSumWithin(row: seq<Pixel>, n: nat, c: Channel)
    requires n <= |row|
    ensures 0 <= RowSum(row, n, c) <= n * 255
  {
    if n > 0 {
      RowSumWithin(row, n - 1, c);
    }
  }

  /** A channel sum over an `h` x `w` block lies between 0 and
      `h * (w * 255)`. */
  lemma {:induction false} BlockSumWithin(img: Image, h: nat, w: nat, c: Channel)
    requires h <= img.height && w <= img.width
    ensures 0 <= BlockSum(img, h, w, c) <= h * (w * 255)
  {
    if h > 0 {
      BlockSumWithin(img, h - 1, w, c);
      RowSumWithin(img.rows[h - 1], w, c);
      assert (h - 1) * (w * 255) + w * 255 == h * (w * 255);
    }
  }

  /** A block of one colour sums to its pixel count times that colour. */
  lemma {:induction false} UniformBlockSum(img: Image, h: nat, w: nat, c: Channel, p: Pixel)
    requires h <= img.height && w <= img.width
    requires forall y, x | 0 <= y < h && 0 <= x < w :: img.rows[y][x] == p
    ensures BlockSum(img, h, w, c) == h * (w * Value(p, c))
  {
    if h > 0 {
      UniformBlockSum(img, h - 1, w, c, p);
      UniformRowSum(img.rows[h - 1], w, c, p);
    }
  }

  /** Go's `absFloat`, also standing for NumPy's `abs` on one value. */
  function AbsReal(x: real): (r: real)
    ensures r >= 0.0
    ensures r == x || r == -x
  {
    if x < 0.0 then -x else x
  }
}
