/** The integer geometry shared by the Python and the Go pipeline: the
    watermark rectangle, height normalisation and the 16:9 panel layout.
    The source computes the ratios in floating point and truncates; here
    they are exact integer quotients. */
module Geometry {
  import opened Raster

  const TargetWidth: nat := 3840
  const TargetHeight: nat := 2160
  /** Width of each edge strip, in percent of the image width. */
  const EdgePercent: nat := 1
  /** Trim threshold on the mean deviation from the background (5% of 255). */
  const Fuzz: real := 12.75

  /** A rectangle in pixel coordinates: top-left corner, width and height. */
  datatype Rect = Rect(x: nat, y: nat, width: nat, height: nat)

  predicate InRect(r: Rect, x: int, y: int) {
    r.x <= x < r.x + r.width && r.y <= y < r.y + r.height
  }

  /** `int(width * 0.23)`: 23% of the width, truncated. */
  function WatermarkWidth(width: nat): (w: nat)
    ensures 100 * w <= 23 * width < 100 * (w + 1)
  {
    width * 23 / 100
  }

  /** `int(height * 0.04)`: 4% of the height, truncated. */
  function WatermarkHeight(height: nat): (h: nat)
    ensures 100 * h <= 4 * height < 100 * (h + 1)
  {
    height * 4 / 100
  }

  /** The bottom-left watermark rectangle of a `width` x `height` image. */
  function WatermarkRect(width: nat, height: nat): (r: Rect)
    ensures r.x == 0 && r.y + r.height == height
    ensures r.width == WatermarkWidth(width) && r.height == WatermarkHeight(height)
    ensures r.width <= width && r.height <= height
    ensures forall x, y :: InRect(r, x, y) ==> 0 <= x < width && 0 <= y < height
  {
    var h := WatermarkHeight(height);
    Rect(0, height - h, WatermarkWidth(width), h)
  }

  /** The rectangle starts at row `height - h` and is only `h` rows high,
      with `h` at most 4% of the height: its first row index is never
      smaller than its height. */
  lemma WatermarkRowBelowItsHeight(width: nat, height: nat)
    ensures var r := WatermarkRect(width, height); r.y >= r.height
  {
    var r := WatermarkRect(width, height);
    assert 100 * r.height <= 4 * height;
  }

  /** The watermark area of `img`, cut out as its own image. */
  function WatermarkRegion(img: Image): (region: Image)
    ensures var r := WatermarkRect(img.width, img.height);
      region.width == r.width && region.height == r.height
    ensures var r := WatermarkRect(img.width, img.height);
      forall y, x | 0 <= y < region.height && 0 <= x < region.width ::
        region.rows[y][x] == img.rows[r.y + y][x]
  {
    var r := WatermarkRect(img.width, img.height);
    Crop(img, 0, r.y, r.width, img.height)
  }

  /** `img` with the watermark area replaced by `blurred`, which has the
      size of that area, pasted at the area's top-left corner. */
  function Watermarked(img: Image, blurred: Image): (out: Image)
    requires var r := WatermarkRect(img.width, img.height);
      blurred.width == r.width && blurred.height == r.height
    ensures out.width == img.width && out.height == img.height
  {
    Pasted(img, blurred, 0, WatermarkRect(img.width, img.height).y)
  }

  /** Replacing the watermark area keeps the image size, puts row `y - r.y`
      of the replacement into row `y` of the area, and leaves every pixel
      outside the area as it was. */
  lemma WatermarkedChangesOnlyRect(img: Image, blurred: Image)
    requires var r := WatermarkRect(img.width, img.height);
      blurred.width == r.width && blurred.height == r.height
    ensures var out := Watermarked(img, blurred);
      var r := WatermarkRect(img.width, img.height);
      && out.width == img.width && out.height == img.height
      && forall y, x | 0 <= y < img.height && 0 <= x < img.width ::
           out.rows[y][x] == if InRect(r, x, y) then blurred.rows[y - r.y][x] else img.rows[y][x]
  {
  }

  /** `int(width * (2160 / height))`: the width after scaling the height to
      2160, truncated. */
  function NormalisedWidth(width: nat, height: nat): (w: nat)
    requires height > 0
    ensures w * height <= width * TargetHeight < (w + 1) * height
    ensures width <= height ==> w <= TargetHeight
  {
    var w := width * TargetHeight / height;
    NormalisedWidthBounds(width, height, w);
    w
  }

  lemma NormalisedWidthBounds(width: nat, height: nat, w: nat)
    requires height > 0 && w == width * TargetHeight / height
    ensures w * height <= width * TargetHeight < (w + 1) * height
    ensures width <= height ==> w <= TargetHeight
  {
    var n := width * TargetHeight;
    assert n == height * w + n % height;
    if width <= height {
      assert height * w <= height * TargetHeight;
      NonDecreasingFactor(height, w, TargetHeight);
    }
  }

  lemma NonDecreasingFactor(h: nat, a: nat, b: nat)
    requires h > 0 && h * a <= h * b
    ensures a <= b
  {
  }

  /** `resize_to_height` / `resizeToHeight`: resample to the normalised
      width and a height of 2160. */
  function ResizeToHeight(img: Image, resize: Resample): (r: Image)
    requires ResizesExactly(resize)
    requires img.height > 0
    ensures r.height == TargetHeight
    ensures r.width * img.height <= img.width * TargetHeight < (r.width + 1) * img.height
  {
    resize(img, NormalisedWidth(img.width, img.height), TargetHeight)
  }

  /** The image with its height forced to 2160: resampled to its own
      width and 2160 rows only when its height differs. Python does this
      to the middle panel, Go at the start of `convertTo16x9`. */
  function HeightForced(img: Image, resize: Resample): (forced: Image)
    requires ResizesExactly(resize)
    ensures forced.width == img.width && forced.height == TargetHeight
    ensures img.height == TargetHeight ==> forced == img
  {
    if img.height != TargetHeight then resize(img, img.width, TargetHeight) else img
  }

  /** `int(width * 1 / 100)`: the width of each edge strip. */
  function EdgeWidth(width: nat): (e: nat)
    ensures e <= width
    ensures 100 * e <= EdgePercent * width < 100 * (e + 1)
  {
    width * EdgePercent / 100
  }

  /** `(3840 - width) // 2` in Python, `(3840 - width) / 2` in Go: the same
      value while the image is narrower than 3839 columns. */
  function BlurWidth(width: nat): (b: nat)
    requires width < TargetWidth - 1
    ensures b > 0
    ensures 2 * b + width == TargetWidth || 2 * b + width == TargetWidth - 1
    ensures 2 * b + width == TargetWidth <==> (TargetWidth - width) % 2 == 0
  {
    (TargetWidth - width) / 2
  }

  /** The 16:9 layout: `left` at x = 0, `mid` right after it, `right` right
      after that, all 2160 rows high, on a 3840 x 2160 canvas; any column
      none of them covers stays black. */
  predicate Composed16x9(out: Image, left: Image, mid: Image, right: Image) {
    && out.width == TargetWidth && out.height == TargetHeight
    && left.height == TargetHeight && mid.height == TargetHeight && right.height == TargetHeight
    && left.width + mid.width + right.width <= TargetWidth
    && forall y, x | 0 <= y < TargetHeight && 0 <= x < TargetWidth ::
         out.rows[y][x] ==
           if x < left.width then left.rows[y][x]
           else if x < left.width + mid.width then mid.rows[y][x - left.width]
           else if x < left.width + mid.width + right.width then right.rows[y][x - left.width - mid.width]
           else Black
  }

  /** Pasting the three panels side by side onto a black canvas, as both
      sources do, produces the 16:9 layout. */
  lemma {:induction false} PanelsTile(left: Image, mid: Image, right: Image)
    requires left.height == TargetHeight && mid.height == TargetHeight && right.height == TargetHeight
    requires left.width + mid.width + right.width <= TargetWidth
    ensures Composed16x9(
      Pasted(Pasted(Pasted(Solid(TargetWidth, TargetHeight, Black), left, 0, 0),
                    mid, left.width, 0),
             right, left.width + mid.width, 0),
      left, mid, right)
  {
    var c0 := Solid(TargetWidth, TargetHeight, Black);
    var c1 := Pasted(c0, left, 0, 0);
    var c2 := Pasted(c1, mid, left.width, 0);
    var c3 := Pasted(c2, right, left.width + mid.width, 0);
    forall y, x | 0 <= y < TargetHeight && 0 <= x < TargetWidth
      ensures c3.rows[y][x] ==
           if x < left.width then left.rows[y][x]
           else if x < left.width + mid.width then mid.rows[y][x - left.width]
           else if x < left.width + mid.width + right.width then right.rows[y][x - left.width - mid.width]
           else Black
    {
      assert c0.rows[y][x] == Black;
    }
  }

  /** Paints the three panels side by side onto a new black 3840 x 2160
      canvas, as both sources do at the end of the 16:9 conversion. */
  method Compose16x9(left: Image, mid: Image, right: Image) returns (out: Image)
    requires left.height == TargetHeight && mid.height == TargetHeight && right.height == TargetHeight
    requires left.width + mid.width + right.width <= TargetWidth
    ensures Composed16x9(out, left, mid, right)
  {
    var canvas := new Canvas.New(TargetWidth, TargetHeight, Black);
    DrawImage(canvas, left, 0, 0);
    DrawImage(canvas, mid, left.width, 0);
    DrawImage(canvas, right, left.width + mid.width, 0);
    out := canvas.View();
    PanelsTile(left, mid, right);
  }

  /** With an odd number of columns to fill, the two side panels leave the
      last column of the canvas black. */
  lemma OddResidualColumnIsBlack(out: Image, left: Image, mid: Image, right: Image)
    requires mid.width < TargetWidth - 1
    requires left.width == BlurWidth(mid.width) && right.width == BlurWidth(mid.width)
    requires Composed16x9(out, left, mid, right)
    requires (TargetWidth - mid.width) % 2 == 1
    ensures forall y | 0 <= y < TargetHeight :: out.rows[y][TargetWidth - 1] == Black
  {
  }

  /** With an even number of columns to fill, the panels cover the whole
      canvas: no column is left black by the layout. */
  lemma EvenLayoutCoversCanvas(out: Image, left: Image, mid: Image, right: Image)
    requires mid.width < TargetWidth - 1
    requires left.width == BlurWidth(mid.width) && right.width == BlurWidth(mid.width)
    requires Composed16x9(out, left, mid, right)
    requires (TargetWidth - mid.width) % 2 == 0
    ensures forall y, x | 0 <= y < TargetHeight && left.width + mid.width <= x < TargetWidth ::
      out.rows[y][x] == right.rows[y][x - left.width - mid.width]
  {
  }
}
