/** The Go `ImageConverter` (widen_gracefully.go): watermark blur,
    whitespace trim, 16:9 composition and the output name. The `imaging`
    filters it calls are parameters; the file I/O around them is not
    modelled. */
module WidenGo {
  import opened Raster
  import opened Geometry
  import opened Scan
  import opened Names
  import opened Arith

  // ---------------------------------------------------------------------
  // removeWatermark

  /** What the write-back loop of `removeWatermark` produces: every pixel
      `(x, y)` of the watermark rectangle receives the blurred pixel at
      `(x, watermarkY)`, one fixed row for every `y`; all other pixels are
      those of the input. */
  function WatermarkedAsWritten(img: Image, blurred: Image): (out: Image)
    ensures out.width == img.width && out.height == img.height
    ensures var r := WatermarkRect(img.width, img.height);
      forall y, x | 0 <= y < img.height && 0 <= x < img.width && !InRect(r, x, y) ::
        out.rows[y][x] == img.rows[y][x]
  {
    var r := WatermarkRect(img.width, img.height);
    Grid(img.width, img.height,
      seq(img.height, y requires 0 <= y < img.height =>
        seq(img.width, x requires 0 <= x < img.width =>
          if InRect(r, x, y) then At(blurred, x, r.y) else img.rows[y][x])))
  }

  /** `removeWatermark` as written: clones the input and overwrites the
      watermark rectangle pixel by pixel with `Set`, reading the blurred
      region at row `watermarkY`. */
  method RemoveWatermark(img: Image, blur: Blur) returns (result: Image)
    requires KeepsSize(blur)
    ensures result == WatermarkedAsWritten(img, blur(WatermarkRegion(img), 20))
  {
    var r := WatermarkRect(img.width, img.height);
    var blurred := blur(WatermarkRegion(img), 20);
    var canvas := new Canvas.Clone(img);
    assert canvas.Width() == img.width && canvas.Height() == img.height;
    var y := r.y;
    while y < img.height
      invariant r.y <= y <= img.height
      invariant forall j, i | 0 <= j < img.height && 0 <= i < img.width ::
        canvas.px[j, i] == if InRect(r, i, j) && j < y then At(blurred, i, r.y) else img.rows[j][i]
    {
      var x := 0;
      while x < r.width
        invariant 0 <= x <= r.width
        invariant forall j, i | 0 <= j < img.height && 0 <= i < img.width ::
          canvas.px[j, i] == if InRect(r, i, j) && (j < y || (j == y && i < x)) then At(blurred, i, r.y) else img.rows[j][i]
      {
        canvas.Set(x, y, At(blurred, x, r.y));
        x := x + 1;
      }
      y := y + 1;
    }
    result := canvas.View();
    SameImage(result, WatermarkedAsWritten(img, blurred));
  }

  /** The blurred region starts at the origin and is only as high as the
      rectangle, which begins at a row no smaller than its height: every
      read of the write-back loop falls outside it and yields the zero
      colour, so the whole rectangle turns black whatever the blur
      returned. */
  lemma AsWrittenBlackensRect(img: Image, blurred: Image)
    requires var r := WatermarkRect(img.width, img.height);
      blurred.width == r.width && blurred.height == r.height
    ensures var r := WatermarkRect(img.width, img.height);
      forall y, x | 0 <= y < img.height && 0 <= x < img.width && InRect(r, x, y) ::
        WatermarkedAsWritten(img, blurred).rows[y][x] == Black
  {
    WatermarkRowBelowItsHeight(img.width, img.height);
  }

  const White: Pixel := Pixel(255, 255, 255)

  /** A white 100 x 100 image whose watermark region the blur gives back
      unchanged: the row-by-row paste leaves it white, the loop as written
      puts a black pixel at the rectangle's corner `(0, 96)`. */
  lemma AsWrittenDiffersOnWhiteImage()
    ensures var img := Solid(100, 100, White);
      var region := WatermarkRegion(img);
      && WatermarkedAsWritten(img, region).rows[96][0] == Black
      && Watermarked(img, region).rows[96][0] == White
  {
    var img := Solid(100, 100, White);
    var region := WatermarkRegion(img);
    var r := WatermarkRect(100, 100);
    assert r == Rect(0, 96, 23, 4);
    AsWrittenBlackensRect(img, region);
    WatermarkedChangesOnlyRect(img, region);
    assert region.rows[0][0] == img.rows[96][0];
  }

  /** The write-back loop with the evidently intended read at
      `(x, y - watermarkY)`: the blurred region replaces the rectangle row
      by row, as the Python version's paste does. */
  method RemoveWatermarkFixed(img: Image, blur: Blur) returns (result: Image)
    requires KeepsSize(blur)
    ensures result == Watermarked(img, blur(WatermarkRegion(img), 20))
  {
    var r := WatermarkRect(img.width, img.height);
    var blurred := blur(WatermarkRegion(img), 20);
    var canvas := new Canvas.Clone(img);
    assert canvas.Width() == img.width && canvas.Height() == img.height;
    var y := r.y;
    while y < img.height
      invariant r.y <= y <= img.height
      invariant forall j, i | 0 <= j < img.height && 0 <= i < img.width ::
        canvas.px[j, i] == if InRect(r, i, j) && j < y then blurred.rows[j - r.y][i] else img.rows[j][i]
    {
      var x := 0;
      while x < r.width
        invariant 0 <= x <= r.width
        invariant forall j, i | 0 <= j < img.height && 0 <= i < img.width ::
          canvas.px[j, i] == if InRect(r, i, j) && (j < y || (j == y && i < x)) then blurred.rows[j - r.y][i] else img.rows[j][i]
      {
        canvas.Set(x, y, At(blurred, x, y - r.y));
        x := x + 1;
      }
      y := y + 1;
    }
    result := canvas.View();
    WatermarkedChangesOnlyRect(img, blurred);
    SameImage(result, Watermarked(img, blurred));
  }

  // ---------------------------------------------------------------------
  // trimWhitespace

  /** A background colour with one exact mean per channel. */
  datatype Colour = Colour(r: real, g: real, b: real)

  /** The colour of a pixel, channel by channel. */
  function ColourOf(p: Pixel): Colour {
    Colour(p.r as real, p.g as real, p.b as real)
  }

  /** The per-channel mean over the top-left block of at most 10 x 10
      pixels. Go divides by a zero count when the image has no pixels and
      gets NaN, which no row is ever compared against (there are no rows,
      or every row has no samples and a mean of 0); zeros stand in. */
  function BackgroundOf(img: Image): (bg: Colour)
    ensures 0.0 <= bg.r <= 255.0 && 0.0 <= bg.g <= 255.0 && 0.0 <= bg.b <= 255.0
  {
    var h, w := Min(10, img.height), Min(10, img.width);
    if h * w == 0 then Colour(0.0, 0.0, 0.0)
    else
      BlockSumWithin(img, h, w, Red);
      BlockSumWithin(img, h, w, Green);
      BlockSumWithin(img, h, w, Blue);
      Assoc(h, w, 255);
      MeanWithin(BlockSum(img, h, w, Red), h * w, 255);
      MeanWithin(BlockSum(img, h, w, Green), h * w, 255);
      MeanWithin(BlockSum(img, h, w, Blue), h * w, 255);
      Colour(BlockSum(img, h, w, Red) as real / (h * w) as real,
                BlockSum(img, h, w, Green) as real / (h * w) as real,
                BlockSum(img, h, w, Blue) as real / (h * w) as real)
  }

  /** The background loop of `trimWhitespace`: sums each channel and counts
      the pixels of the block, then divides. The sums are at most
      100 * 255 and fit the source's `uint32` accumulators. */
  method Background(img: Image) returns (bg: Colour)
    ensures bg == BackgroundOf(img)
  {
    var bw := Min(10, img.width);
    var r, g, b, count := 0, 0, 0, 0;
    var y := 0;
    while y < 10 && y < img.height
      invariant 0 <= y <= Min(10, img.height)
      invariant r == BlockSum(img, y, bw, Red) && g == BlockSum(img, y, bw, Green) && b == BlockSum(img, y, bw, Blue)
      invariant count == y * bw
    {
      var x := 0;
      while x < 10 && x < img.width
        invariant 0 <= x <= bw
        invariant r == BlockSum(img, y, bw, Red) + RowSum(img.rows[y], x, Red)
        invariant g == BlockSum(img, y, bw, Green) + RowSum(img.rows[y], x, Green)
        invariant b == BlockSum(img, y, bw, Blue) + RowSum(img.rows[y], x, Blue)
        invariant count == y * bw + x
      {
        var p := img.rows[y][x];
        r, g, b := r + p.r as int, g + p.g as int, b + p.b as int;
        count := count + 1;
        x := x + 1;
      }
      NextRow(y, bw);
      y := y + 1;
    }
    if count == 0 {
      bg := Colour(0.0, 0.0, 0.0);
    } else {
      bg := Colour(r as real / count as real, g as real / count as real, b as real / count as real);
    }
  }

  /** A top-left block of one colour has exactly that colour as its
      background, channel by channel. */
  lemma UniformBlockBackground(img: Image, p: Pixel)
    requires img.height > 0 && img.width > 0
    requires forall y, x | 0 <= y < Min(10, img.height) && 0 <= x < Min(10, img.width) :: img.rows[y][x] == p
    ensures BackgroundOf(img) == ColourOf(p)
  {
    var h, w := Min(10, img.height), Min(10, img.width);
    UniformChannelMean(img, h, w, Red, p);
    UniformChannelMean(img, h, w, Green, p);
    UniformChannelMean(img, h, w, Blue, p);
  }

  lemma UniformChannelMean(img: Image, h: nat, w: nat, c: Channel, p: Pixel)
    requires 0 < h <= img.height && 0 < w <= img.width
    requires forall y, x | 0 <= y < h && 0 <= x < w :: img.rows[y][x] == p
    ensures BlockSum(img, h, w, c) as real / (h * w) as real == Value(p, c) as real
  {
    UniformBlockSum(img, h, w, c, p);
    Assoc(h, w, Value(p, c));
    ProductPositive(h, w);
    MeanOfIntCopies(h * w, Value(p, c), BlockSum(img, h, w, c));
  }

  /** One sample's difference: the mean of its three channel differences. */
  function SampleDiff(p: Pixel, bg: Colour): real {
    (AbsReal(p.r as real - bg.r) + AbsReal(p.g as real - bg.g) + AbsReal(p.b as real - bg.b)) / 3.0
  }

  /** How many columns `0, 10, 20, ...` a row of `width` pixels has. */
  function SampleCount(width: nat): (n: nat)
    ensures 10 * n >= width && (n > 0 ==> 10 * (n - 1) < width)
  {
    (width + 9) / 10
  }

  /** The summed differences of the first `k` samples of `row`, taken at
      columns `0, 10, ..., 10 * (k - 1)`. */
  function SampledSum(row: seq<Pixel>, bg: Colour, k: nat): (sum: real)
    requires k <= SampleCount(|row|)
    ensures sum >= 0.0
  {
    if k == 0 then 0.0 else SampledSum(row, bg, k - 1) + SampleDiff(row[10 * (k - 1)], bg)
  }

  /** The mean difference of row `y` over its samples; 0 for a row with no
      samples (the source divides only when it has some). */
  function RowMeanOf(img: Image, bg: Colour, y: nat): (mean: real)
    requires y < img.height
    ensures mean >= 0.0
  {
    var n := SampleCount(img.width);
    if n == 0 then 0.0
    else
      QuotientNonNegative(SampledSum(img.rows[y], bg, n), n as real);
      SampledSum(img.rows[y], bg, n) / n as real
  }

  /** The inner loop of both scans: samples every tenth column of row `y`
      and averages the sample differences. */
  method RowMean(img: Image, bg: Colour, y: nat) returns (mean: real)
    requires y < img.height
    ensures mean == RowMeanOf(img, bg, y)
  {
    mean := 0.0;
    var sampleCount := 0;
    var x := 0;
    while x < img.width
      invariant sampleCount <= SampleCount(img.width)
      invariant x == 10 * sampleCount
      invariant mean == SampledSum(img.rows[y], bg, sampleCount)
    {
      mean := mean + SampleDiff(img.rows[y][x], bg);
      sampleCount := sampleCount + 1;
      x := x + 10;
    }
    if sampleCount > 0 {
      mean := mean / sampleCount as real;
    }
  }

  /** Whether row `y` differs from the background. */
  predicate RowDiffers(img: Image, bg: Colour, y: nat)
    requires y < img.height
  {
    RowMeanOf(img, bg, y) > Fuzz
  }

  /** Which rows differ from the background. */
  function Marks(img: Image): (q: seq<bool>)
    ensures |q| == img.height
    ensures forall y | 0 <= y < img.height :: q[y] == RowDiffers(img, BackgroundOf(img), y)
  {
    seq(img.height, y requires 0 <= y < img.height => RowDiffers(img, BackgroundOf(img), y))
  }

  /** `trimWhitespace`: scans top-down for the first differing row and
      bottom-up for the last one; gives back the input itself when that
      keeps every row, and the full-width crop of the band otherwise. */
  method TrimWhitespace(img: Image) returns (trimmed: Image)
    ensures var w := TrimWindow(Marks(img));
      trimmed == Crop(img, 0, w.top, img.width, w.bottom)
    ensures TrimWindow(Marks(img)) == Window(0, img.height) ==> trimmed == img
    ensures trimmed.width == img.width
    ensures img.height > 0 ==> trimmed.height > 0
  {
    var bg := Background(img);
    ghost var q := Marks(img);

    var top := 0;
    var y := 0;
    while y < img.height
      invariant 0 <= y <= img.height
      invariant FirstFrom(q, y) == FirstFrom(q, 0)
    {
      var rowMean := RowMean(img, bg, y);
      if rowMean > Fuzz {
        top := y;
        break;
      }
      y := y + 1;
    }

    var bottom := img.height;
    var z: int := img.height - 1;
    while z >= 0
      invariant -1 <= z < img.height
      invariant LastBefore(q, z + 1) == LastBefore(q, img.height)
    {
      var rowMean := RowMean(img, bg, z);
      if rowMean > Fuzz {
        bottom := z + 1;
        break;
      }
      z := z - 1;
    }

    assert top == FirstFrom(q, 0) && bottom == LastBefore(q, img.height);
    if top == 0 && bottom == img.height {
      CropWhole(img);
      trimmed := img;
    } else {
      trimmed := Crop(img, 0, top, img.width, bottom);
    }
  }

  lemma {:induction false} UniformSampledSum(row: seq<Pixel>, bg: Colour, k: nat, p: Pixel)
    requires k <= SampleCount(|row|)
    requires forall i | 0 <= i < |row| :: row[i] == p
    ensures SampledSum(row, bg, k) == Copies(k, SampleDiff(p, bg))
  {
    if k > 0 {
      UniformSampledSum(row, bg, k - 1, p);
    }
  }

  /** A non-empty row of one colour has that colour's difference as its
      mean. */
  lemma UniformRowMean(img: Image, bg: Colour, y: nat, p: Pixel)
    requires y < img.height && img.width > 0
    requires forall x | 0 <= x < img.width :: img.rows[y][x] == p
    ensures RowMeanOf(img, bg, y) == SampleDiff(p, bg)
  {
    var n := SampleCount(img.width);
    UniformSampledSum(img.rows[y], bg, n, p);
    MeanOfCopies(n, SampleDiff(p, bg));
  }

  lemma {:induction false} SampledSumOnlyReadsSamples(a: seq<Pixel>, b: seq<Pixel>, bg: Colour, k: nat)
    requires |a| == |b| && k <= SampleCount(|a|)
    requires forall x | 0 <= x < |a| && x % 10 == 0 :: a[x] == b[x]
    ensures SampledSum(a, bg, k) == SampledSum(b, bg, k)
  {
    if k > 0 {
      SampledSumOnlyReadsSamples(a, b, bg, k - 1);
      MultipleOfTen(k - 1);
      assert a[10 * (k - 1)] == b[10 * (k - 1)];
    }
  }

  /** Only the columns `0, 10, 20, ...` take part in the row test: two
      rows that agree there get the same verdict, whatever lies between. */
  lemma RowTestReadsOnlySamples(img1: Image, img2: Image, bg: Colour, y: nat)
    requires img1.width == img2.width && y < img1.height && y < img2.height
    requires forall x | 0 <= x < img1.width && x % 10 == 0 :: img1.rows[y][x] == img2.rows[y][x]
    ensures RowDiffers(img1, bg, y) <==> RowDiffers(img2, bg, y)
  {
    SampledSumOnlyReadsSamples(img1.rows[y], img2.rows[y], bg, SampleCount(img1.width));
  }

  /** An image whose rows are all alike is given back unchanged. */
  lemma IdenticalRowsAreKept(img: Image)
    requires forall y | 0 <= y < img.height :: img.rows[y] == img.rows[0]
    ensures TrimWindow(Marks(img)) == Window(0, img.height)
  {
    ConstantRowsKeepAll(Marks(img));
  }

  /** A margin of any one colour around a band of rows of a colour far
      enough from it: the trim keeps exactly the band. The block that sets
      the background lies in the margin above the band. */
  lemma UniformMarginTrimmedToBand(img: Image, a: nat, b: nat, margin: Pixel, band: Pixel)
    requires 10 <= a < b <= img.height && img.width > 0
    requires forall y, x | 0 <= y < img.height && 0 <= x < img.width ::
      img.rows[y][x] == if a <= y < b then band else margin
    requires SampleDiff(band, ColourOf(margin)) > Fuzz
    ensures TrimWindow(Marks(img)) == Window(a, b)
  {
    UniformBlockBackground(img, margin);
    var bg := ColourOf(margin);
    var q := Marks(img);
    forall y | 0 <= y < img.height
      ensures q[y] <==> a <= y < b
    {
      if a <= y < b {
        UniformRowMean(img, bg, y, band);
      } else {
        UniformRowMean(img, bg, y, margin);
        assert SampleDiff(margin, bg) == 0.0;
      }
    }
    BandIsKept(q, a, b);
  }

  // ---------------------------------------------------------------------
  // convertTo16x9

  /** The left panel: the leftmost strip of the height-forced image,
      stretched to the side width and blurred with radius 50. */
  function LeftPanel(img: Image, resize: Resample, blur: Blur): (panel: Image)
    requires ResizesExactly(resize) && KeepsSize(blur)
    requires img.width < TargetWidth - 1
    ensures panel.width == BlurWidth(img.width) && panel.height == TargetHeight
  {
    var forced := HeightForced(img, resize);
    blur(resize(Crop(forced, 0, 0, EdgeWidth(img.width), TargetHeight), BlurWidth(img.width), TargetHeight), 50)
  }

  /** The right panel, made the same way from the rightmost strip. */
  function RightPanel(img: Image, resize: Resample, blur: Blur): (panel: Image)
    requires ResizesExactly(resize) && KeepsSize(blur)
    requires img.width < TargetWidth - 1
    ensures panel.width == BlurWidth(img.width) && panel.height == TargetHeight
  {
    var forced := HeightForced(img, resize);
    var edge := EdgeWidth(img.width);
    blur(resize(Crop(forced, img.width - edge, 0, img.width, TargetHeight), BlurWidth(img.width), TargetHeight), 50)
  }

  /** The middle panel: the height-forced image resized once more to its
      own size, which the source does unconditionally. That second
      resize changes nothing. */
  function MiddlePanel(img: Image, resize: Resample): (panel: Image)
    requires ResizesExactly(resize)
    ensures panel.width == img.width && panel.height == TargetHeight
    ensures panel == HeightForced(img, resize)
    ensures img.height == TargetHeight ==> panel == img
  {
    resize(HeightForced(img, resize), img.width, TargetHeight)
  }

  /** `convertTo16x9`: forces the height, cuts and blurs the side panels,
      and draws the three panels onto a black 3840 x 2160 canvas at
      x = 0, x = blur width and x = blur width + W. */
  method ConvertTo16x9(img: Image, resize: Resample, blur: Blur) returns (result: Image)
    requires ResizesExactly(resize) && KeepsSize(blur)
    requires img.width < TargetWidth - 1
    ensures Composed16x9(result, LeftPanel(img, resize, blur), MiddlePanel(img, resize), RightPanel(img, resize, blur))
    ensures LeftPanel(img, resize, blur).width == BlurWidth(img.width)
    ensures RightPanel(img, resize, blur).width == BlurWidth(img.width)
    ensures MiddlePanel(img, resize).width == img.width
  {
    var currentWidth := img.width;
    var edgeWidth := EdgeWidth(currentWidth);
    var blurWidth := BlurWidth(currentWidth);

    var forced := img;
    if img.height != TargetHeight {
      forced := resize(img, currentWidth, TargetHeight);
    }

    var leftBlurred := blur(resize(Crop(forced, 0, 0, edgeWidth, TargetHeight), blurWidth, TargetHeight), 50);
    var rightBlurred := blur(resize(Crop(forced, currentWidth - edgeWidth, 0, currentWidth, TargetHeight), blurWidth, TargetHeight), 50);
    var middle := resize(forced, currentWidth, TargetHeight);
    assert leftBlurred == LeftPanel(img, resize, blur) && leftBlurred.width == blurWidth;
    assert rightBlurred == RightPanel(img, resize, blur) && rightBlurred.width == blurWidth;
    assert middle == MiddlePanel(img, resize) && middle.width == currentWidth;

    result := Compose16x9(leftBlurred, middle, rightBlurred);
  }

  /** An image already 2160 rows high appears unchanged in the middle of
      the composition, as in Python. */
  lemma MiddleKeptAtTargetHeight(result: Image, img: Image, resize: Resample, blur: Blur)
    requires ResizesExactly(resize) && KeepsSize(blur)
    requires img.width < TargetWidth - 1 && img.height == TargetHeight
    requires Composed16x9(result, LeftPanel(img, resize, blur), MiddlePanel(img, resize), RightPanel(img, resize, blur))
    ensures forall y, x | 0 <= y < TargetHeight && 0 <= x < img.width ::
      result.rows[y][BlurWidth(img.width) + x] == img.rows[y][x]
  {
    var left := LeftPanel(img, resize, blur);
    assert left.width == BlurWidth(img.width);
    assert MiddlePanel(img, resize) == img;
    forall y, x | 0 <= y < TargetHeight && 0 <= x < img.width
      ensures result.rows[y][BlurWidth(img.width) + x] == img.rows[y][x]
    {
      var c := left.width + x;
      assert c < TargetWidth;
      assert result.rows[y][c] == img.rows[y][c - left.width];
    }
  }

  // ---------------------------------------------------------------------
  // abs

  /** Go's 64-bit `int`. */
  newtype int64 = x: int | -0x8000_0000_0000_0000 <= x < 0x8000_0000_0000_0000

  const MinInt64: int64 := -0x8000_0000_0000_0000

  /** Go's `abs` on `int`: negation wraps around, so the most negative
      value is its own absolute value. */
  function Abs(x: int64): (r: int64)
    ensures x != MinInt64 ==> r >= 0 && (r as int == x as int || r as int == -(x as int))
    ensures x == MinInt64 ==> r == MinInt64
  {
    if x < 0 then (if x == MinInt64 then x else -x) else x
  }

  /** Applying `abs` twice gives what applying it once does. */
  lemma AbsIdempotent(x: int64)
    ensures Abs(Abs(x)) == Abs(x)
  {
  }

  // ---------------------------------------------------------------------
  // Output name

  /** The string without its trailing slashes. */
  function TrimTrailingSlashes(s: string): (t: string)
    ensures |t| <= |s| && t == s[..|t|]
    ensures t == [] || t[|t| - 1] != '/'
    ensures forall i | |t| <= i < |s| :: s[i] == '/'
  {
    if s != [] && s[|s| - 1] == '/' then TrimTrailingSlashes(s[..|s| - 1]) else s
  }

  /** `filepath.Base` with `/` as the separator: `.` for the empty path,
      `/` for a path of slashes only, and otherwise the last element once
      trailing slashes are removed. */
  function Base(path: string): (name: string)
    ensures name != []
    ensures name != "/" ==> forall i | 0 <= i < |name| :: name[i] != '/'
    ensures path == [] ==> name == "."
    ensures path != [] && TrimTrailingSlashes(path) == [] ==> name == "/"
    ensures var t := TrimTrailingSlashes(path);
      t != [] ==>
        && |name| <= |t| && name == t[|t| - |name|..]
        && (forall i | 0 <= i < |name| :: name[i] != '/')
        && (|name| == |t| || t[|t| - |name| - 1] == '/')
  {
    if path == [] then "."
    else
      var t := TrimTrailingSlashes(path);
      if t == [] then "/" else t[LastIndexOf(t, '/') + 1..]
  }

  /** `filepath.Ext`: the suffix from the last `.` of the last path
      element, or nothing when that element has no `.`. */
  function Ext(path: string): (ext: string)
    ensures |ext| <= |path| && ext == path[|path| - |ext|..]
    ensures ext == [] || (ext[0] == '.' && forall i | 1 <= i < |ext| :: ext[i] != '.' && ext[i] != '/')
    ensures (exists i | LastIndexOf(path, '/') < i < |path| :: path[i] == '.') ==> ext != []
  {
    var dot := LastIndexOf(path, '.');
    var slash := LastIndexOf(path, '/');
    if dot > slash then path[dot..] else []
  }

  /** `strings.TrimSuffix`. */
  function TrimSuffix(s: string, suffix: string): (t: string)
    ensures t + suffix == s || t == s
    ensures (|suffix| <= |s| && s[|s| - |suffix|..] == suffix) ==> t + suffix == s
    ensures !(|suffix| <= |s| && s[|s| - |suffix|..] == suffix) ==> t == s
  {
    if |suffix| <= |s| && s[|s| - |suffix|..] == suffix then
      assert s[..|s| - |suffix|] + s[|s| - |suffix|..] == s;
      s[..|s| - |suffix|]
    else s
  }

  /** The file name without its extension. */
  function Stem(path: string): (stem: string)
    ensures stem + Ext(Base(path)) == Base(path)
  {
    var base := Base(path);
    var ext := Ext(base);
    TrimOwnSuffix(base, ext);
    TrimSuffix(base, ext)
  }

  /** Trimming a string's own suffix leaves what precedes it. */
  lemma TrimOwnSuffix(s: string, suffix: string)
    requires |suffix| <= |s| && suffix == s[|s| - |suffix|..]
    ensures TrimSuffix(s, suffix) + suffix == s
  {
  }

  /** The output file name of `ProcessImage`: the stem with every
      `-10000px` deleted, then `-4k.jpg`. */
  function OutputName(path: string): (out: string)
    ensures |out| >= |Suffix| && out[|out| - |Suffix|..] == Suffix
  {
    RemoveAll(Stem(path), Marker) + Suffix
  }

  /** The output file sits in the `go` directory, directly unless the
      path is made of slashes only (its base name is then `/`). */
  function OutputPath(path: string): (out: string)
    ensures |out| >= 3 && out[..3] == "go/"
    ensures Base(path) != "/" ==> forall i | 3 <= i < |out| :: out[i] != '/'
  {
    OutputNameHasNoSlash(path);
    "go/" + OutputName(path)
  }

  /** Unless the base name is `/`, the output name holds no `/`. */
  lemma OutputNameHasNoSlash(path: string)
    ensures Base(path) != "/" ==> forall i | 0 <= i < |OutputName(path)| :: OutputName(path)[i] != '/'
  {
    var base, stem := Base(path), Stem(path);
    if base != "/" {
      assert forall i | 0 <= i < |stem| :: stem[i] == (stem + Ext(base))[i];
      RemoveAllKeepsAbsent(stem, Marker, '/');
      SuffixHasNoSlash();
      Appended(RemoveAll(stem, Marker), Suffix, '/');
    }
  }

  /** A stem without the marker is kept as it is. */
  lemma OutputNameWithoutMarker(path: string)
    requires forall i | 0 <= i < |Stem(path)| :: !MatchAt(Stem(path), Marker, i)
    ensures OutputName(path) == Stem(path) + Suffix
  {
    var stem := Stem(path);
    RemoveAllWithoutMatch(stem, Marker);
    OutputNameFromStem(path);
  }

  /** An example input name: directory and extension dropped, the marker
      deleted, the suffix added. */
  lemma OutputPathOfPortrait()
    ensures OutputPath("photos/portrait-10000px.jpg") == "go/portrait-4k.jpg"
  {
    var path := "photos/portrait-10000px.jpg";
    PortraitNameWithoutMarker();
    OutputNameFromStem(path);
    assert OutputPath(path) == "go/" + OutputName(path);
    PortraitJoined();
  }

  lemma PortraitJoined()
    ensures "go/" + ("portrait" + Suffix) == "go/portrait-4k.jpg"
  {
  }

  lemma PortraitNameWithoutMarker()
    ensures RemoveAll(Stem("photos/portrait-10000px.jpg"), Marker) == "portrait"
  {
    PortraitBase();
    PortraitStem();
    PortraitMarkerRemoved();
  }

  /** The output name is built from the stem alone. */
  lemma OutputNameFromStem(path: string)
    ensures OutputName(path) == RemoveAll(Stem(path), Marker) + Suffix
  {
  }

  lemma PortraitBase()
    ensures Base("photos/portrait-10000px.jpg") == "portrait-10000px.jpg"
  {
    var path := "photos/portrait-10000px.jpg";
    assert path[6] == '/' && forall i | 6 < i < |path| :: path[i] != '/';
    LastIndexOfAt(path, '/', 6);
    assert path[|path| - 1] != '/';
    assert TrimTrailingSlashes(path) == path;
  }

  lemma PortraitStem()
    ensures Stem("photos/portrait-10000px.jpg") == "portrait-10000px"
  {
    PortraitBase();
    var name := "portrait-10000px.jpg";
    assert name[16] == '.' && name[17] != '.' && name[18] != '.' && name[19] != '.';
    LastIndexOfAt(name, '.', 16);
    assert forall i | 0 <= i < |name| :: name[i] != '/';
    LastIndexOfNone(name, '/');
    assert Ext(name) == ".jpg";
    assert name[16..] == ".jpg";
  }
}
