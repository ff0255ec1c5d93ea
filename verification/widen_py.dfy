/** The Python `ImageConverter` (widen_gracefully.py): watermark blur,
    whitespace trim, 16:9 composition and the output name. The filters it
    calls are parameters; the file I/O around them is not modelled. */
module WidenPy {
  import opened Raster
  import opened Geometry
  import opened Scan
  import opened Names
  import opened Arith

  /** `remove_watermark`: blurs the bottom-left watermark area and pastes
      it back over the image in place. Only that area changes. */
  method RemoveWatermark(img: Canvas, blur: Blur)
    requires KeepsSize(blur)
    modifies img.px
    ensures img.View() == Watermarked(old(img.View()), blur(WatermarkRegion(old(img.View())), 20))
  {
    var width, height := img.Width(), img.Height();
    var r := WatermarkRect(width, height);
    var region := Crop(img.View(), 0, r.y, r.width, height);
    var blurred := blur(region, 20);
    DrawImage(img, blurred, 0, r.y);
  }

  /** `np.mean(pixels[0:10, 0:10, :])`: one value, the mean over all three
      channels of the top-left block of at most 10 x 10 pixels. NumPy gives
      NaN for an empty block; no row is ever compared against it then
      (there are no rows, or the rows are empty), so 0 stands in for it. */
  function Background(img: Image): (bg: real)
    ensures 0.0 <= bg <= 255.0
  {
    var h, w := Min(10, img.height), Min(10, img.width);
    var k := h * w;
    if k == 0 then 0.0
    else
      var sum := BlockSum(img, h, w, Red) + BlockSum(img, h, w, Green) + BlockSum(img, h, w, Blue);
      BlockSumWithin(img, h, w, Red);
      BlockSumWithin(img, h, w, Green);
      BlockSumWithin(img, h, w, Blue);
      Assoc(h, w, 255);
      MeanWithin(sum, 3 * k, 255);
      sum as real / (3 * k) as real
  }

  /** The summed absolute differences of one pixel's channels from `bg`. */
  function PixelDeviation(p: Pixel, bg: real): real {
    AbsReal(p.r as real - bg) + AbsReal(p.g as real - bg) + AbsReal(p.b as real - bg)
  }

  /** The summed deviation of the first `n` pixels of `row`. */
  function RowDeviation(row: seq<Pixel>, bg: real, n: nat): (d: real)
    requires n <= |row|
    ensures d >= 0.0
  {
    if n == 0 then 0.0 else RowDeviation(row, bg, n - 1) + PixelDeviation(row[n - 1], bg)
  }

  /** `np.mean(np.abs(pixels[y, :, :] - background_color))`: the mean
      absolute deviation over the `3 * W` channel values of row `y`. */
  function RowMean(img: Image, bg: real, y: nat): (m: real)
    requires y < img.height && img.width > 0
    ensures m >= 0.0
  {
    QuotientNonNegative(RowDeviation(img.rows[y], bg, img.width), (3 * img.width) as real);
    RowDeviation(img.rows[y], bg, img.width) / (3 * img.width) as real
  }

  /** `row_mean > fuzz_threshold` for row `y`, with the mean multiplied
      out: the summed deviation exceeds 12.75 per channel value. An empty
      row has a NaN mean, which exceeds nothing. */
  predicate RowDiffers(img: Image, bg: real, y: nat)
    requires y < img.height
  {
    img.width > 0 && RowDeviation(img.rows[y], bg, img.width) > Fuzz * (3 * img.width) as real
  }

  /** The multiplied-out test is the mean test of the source. */
  lemma RowDiffersIsMeanTest(img: Image, bg: real, y: nat)
    requires y < img.height && img.width > 0
    ensures RowDiffers(img, bg, y) <==> RowMean(img, bg, y) > Fuzz
  {
    MeanAbove(RowDeviation(img.rows[y], bg, img.width), (3 * img.width) as real, Fuzz);
  }

  /** Which rows differ from the background. */
  function Marks(img: Image): (q: seq<bool>)
    ensures |q| == img.height
    ensures forall y | 0 <= y < img.height :: q[y] == RowDiffers(img, Background(img), y)
  {
    seq(img.height, y requires 0 <= y < img.height => RowDiffers(img, Background(img), y))
  }

  /** `trim_whitespace`: scans top-down for the first differing row and
      bottom-up for the last one and crops to the full-width band between
      them; the whole image when no row differs. */
  method TrimWhitespace(img: Image) returns (trimmed: Image)
    ensures var w := TrimWindow(Marks(img));
      trimmed == Crop(img, 0, w.top, img.width, w.bottom)
    ensures trimmed.width == img.width
    ensures img.height > 0 ==> trimmed.height > 0
  {
    var bg := Background(img);
    ghost var q := Marks(img);

    var top := 0;
    var y := 0;
    while y < img.height
      invariant 0 <= y <= img.height
      invariant FirstFrom(q, y) == FirstFrom(q, 0)
    {
      assert q[y] == RowDiffers(img, bg, y);
      if RowDiffers(img, bg, y) {
        top := y;
        break;
      }
      y := y + 1;
    }

    var bottom := img.height;
    var z: int := img.height - 1;
    while z >= 0
      invariant -1 <= z < img.height
      invariant LastBefore(q, z + 1) == LastBefore(q, img.height)
    {
      assert q[z] == RowDiffers(img, bg, z);
      if RowDiffers(img, bg, z) {
        bottom := z + 1;
        break;
      }
      z := z - 1;
    }

    assert top == FirstFrom(q, 0) && bottom == LastBefore(q, img.height);
    trimmed := Crop(img, 0, top, img.width, bottom);
  }

  /** An image whose rows are all alike is never trimmed. */
  lemma IdenticalRowsAreKept(img: Image)
    requires forall y | 0 <= y < img.height :: img.rows[y] == img.rows[0]
    ensures TrimWindow(Marks(img)) == Window(0, img.height)
  {
    ConstantRowsKeepAll(Marks(img));
  }

  lemma {:induction false} UniformRowDeviation(row: seq<Pixel>, bg: real, n: nat, p: Pixel)
    requires n <= |row|
    requires forall i | 0 <= i < n :: row[i] == p
    ensures RowDeviation(row, bg, n) == Copies(n, PixelDeviation(p, bg))
  {
    if n > 0 {
      UniformRowDeviation(row, bg, n - 1, p);
    }
  }

  /** A row of one colour differs exactly when that colour's mean channel
      deviation from the background exceeds the threshold. */
  lemma UniformRowDiffers(img: Image, bg: real, y: nat, p: Pixel)
    requires y < img.height && img.width > 0
    requires forall x | 0 <= x < img.width :: img.rows[y][x] == p
    ensures RowDiffers(img, bg, y) <==> PixelDeviation(p, bg) / 3.0 > Fuzz
  {
    UniformRowDeviation(img.rows[y], bg, img.width, p);
    CopiesAbove(img.width, PixelDeviation(p, bg), Fuzz);
  }

  /** A top-left block of one colour has that colour's channel mean as its
      background. */
  lemma UniformBlockBackground(img: Image, p: Pixel)
    requires img.height > 0 && img.width > 0
    requires forall y, x | 0 <= y < Min(10, img.height) && 0 <= x < Min(10, img.width) :: img.rows[y][x] == p
    ensures Background(img) == (p.r as real + p.g as real + p.b as real) / 3.0
  {
    var h, w := Min(10, img.height), Min(10, img.width);
    var total := p.r as int + p.g as int + p.b as int;
    ProductPositive(h, w);
    UniformBlockTotal(img, h, w, p);
    MeanOverThree(h * w, total, BlockSum(img, h, w, Red) + BlockSum(img, h, w, Green) + BlockSum(img, h, w, Blue));
  }

  /** The three channel sums of a block of one colour. */
  lemma UniformBlockTotal(img: Image, h: nat, w: nat, p: Pixel)
    requires h <= img.height && w <= img.width
    requires forall y, x | 0 <= y < h && 0 <= x < w :: img.rows[y][x] == p
    ensures BlockSum(img, h, w, Red) + BlockSum(img, h, w, Green) + BlockSum(img, h, w, Blue)
      == (h * w) * (p.r as int + p.g as int + p.b as int)
  {
    UniformBlockSum(img, h, w, Red, p);
    UniformBlockSum(img, h, w, Green, p);
    UniformBlockSum(img, h, w, Blue, p);
    Assoc(h, w, p.r as int);
    Assoc(h, w, p.g as int);
    Assoc(h, w, p.b as int);
    SumOfThree(h * w, p.r as int, p.g as int, p.b as int);
  }

  /** A grey margin around a band of rows of a colour far enough from it:
      the trim keeps exactly the band (the scenario of a portrait on a
      plain light backdrop). The block that sets the background lies in
      the margin above the band. */
  lemma GreyMarginTrimmedToBand(img: Image, a: nat, b: nat, margin: Pixel, band: Pixel)
    requires 10 <= a < b <= img.height && img.width > 0
    requires margin.r == margin.g == margin.b
    requires forall y, x | 0 <= y < img.height && 0 <= x < img.width ::
      img.rows[y][x] == if a <= y < b then band else margin
    requires PixelDeviation(band, margin.r as real) / 3.0 > Fuzz
    ensures TrimWindow(Marks(img)) == Window(a, b)
  {
    UniformBlockBackground(img, margin);
    var bg := margin.r as real;
    assert Background(img) == bg;
    var q := Marks(img);
    forall y | 0 <= y < img.height
      ensures q[y] <==> a <= y < b
    {
      if a <= y < b {
        UniformRowDiffers(img, bg, y, band);
      } else {
        UniformRowDiffers(img, bg, y, margin);
        assert PixelDeviation(margin, bg) == 0.0;
      }
    }
    BandIsKept(q, a, b);
  }

  /** A margin whose colour is far from grey is never trimmed: the single
      background value is the mean of its channels, so the margin rows
      themselves already differ from it. */
  lemma ColouredMarginIsKept(img: Image, margin: Pixel)
    requires img.height > 0 && img.width > 0
    requires forall y, x | 0 <= y < img.height && 0 <= x < img.width && (y < 10 || y == img.height - 1) ::
      img.rows[y][x] == margin
    requires PixelDeviation(margin, (margin.r as real + margin.g as real + margin.b as real) / 3.0) / 3.0 > Fuzz
    ensures TrimWindow(Marks(img)) == Window(0, img.height)
  {
    UniformBlockBackground(img, margin);
    var bg := Background(img);
    var q := Marks(img);
    UniformRowDiffers(img, bg, 0, margin);
    UniformRowDiffers(img, bg, img.height - 1, margin);
    assert q[0] && q[img.height - 1];
  }

  /** The left blurred panel: the leftmost strip stretched to the side
      width and 2160 rows, then blurred with radius 50. */
  function LeftPanel(img: Image, resize: Resample, blur: Blur): (panel: Image)
    requires ResizesExactly(resize) && KeepsSize(blur)
    requires img.width < TargetWidth - 1
    ensures panel.width == BlurWidth(img.width) && panel.height == TargetHeight
  {
    var edge := EdgeWidth(img.width);
    blur(resize(Crop(img, 0, 0, edge, img.height), BlurWidth(img.width), TargetHeight), 50)
  }

  /** The right blurred panel, made the same way from the rightmost strip. */
  function RightPanel(img: Image, resize: Resample, blur: Blur): (panel: Image)
    requires ResizesExactly(resize) && KeepsSize(blur)
    requires img.width < TargetWidth - 1
    ensures panel.width == BlurWidth(img.width) && panel.height == TargetHeight
  {
    var edge := EdgeWidth(img.width);
    blur(resize(Crop(img, img.width - edge, 0, img.width, img.height), BlurWidth(img.width), TargetHeight), 50)
  }

  /** `convert_to_16x9`: a black 3840 x 2160 canvas with the left panel at
      x = 0, the image at x = blur width and the right panel right after
      it, each side panel `(3840 - W) // 2` wide. */
  method ConvertTo16x9(img: Image, resize: Resample, blur: Blur) returns (result: Image)
    requires ResizesExactly(resize) && KeepsSize(blur)
    requires img.width < TargetWidth - 1
    ensures Composed16x9(result, LeftPanel(img, resize, blur), HeightForced(img, resize), RightPanel(img, resize, blur))
    ensures LeftPanel(img, resize, blur).width == BlurWidth(img.width)
    ensures RightPanel(img, resize, blur).width == BlurWidth(img.width)
    ensures HeightForced(img, resize).width == img.width
  {
    var width, height := img.width, img.height;
    var edgeWidth := EdgeWidth(width);
    var blurWidth := BlurWidth(width);

    var leftBlurred := blur(resize(Crop(img, 0, 0, edgeWidth, height), blurWidth, TargetHeight), 50);
    var rightBlurred := blur(resize(Crop(img, width - edgeWidth, 0, width, height), blurWidth, TargetHeight), 50);

    var middle := img;
    if height != TargetHeight {
      middle := resize(img, width, TargetHeight);
    }
    assert leftBlurred == LeftPanel(img, resize, blur) && leftBlurred.width == blurWidth;
    assert rightBlurred == RightPanel(img, resize, blur) && rightBlurred.width == blurWidth;
    assert middle == HeightForced(img, resize) && middle.width == width;

    result := Compose16x9(leftBlurred, middle, rightBlurred);
  }

  /** An image already 2160 rows high appears unchanged in the middle of
      the composition. */
  lemma MiddleKeptAtTargetHeight(result: Image, img: Image, resize: Resample, blur: Blur)
    requires ResizesExactly(resize) && KeepsSize(blur)
    requires img.width < TargetWidth - 1 && img.height == TargetHeight
    requires Composed16x9(result, LeftPanel(img, resize, blur), HeightForced(img, resize), RightPanel(img, resize, blur))
    ensures forall y, x | 0 <= y < TargetHeight && 0 <= x < img.width ::
      result.rows[y][BlurWidth(img.width) + x] == img.rows[y][x]
  {
    var left := LeftPanel(img, resize, blur);
    assert left.width == BlurWidth(img.width);
    forall y, x | 0 <= y < TargetHeight && 0 <= x < img.width
      ensures result.rows[y][BlurWidth(img.width) + x] == img.rows[y][x]
    {
      var c := left.width + x;
      assert c < TargetWidth;
      assert result.rows[y][c] == img.rows[y][c - left.width];
    }
  }

  /** `os.path.basename`: everything after the last `/`. */
  function Basename(path: string): (name: string)
    ensures forall i | 0 <= i < |name| :: name[i] != '/'
    ensures |name| <= |path| && name == path[|path| - |name|..]
    ensures |name| == |path| || path[|path| - |name| - 1] == '/'
  {
    path[LastIndexOf(path, '/') + 1..]
  }

  /** `os.path.splitext` on a name without `/`: the extension runs from the
      last `.` to the end, unless only dots precede that `.` (a leading-dot
      name such as `.png` has no extension). */
  function SplitExt(name: string): (parts: (string, string))
    ensures parts.0 + parts.1 == name
    ensures parts.1 == [] || (parts.1[0] == '.' && forall i | 1 <= i < |parts.1| :: parts.1[i] != '.')
    ensures parts.1 != [] ==> exists i | 0 <= i < |parts.0| :: parts.0[i] != '.'
    ensures (exists k, i | 0 <= i < k < |name| :: name[k] == '.' && name[i] != '.') ==> parts.1 != []
  {
    var dot := LastIndexOf(name, '.');
    if dot > 0 && exists i | 0 <= i < dot :: name[i] != '.' then
      assert name[..dot] + name[dot..] == name;
      (name[..dot], name[dot..])
    else (name, [])
  }

  /** The output file name of `process_image`: the base name without its
      extension, every `-10000px` deleted, then `-4k.jpg`. */
  function OutputName(path: string): (out: string)
    ensures |out| >= |Suffix| && out[|out| - |Suffix|..] == Suffix
  {
    RemoveAll(SplitExt(Basename(path)).0, Marker) + Suffix
  }

  /** The output file sits directly in the `python` directory: no `/`
      follows the directory name. */
  function OutputPath(path: string): (out: string)
    ensures |out| >= 7 && out[..7] == "python/"
    ensures forall i | 7 <= i < |out| :: out[i] != '/'
  {
    OutputNameHasNoSlash(path);
    "python/" + OutputName(path)
  }

  /** The output name holds no `/`. */
  lemma OutputNameHasNoSlash(path: string)
    ensures forall i | 0 <= i < |OutputName(path)| :: OutputName(path)[i] != '/'
  {
    var name := Basename(path);
    var parts := SplitExt(name);
    assert forall i | 0 <= i < |parts.0| :: parts.0[i] == (parts.0 + parts.1)[i];
    RemoveAllKeepsAbsent(parts.0, Marker, '/');
    SuffixHasNoSlash();
    Appended(RemoveAll(parts.0, Marker), Suffix, '/');
  }

  /** A stem without the marker is kept as it is. */
  lemma OutputNameWithoutMarker(path: string)
    requires var stem := SplitExt(Basename(path)).0;
      forall i | 0 <= i < |stem| :: !MatchAt(stem, Marker, i)
    ensures OutputName(path) == SplitExt(Basename(path)).0 + Suffix
  {
    RemoveAllWithoutMatch(SplitExt(Basename(path)).0, Marker);
  }

  /** An example input name: directory and extension dropped, the marker
      deleted, the suffix added. */
  lemma OutputPathOfPortrait()
    ensures OutputPath("photos/portrait-10000px.jpg") == "python/portrait-4k.jpg"
  {
    PortraitNameWithoutMarker();
    OutputNameFromStem("photos/portrait-10000px.jpg", "portrait");
    PortraitJoined();
  }

  lemma PortraitJoined()
    ensures "python/" + "portrait" + Suffix == "python/portrait-4k.jpg"
  {
  }

  lemma PortraitNameWithoutMarker()
    ensures RemoveAll(SplitExt(Basename("photos/portrait-10000px.jpg")).0, Marker) == "portrait"
  {
    PortraitBasename();
    PortraitStem();
    PortraitMarkerRemoved();
  }

  lemma OutputNameFromStem(path: string, kept: string)
    requires RemoveAll(SplitExt(Basename(path)).0, Marker) == kept
    ensures OutputPath(path) == "python/" + kept + Suffix
  {
  }

  lemma PortraitBasename()
    ensures Basename("photos/portrait-10000px.jpg") == "portrait-10000px.jpg"
  {
    var path := "photos/portrait-10000px.jpg";
    assert path[6] == '/' && forall i | 6 < i < |path| :: path[i] != '/';
    LastIndexOfAt(path, '/', 6);
  }

  lemma PortraitStem()
    ensures SplitExt("portrait-10000px.jpg").0 == "portrait-10000px"
  {
    var name := "portrait-10000px.jpg";
    assert name[16] == '.' && name[17] != '.' && name[18] != '.' && name[19] != '.';
    LastIndexOfAt(name, '.', 16);
    assert name[0] != '.';
  }
}
