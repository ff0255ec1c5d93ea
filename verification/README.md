# Widen gracefully — a Dafny model

"Widen gracefully" turns a tall portrait photo into a 3840 x 2160 (16:9)
picture. It exists twice, as a Python script (`widen_gracefully.py`, with
PIL and NumPy) and as a Go program (`widen_gracefully.go`, with the
`imaging` package). Both run the same pipeline on every input file:

1. **Watermark removal**: the bottom-left watermark area is blurred with
   radius 20 and written back. The area is 23% of the width by 4% of the
   height. (In Go, as written, the write-back reads the wrong row of the
   blurred area; see Findings.)
2. **Whitespace trim**: the background colour is the mean of the top-left
   block of at most 10 x 10 pixels. A top-down scan finds the first row
   whose mean deviation from it exceeds 12.75, and a bottom-up scan finds
   the last one. The image is cropped to the full-width band between
   them. When no row differs, the image is kept whole.
3. **Height normalisation**: the image is resampled to a height of 2160,
   and the width is scaled by the same factor and truncated.
4. **16:9 composition**: the leftmost and rightmost 1% strips are
   stretched to `(3840 - W) / 2` columns each and blurred with radius 50.
   They are painted to the left and right of the image on a black
   3840 x 2160 canvas.
5. **Output name**: the base name loses its extension and every
   `-10000px`, gains `-4k.jpg`, and goes into the `python` or `go`
   directory.

The model has eight modules:

- `Raster` (raster.dfy): pixels and images as values, and the mutable
  `Canvas` (an `array2` of pixels). It also holds Go's `drawImage`, proved
  equal to a pure paste.
- `Geometry` (geometry.dfy): the integer geometry both programs share, and the height-forcing step both use.
- `Scan` (scan.dfy): the two trim scans as functions on the per-row
  verdicts, with the window they promise.
- `Names` (names.dfy): pattern deletion and last-index search.
- `WidenPy` and `WidenGo` (widen_py.dfy, widen_go.dfy): each program's
  own operations.
- `Divergence` (divergence.dfy): inputs on which the two programs
  disagree.
- `Arith` (arith.dfy): small arithmetic facts used by the trim proofs.

The resampling and blur filters are not modelled internally. They are
function parameters. What is assumed about them is their output size,
and that resampling an image to the size it already has returns it
unchanged: `ResizesExactly` and `KeepsSize`.

Two behaviours of the code are worth stating outright:

- A uniform image keeps all its rows, because every row gets the same
  verdict and `Scan.ConstantRowsKeepAll` then gives the whole image (both
  `IdenticalRowsAreKept` lemmas). In Go no row of a uniform image differs
  from the background. In Python a uniform image whose colour is far
  from grey (its mean channel deviation from its own channel mean above
  12.75) has every row differing from the single channel mean
  (`WidenPy.ColouredMarginIsKept`), and one closer to grey has no row
  differing. Either way `top` is 0 and `bottom` is the height.
- Python's background is one mean over all three channels, and the row
  test compares every channel value with it. Go's background is one mean
  per channel. The model follows each program's own rule.

## Model

| member | source | states |
|---|---|---|
| Raster.Crop | widen_gracefully.py:31 | a crop has the requested size and pixel `(x, y)` of it is pixel `(x0 + x, y0 + y)` of the image |
| Raster.Canvas.New | widen_gracefully.go:271 | a new canvas is the requested size, every pixel the fill colour |
| Raster.Canvas.Clone | widen_gracefully.go:132 | a cloned canvas holds exactly the given image |
| Raster.Canvas.Set | widen_gracefully.go:135 | writes one pixel when it lies inside the canvas; every other pixel (and everything on an out-of-range write) is unchanged |
| Raster.DrawImage | widen_gracefully.go:286-295 | the pixel-by-pixel copy leaves the canvas equal to the clipped paste of `src` at the offset: covered pixels come from `src`, all others are unchanged |
| Raster.CropWhole | widen_gracefully.go:220-222 | cropping to the full extent is the identity, so returning the input is the same as the crop |
| Raster.At | widen_gracefully.go:135 | a point inside the image yields its pixel, a point outside it the zero colour |
| Raster.Pasted | widen_gracefully.py:117-119 | the pasted image keeps the destination's size; it is the reference `Raster.DrawImage` is proved equal to |
| Raster.AbsReal | widen_gracefully.go:306-311 | the result is non-negative and is `x` or `-x` |
| Raster.BlockSumWithin | widen_gracefully.go:148-157 | a channel sum over an `h` x `w` block lies between 0 and `h * w * 255`, so the 10 x 10 accumulators stay below 100 * 255 |
| Scan.FirstFrom | widen_gracefully.py:53-58 | the top-down scan yields the first differing row at or after its start, or 0 when there is none |
| Scan.LastBefore | widen_gracefully.py:61-66 | the bottom-up scan yields one past the last differing row, or the height when there is none |
| Scan.TrimWindow | widen_gracefully.py:53-66 | the trim window has top <= bottom <= height and no differing row outside it; it starts and ends on differing rows when any exists and is the whole image otherwise; it is non-empty for a non-empty image |
| Scan.TrimWindowUnique | widen_gracefully.go:164-215 | any window meeting those promises is the one the scans compute |
| Scan.ConstantRowsKeepAll | widen_gracefully.py:53-66 | when every row gets the same verdict, the trim keeps all rows |
| Scan.BandIsKept | widen_gracefully.py:53-66 | when exactly the rows of a band differ, the trim keeps exactly that band |
| Names.RemoveAll | widen_gracefully.py:131 | deleting every `-10000px` never makes the name longer |
| Names.RemoveAllAtLeftmost | widen_gracefully.go:48 | deletion keeps everything before the leftmost match, drops the match and continues after it |
| Names.RemoveAllWithoutMatch | widen_gracefully.py:131 | a name without the pattern is unchanged |
| Names.RemoveAllKeepsAbsent | widen_gracefully.py:131 | deletion adds no character: one absent from the name is absent from the result |
| Names.LastIndexOf | widen_gracefully.py:129 | the result is -1 or an index holding the character, with no occurrence after it |
| Geometry.WatermarkWidth | widen_gracefully.py:23 | the watermark width is 23% of the image width, truncated (100w <= 23W < 100(w+1)) |
| Geometry.WatermarkHeight | widen_gracefully.py:24 | the watermark height is 4% of the image height, truncated |
| Geometry.WatermarkRect | widen_gracefully.py:23-25 | the rectangle sits at x = 0, ends on the last row and lies inside the image |
| Geometry.WatermarkRowBelowItsHeight | widen_gracefully.go:119-121 | the rectangle's first row index is never smaller than its height |
| Geometry.WatermarkRegion | widen_gracefully.py:31 | the cut-out region has the rectangle's size, and its pixel `(x, y)` is pixel `(x, watermark_y + y)` of the image |
| Geometry.Watermarked | widen_gracefully.py:35 | pasting the blurred region back keeps the image's size |
| Geometry.WatermarkedChangesOnlyRect | widen_gracefully.py:35 | after the paste, the image keeps its size, row `y - watermark_y` of the blurred region fills row `y` of the rectangle, and every pixel outside the rectangle is unchanged |
| Geometry.NormalisedWidth | widen_gracefully.py:79 | the new width is the floor of `W * 2160 / H`, and at most 2160 for a portrait (W <= H) |
| Geometry.ResizeToHeight | widen_gracefully.py:75-83 | the resized image is 2160 rows high and its width is `W * 2160 / H` truncated |
| Geometry.HeightForced | widen_gracefully.py:112-113 | the image resampled to height 2160 keeps its width, and an image already 2160 rows high is passed through unchanged (Python's middle panel; the same step opens Go's `convertTo16x9` at widen_gracefully.go:252-255) |
| Geometry.EdgeWidth | widen_gracefully.py:89 | each edge strip is 1% of the width, truncated, and fits in the image |
| Geometry.BlurWidth | widen_gracefully.py:90 | each side panel is at least one column wide; two panels plus the image fill 3840 columns exactly when `3840 - W` is even, and 3839 otherwise |
| Geometry.PanelsTile | widen_gracefully.py:116-119 | pasting the three panels side by side onto a black canvas yields the 16:9 layout (left, image, right, and black beyond) |
| Geometry.Compose16x9 | widen_gracefully.go:271-280 | drawing the three panels onto a new black 3840 x 2160 canvas produces that layout |
| Geometry.OddResidualColumnIsBlack | widen_gracefully.py:90 | with an odd number of columns to fill, the last canvas column stays black in every row |
| Geometry.EvenLayoutCoversCanvas | widen_gracefully.go:246 | with an even number of columns to fill, the right panel reaches the last canvas column |
| WidenPy.RemoveWatermark | widen_gracefully.py:19-37 | the canvas is changed in place to the image with the blurred watermark region pasted over the rectangle |
| WidenPy.Background | widen_gracefully.py:47 | the background, a mean of 8-bit channel values, lies between 0 and 255 |
| WidenPy.RowDeviation | widen_gracefully.py:55 | the summed absolute deviation of a row is never negative |
| WidenPy.RowMean | widen_gracefully.py:55 | the mean absolute deviation of a row is never negative |
| WidenPy.RowDiffersIsMeanTest | widen_gracefully.py:55-56 | the multiplied-out row test holds exactly when the row's mean absolute deviation over its `3W` channel values exceeds 12.75 |
| WidenPy.TrimWhitespace | widen_gracefully.py:39-73 | the result is the full-width crop to the trim window of the row verdicts; the width is kept; a non-empty image stays non-empty |
| WidenPy.IdenticalRowsAreKept | widen_gracefully.py:53-66 | an image whose rows are all alike is not trimmed |
| WidenPy.UniformRowDiffers | widen_gracefully.py:55 | a row of one colour differs exactly when that colour's mean channel deviation from the background exceeds 12.75 |
| WidenPy.UniformBlockBackground | widen_gracefully.py:47 | a one-coloured top-left block gives the mean of that colour's three channels as the background |
| WidenPy.GreyMarginTrimmedToBand | widen_gracefully.py:39-73 | a band of rows on a grey margin, far enough from it, is trimmed to exactly the band |
| WidenPy.ColouredMarginIsKept | widen_gracefully.py:47 | a margin whose colour is far from grey is never trimmed, because its rows differ from the single channel mean |
| WidenPy.ConvertTo16x9 | widen_gracefully.py:85-121 | the result is the 16:9 layout of the blurred left strip, the image (resampled only when its height is not 2160) and the blurred right strip; the side panels are `(3840 - W) // 2` wide and the middle keeps its width |
| WidenPy.MiddleKeptAtTargetHeight | widen_gracefully.py:112-118 | an image already 2160 rows high appears unchanged from column `blur_width` on |
| WidenPy.LeftPanel | widen_gracefully.py:96-100 | the blurred left panel is `(3840 - W) // 2` columns wide and 2160 rows high |
| WidenPy.RightPanel | widen_gracefully.py:103-109 | the blurred right panel is `(3840 - W) // 2` columns wide and 2160 rows high |
| WidenPy.Basename | widen_gracefully.py:129 | the base name is the part of the path after its last `/`: a suffix of the path that holds no `/` and is preceded by a `/` unless it is the whole path |
| WidenPy.SplitExt | widen_gracefully.py:130 | root + extension is the name; the extension is empty or one `.` followed by no other `.`; a name made only of dots has no extension, and a name with a `.` somewhere after a non-dot character has one |
| WidenPy.OutputName | widen_gracefully.py:129-131 | the output name always ends in `-4k.jpg` |
| WidenPy.OutputNameWithoutMarker | widen_gracefully.py:131 | a stem without `-10000px` becomes stem + `-4k.jpg` |
| WidenPy.OutputNameHasNoSlash | widen_gracefully.py:129-131 | the output name never holds a `/` |
| WidenPy.OutputPath | widen_gracefully.py:132 | the output path starts with `python/` and holds no other `/`, so the file lands directly in the `python` directory |
| WidenPy.OutputPathOfPortrait | widen_gracefully.py:129-132 | `photos/portrait-10000px.jpg` is written to `python/portrait-4k.jpg` |
| WidenGo.RemoveWatermark | widen_gracefully.go:115-140 | the clone-and-set loops produce exactly the as-written write-back of the blurred region |
| WidenGo.WatermarkedAsWritten | widen_gracefully.go:132-137 | the as-written write-back keeps the image's size and leaves every pixel outside the rectangle unchanged |
| WidenGo.AsWrittenBlackensRect | widen_gracefully.go:135 | every pixel of the rectangle is black after the as-written loop, whatever the blur returned |
| WidenGo.AsWrittenDiffersOnWhiteImage | widen_gracefully.go:135 | on a white 100 x 100 image the as-written loop makes pixel (0, 96) black, while the intended paste leaves it white |
| WidenGo.RemoveWatermarkFixed | widen_gracefully.go:133-137 | with the read at `y - watermarkY`, the loops produce the row-by-row paste of the blurred region, as Python does |
| WidenGo.Background | widen_gracefully.go:148-161 | the accumulation loops compute the per-channel mean of the top-left block of at most 10 x 10 pixels |
| WidenGo.BackgroundOf | widen_gracefully.go:159-161 | each channel of the background lies between 0 and 255 |
| WidenGo.UniformBlockBackground | widen_gracefully.go:148-161 | a one-coloured top-left block gives exactly that colour as the background, channel by channel |
| WidenGo.SampleCount | widen_gracefully.go:172 | the columns 0, 10, 20, … below W number `ceil(W / 10)` |
| WidenGo.RowMean | widen_gracefully.go:167-183 | the sampling loop yields the mean sample difference over columns 0, 10, 20, …, and 0 for a row with no samples |
| WidenGo.SampledSum | widen_gracefully.go:172-179 | the accumulated sample differences are never negative |
| WidenGo.RowMeanOf | widen_gracefully.go:181-183 | the row mean is never negative, also for a row with no samples |
| WidenGo.UniformRowMean | widen_gracefully.go:172-183 | a non-empty row of one colour has that colour's sample difference as its mean |
| WidenGo.RowTestReadsOnlySamples | widen_gracefully.go:172 | two rows that agree on columns 0, 10, 20, … get the same verdict |
| WidenGo.TrimWhitespace | widen_gracefully.go:143-225 | the result is the full-width crop to the trim window; it is the input itself when the window is the whole image; the width is kept; a non-empty image stays non-empty |
| WidenGo.IdenticalRowsAreKept | widen_gracefully.go:220-222 | an image whose rows are all alike is given back unchanged |
| WidenGo.UniformMarginTrimmedToBand | widen_gracefully.go:143-225 | a band of rows on a margin of any one colour, far enough from it, is trimmed to exactly the band |
| WidenGo.LeftPanel | widen_gracefully.go:258-260 | the blurred left panel is `(3840 - W) / 2` columns wide and 2160 rows high |
| WidenGo.RightPanel | widen_gracefully.go:263-265 | the blurred right panel is `(3840 - W) / 2` columns wide and 2160 rows high |
| WidenGo.MiddlePanel | widen_gracefully.go:268 | the middle panel is W columns wide and 2160 rows high; the unconditional second resize changes nothing, so it is the height-forced image, and an image already 2160 rows high is used unchanged |
| WidenGo.ConvertTo16x9 | widen_gracefully.go:241-283 | the result is the 16:9 layout of the blurred strips cut from the height-forced image and the height-forced image resized again; the side panels are `(3840 - W) / 2` wide and the middle keeps its width |
| WidenGo.MiddleKeptAtTargetHeight | widen_gracefully.go:252-280 | an image already 2160 rows high appears unchanged from column `blurWidth` on |
| WidenGo.Abs | widen_gracefully.go:298-303 | on 64-bit integers the result is the non-negative one of `x` and `-x`, except that the most negative value is its own result |
| WidenGo.AbsIdempotent | widen_gracefully.go:298-303 | applying `abs` twice equals applying it once |
| WidenGo.TrimTrailingSlashes | widen_gracefully.go:43 | the result is a prefix of the path that does not end in `/`, and only slashes were removed |
| WidenGo.Base | widen_gracefully.go:43 | an empty path gives `.`; a path of slashes only gives `/`; otherwise the base name is the last element of the path with its trailing slashes removed: a suffix of it that holds no `/` and is preceded by a `/` unless it is all of it |
| WidenGo.Ext | widen_gracefully.go:44 | the extension is a suffix of the name: empty, or one `.` followed by neither `.` nor `/`; it is non-empty whenever a `.` follows the last `/` |
| WidenGo.TrimSuffix | widen_gracefully.go:45 | when the input ends in the suffix, the result is what precedes it (result + suffix is the input); otherwise the input is returned unchanged |
| WidenGo.Stem | widen_gracefully.go:43-45 | the stem followed by the extension is the base name |
| WidenGo.OutputName | widen_gracefully.go:43-48 | the output name always ends in `-4k.jpg` |
| WidenGo.OutputNameWithoutMarker | widen_gracefully.go:48 | a stem without `-10000px` becomes stem + `-4k.jpg` |
| WidenGo.OutputNameHasNoSlash | widen_gracefully.go:43-48 | unless the base name is `/`, the output name holds no `/` |
| WidenGo.OutputPath | widen_gracefully.go:49 | the output path starts with `go/`; unless the path is slashes only, no other `/` follows, so the file lands directly in the `go` directory |
| WidenGo.OutputPathOfPortrait | widen_gracefully.go:43-49 | `photos/portrait-10000px.jpg` is written to `go/portrait-4k.jpg` |
| Divergence.LeadingDotName | widen_gracefully.py:130 | for the file `.png`, Python writes `.png-4k.jpg` (the leading-dot name has no extension), while Go writes `-4k.jpg` (the whole name is the extension) |
| Divergence.RedBackdropTrimmedOnlyByGo | widen_gracefully.py:47 | a black band on a pure red backdrop is not trimmed by Python (one mean over all channels), while Go, with one mean per channel, trims it to exactly the band |

## Left out

- File and directory handling is not modelled: existence checks, `makedirs`/`MkdirAll`, decoding, the JPEG encoder with quality 98, the ICC profile, the command line, folder iteration and the console messages.
- Python re-raises after an error, and Go returns an error and the caller moves on to the next file. Neither is modelled.
- The `GOMAXPROCS` setting is not modelled.
- The Lanczos resampling and the Gaussian blur are not modelled internally. They are function parameters. Only their output sizes are known, and that a resample to the image's own size returns it unchanged.
- Floating-point rounding is not modelled. The ratios `* 0.23`, `* 0.04`, `* (2160 / H)` and `* 1 / 100` are exact integer quotients. The background and row means are exact reals. A float product that rounds across an integer boundary is not captured.
- NumPy's NaN mean for an empty block, and Go's division by a zero count, are replaced by 0. The block is empty only when the image has no rows or no columns. In that case no row is compared against the background: Python's test of an empty row is false (a NaN mean exceeds nothing), and Go's row mean with no samples is 0.
- Go reads pixels through `RGBA() >> 8`, which is the 8-bit channel for opaque images. Alpha and premultiplication are dropped, and so are Python images in other modes than RGB.
- Go's `uint32` accumulators are mathematical integers. Their sums stay below 100 * 255, so no overflow is lost.
- `drawImage` is modelled for images whose bounds start at the origin, which is what `imaging` returns. The same clipped copy stands for PIL's `paste`.
- WidenPy.ConvertTo16x9: requires a width below 3839. For wider images the side panels would be zero or negative columns wide, and the libraries' behaviour there is not modelled.
- WidenPy.ConvertTo16x9: assumes the resampler returns exactly the requested size (`ResizesExactly`). For an image less than 100 columns wide the edge strips are 0 columns wide, and what PIL does when asked to resample an empty strip is not modelled. The model instead paints two side panels of the requested size.
- WidenGo.ConvertTo16x9: requires a width below 3839, for the same reason.
- WidenGo.ConvertTo16x9: assumes the resampler returns exactly the requested size. For an image less than 100 columns wide the edge strips are 0 columns wide; `imaging.Crop` and `imaging.Resize` then return empty images, so nothing is drawn beside the image and both sides stay black. The model instead paints two blurred panels of the requested size.
- Geometry.ResizeToHeight: requires a positive height. Trimming keeps a non-empty image non-empty, so only an empty input file reaches it with height 0.
- Geometry.ResizeToHeight: assumes the resampler returns exactly the requested size. When `W * 2160 < H` the computed width is 0. What PIL does with a 0-column target is not modelled, and Go's `imaging.Resize`, given a 0 width, keeps the aspect ratio and returns an image at least 1 column wide. The model returns a 0-column image instead.
- The unused `trim_fuzz` (5) and `TrimFuzz` (13) settings are not modelled. Both trims use the literal 12.75.
- The chaining of the steps in `process_image` / `ProcessImage` (watermark, trim, resize, 16:9) is not modelled as one operation. Each step is modelled on its own.
- `os.path.join` and `filepath.Join` are not modelled in general. They are modelled only for the fixed directory plus a plain file name, which is simple concatenation with `/`.
- WidenGo.OutputPath: for a path made only of slashes the base name is `/`, and the model gives `go//-4k.jpg`, while `filepath.Join` cleans that to `go/-4k.jpg`. Its no-slash clause is stated only for a base name other than `/`.
- Names.RemoveAll: its own contract states only that the name never grows. What it deletes is stated by Names.RemoveAllAtLeftmost (the leftmost match is dropped, the rest scanned on) and Names.RemoveAllWithoutMatch (a name without the pattern is unchanged).
- `filepath.Base` and `os.path.basename` use `/` only. Windows separators are not modelled.

## Findings

| source | as written | input that shows it | evidently intended | confidence | as-written member | corrected member |
|---|---|---|---|---|---|---|
| widen_gracefully.go:135 | `result.Set(x, y, blurredWatermark.At(x, watermarkY))` reads the blurred region at row `watermarkY`. The region starts at the origin and is only `watermarkHeight <= watermarkY` rows high, so every read is out of range and returns the zero colour: the watermark rectangle is painted black instead of blurred | a white 100 x 100 image: pixel (0, 96) becomes black | read `blurredWatermark.At(x, y - watermarkY)`, pasting the blurred region row by row as the Python version does | high (proved about the model; not executed) | WidenGo.RemoveWatermark, WidenGo.AsWrittenBlackensRect, WidenGo.AsWrittenDiffersOnWhiteImage | WidenGo.RemoveWatermarkFixed |
