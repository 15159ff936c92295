# Gemini watermark removal, modelled in Dafny

This project models the core of `gemini-watermark-removal`, a Rust tool that
removes the semi-transparent Gemini logo that is alpha-blended into the
bottom-right corner of generated images. The core has three parts.

- **Blending** (`src/blending.rs`). It derives an alpha map from a reference
  capture of the logo on white (`calculate_alpha_map`). It then inverts the
  compositing equation `watermarked = alpha * logo + (1 - alpha) * original`
  in place over the watermark region clipped to the image
  (`remove_watermark_alpha_blend`). Pixels whose alpha is below 0.002 are
  skipped, alpha is capped at 0.99, and every channel is clamped to
  [0, 255] and truncated to `u8`.
- **Detection** (`src/detection.rs`). It scores how likely the logo is
  present at a given place, in three stages:
  - the normalised cross-correlation (NCC) of the region's brightness with
    the alpha map. A circuit breaker stops at this stage when the score is
    below `min(threshold, 0.25)`;
  - the NCC of the two Sobel gradient magnitudes;
  - a texture-dampening score against the band of rows just above the region.

  The ensemble `0.5·spatial + 0.3·gradient + 0.2·variance` is clamped to
  [0, 1]. It is "detected" at 0.35 or more.
- **Engine** (`src/engine.rs`). It picks the 48×48 variant (32-pixel margin)
  or the 96×96 variant (64-pixel margin). The large one is used when both
  dimensions exceed 1024, unless a size is forced. It places the logo in the
  corner and runs the detector and the blender there. `process_file` decides
  between skipping the image (too small, or no watermark found) and removing
  the watermark. The two path helpers are `is_supported_image` and
  `default_output_path`.

Modules follow the source: `Blending`, `Detection` and `Engine`. `Raster`
holds the decoded 8-bit RGB image (a class over an `array2` that the blender
rewrites in place). `Numerics` holds `min`/`max`/`clamp`/`saturating_sub`,
the clipping of the watermark span to the image, and row-major indexing.

Loops of the source are methods with invariants. Each is proved equal to a
specification function, and the properties are proved about those functions:

| source loop | method | specification |
|---|---|---|
| `calculate_alpha_map` | `Blending.AlphaMapFromCapture` | `Flatten(CaptureAlphaRows(capture))` |
| `remove_watermark_alpha_blend` | `Blending.RemoveWatermarkAlphaBlend` | `Blending.PixelAfterRemoval`, per pixel |
| `region_to_grayscale` | `Detection.RegionToGrayscale` | `Detection.GrayRegion` |
| `ncc` | `Detection.ComputeNcc` | `Detection.Ncc` |
| `sobel_magnitude` | `Detection.SobelMagnitude` | `Detection.Sobel` |
| `detect_watermark` | `Detection.DetectWatermark` | `Detection.DetectionOf` |
| `process_file` | `Engine.ProcessFile` | `Engine.Outcome` plus `Engine.PixelAfterRemove` |

f32 arithmetic is modelled on `real`. `f32::sqrt` is a parameter
`sqrt: real -> real`. Properties that depend on it being a square root
require `Numerics.IsSqrt(sqrt)`.

The keep-or-remove rule of `process_file` deserves a note (`Engine.SkipRule`).
Without `--force`, an image is kept only when it is not "detected" and its
confidence is below the caller's threshold. So the threshold that matters is
`min(threshold, 0.35)`: a threshold above 0.35 acts like 0.35. With the
default threshold 0.25, a confidence in [0.25, 0.35) is removed even though
the detector reports "not detected".

## Model

| member | source | states |
|---|---|---|
| Numerics.ClipEnd | src/detection.rs:175-176 | The clipped end of the watermark span is the smaller of `pos + extent` and the image bound. |
| Numerics.Clamp | src/detection.rs:240 | `f32::clamp` into [lo, hi]: identity inside, the nearer bound outside. |
| Numerics.SaturatingSub | src/engine.rs:133-134 | `saturating_sub`: the difference when it is non-negative, 0 otherwise. |
| Blending.CaptureAlpha | src/blending.rs:38-42 | A capture pixel's opacity lies in [0, 1], and 255 times it is the largest of the three channels. |
| Blending.AlphaMapFromCapture | src/blending.rs:28-46 | The map has `width * height` entries, and entry `y * width + x` is the opacity of pixel (x, y). The capture's dimensions are returned. |
| Blending.AlphaMapInRange | src/blending.rs:117-125 | Every entry of an alpha map lies in [0, 1]. |
| Blending.ToByte | src/blending.rs:104 | `clamp(0, 255) as u8` is the floor of the clamped value. |
| Blending.EffectiveAlpha | src/blending.rs:94-96 | Alpha past the threshold is capped at 0.99, so it lies in [0.002, 0.99] and the divisor `1 - alpha` is at least 0.01. |
| Blending.AlphaIndexInBounds | src/blending.rs:84-87 | The index `dy * wm_width + dx` of every pixel of the clipped region lies inside the alpha map. |
| Blending.PixelAfterRemoval | src/blending.rs:76-82 | Pixels outside the clipped watermark region are left as they were. |
| Blending.RemoveWatermarkAlphaBlend | src/blending.rs:64-109 | In place, every pixel becomes `PixelAfterRemoval` of its old value: unblended inside the clipped region where alpha reaches 0.002, unchanged everywhere else. |
| Blending.UnblendChannelBrackets | src/blending.rs:98-105 | One unblended channel: 0 when the reverse formula is negative, 255 when it exceeds 255, and otherwise the byte `r` with forward(r) ≤ watermarked < forward(r + 1), so re-blending `r` gives back the watermarked value up to truncation. |
| Blending.UnblendMonotone | src/blending.rs:98-105 | Unblending a channel is monotone: a brighter watermarked value never gives a darker result. |
| Blending.UnblendPixelKeepsOrder | src/blending.rs:94-106 | Unblending all three channels with the same capped alpha keeps a grey pixel grey and never reverses the order of two channels. |
| Blending.LowAlphaPixelUnchanged | src/blending.rs:89-92 | A pixel whose alpha is below 0.002 comes out bit-exact. |
| Blending.EmptyRegionChangesNothing | src/blending.rs:80-82 | When the clipped region is empty, no pixel changes. |
| Blending.ForwardBlendBetween | src/blending.rs:161-163 | The forward blend `alpha * logo + (1 - alpha) * original` lies between the original and the logo value. It is the original at alpha 0 and the logo value at alpha 1. |
| Blending.BlendIncreasing | src/blending.rs:96-101 | For alpha below 1, the forward blend is strictly increasing in the original, which is why the reverse formula is monotone. |
| Blending.ReverseInvertsForward | src/blending.rs:96-101 | Over the reals, the reverse formula and the forward blend are mutually inverse for every alpha below 1. |
| Blending.StoredRoundingError | src/blending.rs:161-167 | For alpha in [0, 0.5], storing the forward blend with white as `u8` loses less than 1. |
| Blending.ReverseOfStored | src/blending.rs:99-101 | For alpha in [0, 0.5], unblending that stored value lands in (original − 2, original]. |
| Blending.FloorWithinTwo | src/blending.rs:104 | Clamping and truncating such a value gives a byte in [original − 2, original]. |
| Blending.ChannelRoundTrip | src/blending.rs:136-198 | For alpha in [0.002, 0.5], a channel blended with white, stored and unblended comes back at most 2 below the original, never above. |
| Blending.PixelRoundTrip | src/blending.rs:184-197 | The same bound holds for all three channels of a pixel. |
| Blending.HighAlphaExceedsTolerance | src/blending.rs:183-191 | The tolerance of 2 needs small alphas: at alpha 0.9 a channel of 100 comes back as 95. |
| Detection.Luma | src/detection.rs:59-62 | The normalised luminance of a pixel lies in [0, 1]. |
| Detection.LumaOfGrey | src/detection.rs:60-62 | For a grey pixel, the luminance is its channel over 255 (the weights sum to 1). |
| Detection.RegionToGrayscale | src/detection.rs:55-66 | The row-major luminances of the region, one per pixel. |
| Detection.GrayRegionAt | src/detection.rs:57-63 | Entry `dy * w + dx` of the grayscale region is the luminance of pixel (x + dx, y + dy). |
| Detection.AlphaSubRegion | src/detection.rs:190-197 | The clipped alpha sub-region has `w * h` entries, and entry `dy * w + dx` is map entry `dy * wm_width + dx`. |
| Detection.FullSubRegionIsMap | src/detection.rs:188-189 | When nothing is clipped, the sub-region loop would give the map itself, so copying the map agrees with it. |
| Detection.AlphaForRegion | src/detection.rs:188-198 | The alpha values under the clipped region: the whole map when unclipped, the sub-region otherwise. |
| Detection.Correlation | src/detection.rs:94-99 | A denominator below 1e-10 yields 0. |
| Detection.ComputeNcc | src/detection.rs:71-100 | `ncc` equals `Ncc`: 0 for empty input, otherwise the centred cross sum over the square root of the product of the centred square sums. |
| Detection.DeviationSums | src/detection.rs:82-92 | The zip loop accumulates exactly the three centred sums. |
| Detection.CrossDevSnoc | src/detection.rs:86-92 | Each iteration adds one centred product to each sum. |
| Detection.MeanConstant | src/detection.rs:79-80 | The mean of a constant slice is that constant. |
| Detection.SquaredDevNonNegative | src/detection.rs:90-91 | A sum of centred squares is never negative. |
| Detection.CauchySchwarz | src/detection.rs:86-94 | The squared cross sum is at most the product of the two square sums, which are non-negative. |
| Detection.CorrelationBounded | src/detection.rs:94-99 | Given Cauchy–Schwarz, the final quotient lies in [−1, 1]. |
| Detection.NccBounded | src/detection.rs:68-100 | With a genuine square root, the NCC lies in [−1, 1]. |
| Detection.NccOfConstant | src/detection.rs:94-96 | If either input is constant, the NCC is 0 (the denominator guard). |
| Detection.NccSelf | src/detection.rs:250-258 | The NCC of a slice with itself is 1, or 0 when its spread is below the guard. |
| Detection.MeanComplement | src/detection.rs:262-263 | The mean of `k − a` is `k` minus the mean of `a`. |
| Detection.NccComplement | src/detection.rs:260-269 | The NCC of a slice with its complement `k − a` is −1, or 0 below the guard. |
| Detection.StdDev | src/detection.rs:132-141 | `stddev` of an empty slice is 0. Otherwise, with a genuine square root, it is the non-negative number whose square is the mean squared deviation from the mean. |
| Detection.StdDevNonNegative | src/detection.rs:132-141 | The standard deviation is never negative. |
| Detection.StdDevConstant | src/detection.rs:291-303 | The standard deviation of an empty or constant slice is 0. |
| Detection.StdDevOneToFive | src/detection.rs:305-315 | The standard deviation of [1, 2, 3, 4, 5] is √2. |
| Detection.SobelAt | src/detection.rs:105-108 | Border cells of the gradient image are 0. |
| Detection.SobelMagnitude | src/detection.rs:105-129 | The buffer-filling loop returns `Sobel`: the magnitude of the two 3×3 kernels at every interior cell, 0 on the border. |
| Detection.SobelCell | src/detection.rs:108-124 | Entry `y * w + x` of the gradient image is the gradient of cell (x, y), and 0 off the interior. |
| Detection.SobelNonNegative | src/detection.rs:124 | Gradient magnitudes are never negative. |
| Detection.KernelsOfConstant | src/detection.rs:116-122 | Both kernels sum to zero on flat data. |
| Detection.SobelOfConstant | src/detection.rs:343-350 | A flat image has zero gradient everywhere. |
| Detection.SobelVerticalEdge | src/detection.rs:352-366 | At the centre of the 10×10 vertical edge, the gradient is 4 (> 0.1). |
| Detection.RefHeight | src/detection.rs:223 | The reference band is no taller than the rows above the watermark or than the watermark. When it is non-empty, it also fits in the rows from the watermark to the bottom of the image. |
| Detection.Dampening | src/detection.rs:229-231 | The variance score lies in [0, 1]. It is 1 for a flat watermark area and 0 when that area is at least as textured as the reference. |
| Detection.VarianceStage | src/detection.rs:219-233 | Stage 3 always lies in [0, 1]. |
| Detection.Ensemble | src/detection.rs:235-241 | The stage scores are stored unchanged. The confidence is the weighted sum clamped to [0, 1], and "detected" holds exactly when the confidence reaches 0.35. |
| Detection.GradientStage | src/detection.rs:211-217 | Stage 2 is the NCC of the two Sobel images, floored at 0. |
| Detection.ReferenceVariance | src/detection.rs:219-233 | Stage 3 as computed is `VarianceStage`. |
| Detection.ScoreRegion | src/detection.rs:200-243 | Scoring a clipped region is `RegionScores`: stage 1, the circuit breaker, stages 2 and 3, the ensemble. |
| Detection.DetectWatermark | src/detection.rs:160-244 | `detect_watermark` equals `DetectionOf`. |
| Detection.DetectionOfRegion | src/detection.rs:174-198 | A region that survives clipping is scored on its luminances and on the alpha values under it. |
| Detection.EmptyRegionNotDetected | src/detection.rs:174-179 | A watermark placed off the image, or of zero size, gives the default all-zero result. |
| Detection.DetectionWellFormed | src/detection.rs:200-243 | On every path, "detected" holds exactly when the confidence reaches 0.35. The confidence lies in [0, 1], the spatial and gradient scores are non-negative, and the variance score lies in [0, 1]. |
| Detection.ScoresAtMostOne | src/detection.rs:200-217 | With a genuine square root, the spatial and gradient scores are at most 1. |
| Detection.CircuitBreakerStops | src/detection.rs:204-209 | Below `min(threshold, 0.25)`, the gradient and variance scores stay 0, the confidence is half the spatial score, and nothing is detected. |
| Detection.VarianceNeedsReference | src/detection.rs:222-232 | A non-zero variance score needs a reference band taller than 8 rows whose standard deviation exceeds 5/255. |
| Detection.UniformRegionNotDetected | src/detection.rs:317-341 | A watermark area of one colour is never detected: spatial and gradient scores are 0 and the confidence is at most 0.2. With a positive threshold, the confidence and the variance score are 0 as well. |
| Detection.UniformPictureConfidenceZero | tests/integration.rs:11-19 | A picture of one colour throughout is never detected and gets confidence 0 and variance score 0 at every threshold, 0 included, because the reference band is flat too. |
| Engine.NewEngine | src/engine.rs:86-100 | The engine caches the 48×48 and 96×96 alpha maps of the two captures and a logo value of 255. |
| Engine.WatermarkSizeFor | src/engine.rs:108-114 | Large exactly when both dimensions exceed 1024. |
| Engine.WatermarkSizeForExamples | src/engine.rs:391-405 | The tested cases: 800×600, 1024×1024, 2048×512 and 512×2048 are small; 1025×1025 and 2048×2048 are large. |
| Engine.ConfigFor | src/engine.rs:117-128 | Either (48, 32, small map) or (96, 64, large map). A forced size wins; otherwise large exactly when both dimensions exceed 1024. The map holds size² entries. |
| Engine.Position | src/engine.rs:132-136 | The logo's corner sits `size + margin` in from the right and bottom edges, or at 0 when the image is smaller. |
| Engine.ConfiguredRegionInside | src/engine.rs:132-136 | In an image that is not too small, the whole logo lies inside the image, so nothing is clipped. |
| Engine.AutomaticVariantFits | src/engine.rs:209-210 | Without a forced size, the large variant always fits, and the small one fits exactly when both dimensions are at least 80. |
| Engine.Detect | src/engine.rs:143-157 | The detector runs on the configured variant at its position, with the caller's threshold. |
| Engine.Remove | src/engine.rs:163-176 | The blender runs in place on the configured variant at its position, with logo value 255. |
| Engine.ProcessFile | src/engine.rs:182-260 | Unloadable: failure. Otherwise the result is `Outcome` of the detection on the loaded pixels. The pixels are unchanged when skipped, and unblended otherwise. |
| Engine.TooSmallIsSkipped | src/engine.rs:209-215 | A too-small image is skipped successfully, with confidence 0. |
| Engine.ForceAlwaysRemoves | src/engine.rs:217-257 | With `force`, the detector plays no part: an image that is not too small is never skipped, reports confidence 0, and succeeds exactly when saving does. |
| Engine.SuccessMeansSkippedOrSaved | src/engine.rs:188-257 | Success means skipped or saved. |
| Engine.SkipRule | src/engine.rs:218-234 | Without `force`, an image that is not too small is skipped exactly when its confidence is below `min(threshold, 0.35)`, and it reports that confidence. |
| Engine.DefaultOptionsSkipRule | src/engine.rs:36-46 | With the default options, an image that is not too small is skipped exactly when its confidence is below 0.25. |
| Engine.UniformImageIsSkipped | src/engine.rs:218-234 | With a genuine square root and a positive threshold, an image of one colour is skipped without `force`. |
| Engine.FileNameShape | src/engine.rs:381-384 | The file name, split at the last '/' as `Path::file_name` does on a normalised path, is a non-empty, '/'-free tail of the path other than "..". In this split, a path without '/' is its own file name, and a path ending in '/' has none. |
| Engine.ParentShape | src/engine.rs:384 | The parent, split at the last '/' as `Path::parent` does on a normalised path, is absent exactly for "" and "/". Otherwise it is a strictly shorter prefix of the path, and "" for a bare file name. |
| Engine.ExtensionShape | src/engine.rs:338-346 | `Path::extension` holds no '.', and the name ends in '.' followed by it, with at least one character before that '.'. A name without '.' has none. |
| Engine.StemShape | src/engine.rs:381 | `Path::file_stem` is a prefix of the name. It is the whole name when there is no extension, and non-empty when there is one. |
| Engine.JoinShape | src/engine.rs:385 | Joining a relative file, as `default_output_path` always does, starts with the base, ends with the file, and adds at most one '/'. Joining onto "" gives the file. |
| Engine.SupportedLengths | src/engine.rs:341-344 | Every supported extension has 3 or 4 letters. |
| Engine.IsSupportedImage | src/engine.rs:338-346 | A supported path has a file name with an extension, and that extension has 3 or 4 characters. |
| Engine.DefaultOutputPathShape | src/engine.rs:380-385 | The output path ends in `<stem>_cleaned.<ext>` built from the file name (`<name>_cleaned.` without an extension, `_cleaned.` without a file name). It starts with "./" when the path has no parent. |
| Engine.Lower | src/engine.rs:341 | ASCII lower-casing keeps the length, leaves no upper-case letter, keeps every other character, and turns each upper-case letter into its lower-case counterpart. |
| Engine.LowerIdempotent | src/engine.rs:341 | Lower-casing an already lower-cased extension changes nothing. |
| Engine.StemDotExtension | src/engine.rs:381-382 | A file name with an extension is its stem, a '.', and the extension. |
| Engine.NameParts | src/engine.rs:381-382 | `stem.ext`, with a non-empty stem and an extension without '.', has exactly that stem and that extension, even when the stem holds dots. |
| Engine.PathParts | src/engine.rs:383-384 | Below a directory prefix, a name is the file name, and joining the parent with another file puts that file in the same directory. |
| Engine.SupportedByExtension | src/engine.rs:338-346 | `dir/stem.ext` is a supported image exactly when `ext`, lower-cased, is jpg, jpeg, png, webp or bmp; the stem may hold dots. |
| Engine.CleanedOutputPath | src/engine.rs:380-385 | The default output of `dir/stem.ext` is `dir/stem_cleaned.ext`, splitting at the last '.'. |
| Engine.OutputPathStaysSupported | src/engine.rs:380-385 | The default output path of `dir/stem.ext` is a supported image exactly when that file is. |
| Engine.AcceptsCommonFormats | src/engine.rs:419-426 | photo.jpg, photo.JPEG, photo.png, photo.webp and photo.bmp are accepted. |
| Engine.RejectsUnsupportedFormats | src/engine.rs:428-433 | photo.gif, photo.txt and photo are rejected. |
| Engine.DefaultOutputPathExamples | src/engine.rs:407-417 | /tmp/photo.jpg becomes /tmp/photo_cleaned.jpg, and image.png becomes image_cleaned.png. |
| Engine.DottedStemExample | src/engine.rs:338-346 | shots/IMG.final.JPG is a supported image, and its output path is shots/IMG.final_cleaned.JPG. |

## Left out

- Decoding PNG, JPEG and the other formats (`image::open`, `load_from_memory`) is not modelled, nor are the embedded alpha-map PNG bytes of `alpha_maps`. `NewEngine` takes the decoded captures. `ProcessFile` takes the decoded image, or `null` when loading failed.
- Creating the output directory and writing the file (`create_dir_all`, `save_image` with its per-format encoders and JPEG quality 100) are I/O. Their outcome is the `SaveStatus` parameter of `ProcessFile`.
- `process_directory` is not modelled: directory listing and the parallel `rayon` iteration are I/O and concurrency. The pieces it applies per file are modelled: `is_supported_image`, `file_name` and `join`.
- The command-line binary, `lib.rs`, `error.rs` and the example program are outside the core.
- Message texts are not modelled: the `format!` strings with their percentages and two-decimal scores. `Message` records which message is produced and the numbers it shows.
- The `verbose` and `quiet` options are carried but do nothing in the core, as in the source.
- f32 rounding, NaN and infinities are not modelled: arithmetic is on `real`. `f32::sqrt` is a parameter, and lemmas that need its meaning require `IsSqrt`.
- Detection.ScoresAtMostOne, Detection.NccBounded, Detection.StdDevNonNegative, Detection.SobelNonNegative and Engine.UniformImageIsSkipped: these hold only under `IsSqrt(sqrt)`, since no real square root is defined in the model.
- Detection.StdDevOneToFive: states the result as `sqrt(2)` for the given `sqrt`, rather than as a number within 1e-5 of √2.
- `u32` overflow of `pos + wm_size` is not modelled. It cannot happen on the engine's paths, because the position is at most the image size.
- Detection.SobelMagnitude: requires a non-empty grid (`1 <= h`, and `1 <= w` once there are interior rows). Otherwise the source's `height - 1` or `width - 1` underflows `usize`. That panics in debug builds. In release builds it wraps, and the loop then indexes the empty `data` and panics, except for height 0 with width 1 or 2, where the inner loop is empty and an empty vector comes back. `detect_watermark` never passes such a grid.
- Blending.ChannelRoundTrip and Blending.PixelRoundTrip: proved for alpha in [0.002, 0.5], the range the source's round-trip test uses. For larger alphas the tolerance of 2 does not hold (Blending.HighAlphaExceedsTolerance).
- Engine.SupportedByExtension, Engine.CleanedOutputPath, Engine.PathParts and Engine.OutputPathStaysSupported: stated for paths whose directory part is empty or ends in a single '/'. The file name is any `stem.ext` other than "..": the stem is non-empty and may hold dots, and the extension is what follows the last '.'. `Path`'s normalisation of repeated separators, trailing '/' and '.' components is not modelled.
- Engine.FileNameShape, Engine.ParentShape, Engine.JoinShape and Engine.DefaultOutputPathShape: describe the model's plain split at the last '/', which agrees with `Path` only on normalised paths (no repeated or trailing '/', no '.' components) and relative joined files. Rust differs elsewhere: the file name of "a/b/" is "b" (the model: none), "." has no file name (the model: "."), "//" and "/." have no parent (the model: "/"), and joining an absolute file replaces the base (the model appends it). The output file joined at src/engine.rs:385 is always relative.
- Engine.Lower: lower-cases ASCII only. Rust's `to_lowercase` also maps other letters, but no non-ASCII letter lower-cases to one of the letters of jpg, jpeg, png, webp and bmp. So the accept/reject decision is the same.
