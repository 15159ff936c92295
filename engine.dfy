/** The engine of `src/engine.rs`: which watermark variant an image gets
    and where it sits, the detector and the blender run at that place, the
    keep-or-remove decision of `process_file`, and the two path helpers.
    Loading and saving files are not modelled: the decoded image (or its
    absence) and the outcome of saving are parameters. */
module Engine {
  import opened Numerics
  import opened Raster
  import Blending
  import Detection

  datatype Option<T> = None | Some(value: T)

  // ---------------------------------------------------------------------------
  // Variants, options and the engine
  // ---------------------------------------------------------------------------

  /** Both dimensions must exceed this for the large variant. */
  const LargeImageThreshold: nat := 1024

  /** Small: 48 by 48 at a 32-pixel margin. Large: 96 by 96 at a 64-pixel margin. */
  datatype WatermarkSize = Small | Large

  datatype ProcessOptions = ProcessOptions(
    force: bool,
    threshold: real,
    forceSize: Option<WatermarkSize>,
    verbose: bool,
    quiet: bool)

  /** `ProcessOptions::default()` */
  const DefaultOptions := ProcessOptions(false, 0.25, None, false, false)

  /** The cached alpha maps of both variants and the brightness of the logo. */
  datatype WatermarkEngine = WatermarkEngine(alphaMapSmall: seq<real>, alphaMapLarge: seq<real>, logoValue: real)
  {
    /** What `WatermarkEngine::new` establishes. */
    ghost predicate Valid()
    {
      |alphaMapSmall| == 48 * 48 && |alphaMapLarge| == 96 * 96 && logoValue == 255.0
    }
  }

  /** `WatermarkEngine::new`, given the two decoded reference captures. The
      source panics unless they are 48 by 48 and 96 by 96; here that is the
      precondition. */
  method NewEngine(smallCapture: Image, largeCapture: Image) returns (engine: WatermarkEngine)
    requires smallCapture.Valid() && smallCapture.width == 48 && smallCapture.height == 48
    requires largeCapture.Valid() && largeCapture.width == 96 && largeCapture.height == 96
    ensures engine.Valid()
    ensures engine.alphaMapSmall == Flatten(Blending.CaptureAlphaRows(smallCapture))
    ensures engine.alphaMapLarge == Flatten(Blending.CaptureAlphaRows(largeCapture))
  {
    var alphaSmall, w48, h48 := Blending.AlphaMapFromCapture(smallCapture);
    var alphaLarge, w96, h96 := Blending.AlphaMapFromCapture(largeCapture);
    engine := WatermarkEngine(alphaSmall, alphaLarge, 255.0);
  }

  /** `watermark_size_for`: Large exactly when both dimensions exceed 1024. */
  function WatermarkSizeFor(width: nat, height: nat): (size: WatermarkSize)
    ensures size == Large <==> width > LargeImageThreshold && height > LargeImageThreshold
  {
    if width > LargeImageThreshold && height > LargeImageThreshold then Large else Small
  }

  /** Side length, margin and alpha map of the variant in use. */
  datatype Config = Config(wmSize: nat, margin: nat, alphaMap: seq<real>)

  /** `config`: a forced size wins over the size heuristic. */
  function ConfigFor(engine: WatermarkEngine, width: nat, height: nat, forceSize: Option<WatermarkSize>): (c: Config)
    ensures (c.wmSize == 48 && c.margin == 32 && c.alphaMap == engine.alphaMapSmall) ||
            (c.wmSize == 96 && c.margin == 64 && c.alphaMap == engine.alphaMapLarge)
    ensures forceSize == Some(Small) ==> c.wmSize == 48
    ensures forceSize == Some(Large) ==> c.wmSize == 96
    ensures forceSize == None ==> (c.wmSize == 96 <==> width > LargeImageThreshold && height > LargeImageThreshold)
    ensures engine.Valid() ==> |c.alphaMap| == c.wmSize * c.wmSize
  {
    var size := match forceSize case Some(s) => s case None => WatermarkSizeFor(width, height);
    match size
    case Small => Config(48, 32, engine.alphaMapSmall)
    case Large => Config(96, 64, engine.alphaMapLarge)
  }

  /** `position`: the top-left corner of the watermark, `size + margin`
      pixels in from the right and bottom edges, or 0 when the image is
      narrower (shorter) than that. */
  function Position(imgW: nat, imgH: nat, wmSize: nat, margin: nat): (pos: (nat, nat))
    ensures imgW >= wmSize + margin ==> pos.0 + wmSize + margin == imgW
    ensures imgW < wmSize + margin ==> pos.0 == 0
    ensures imgH >= wmSize + margin ==> pos.1 + wmSize + margin == imgH
    ensures imgH < wmSize + margin ==> pos.1 == 0
  {
    (SaturatingSub(imgW, wmSize + margin), SaturatingSub(imgH, wmSize + margin))
  }

  // ---------------------------------------------------------------------------
  // Detection and removal at the configured place
  // ---------------------------------------------------------------------------

  /** `detect`: the detector run on the configured variant at its position. */
  method Detect(engine: WatermarkEngine, image: Image, opts: ProcessOptions, sqrt: real -> real)
    returns (detection: Detection.DetectionResult)
    requires engine.Valid() && image.Valid()
    ensures var c := ConfigFor(engine, image.width, image.height, opts.forceSize);
            var pos := Position(image.width, image.height, c.wmSize, c.margin);
            detection == Detection.DetectionOf(image.Snapshot(), c.alphaMap, c.wmSize, c.wmSize,
                                               pos.0, pos.1, opts.threshold, sqrt)
  {
    var c := ConfigFor(engine, image.width, image.height, opts.forceSize);
    var pos := Position(image.width, image.height, c.wmSize, c.margin);
    detection := Detection.DetectWatermark(image, c.alphaMap, c.wmSize, c.wmSize, pos.0, pos.1, opts.threshold, sqrt);
  }

  /** What `remove` leaves at (x, y), given the pixel that was there. */
  function PixelAfterRemove(engine: WatermarkEngine, forceSize: Option<WatermarkSize>, imgW: nat, imgH: nat,
                            before: Rgb, x: nat, y: nat): Rgb
    requires engine.Valid()
  {
    var c := ConfigFor(engine, imgW, imgH, forceSize);
    var pos := Position(imgW, imgH, c.wmSize, c.margin);
    Blending.PixelAfterRemoval(before, x, y, c.alphaMap, c.wmSize, c.wmSize, pos.0, pos.1, imgW, imgH, engine.logoValue)
  }

  /** `remove`: reverse blending, in place, of the configured variant at its position. */
  method Remove(engine: WatermarkEngine, image: Image, forceSize: Option<WatermarkSize>)
    requires engine.Valid() && image.Valid()
    modifies image.pixels
    ensures forall y: nat, x: nat | y < image.height && x < image.width ::
              image.pixels[y, x] == PixelAfterRemove(engine, forceSize, image.width, image.height, old(image.pixels[y, x]), x, y)
  {
    var c := ConfigFor(engine, image.width, image.height, forceSize);
    var pos := Position(image.width, image.height, c.wmSize, c.margin);
    Blending.RemoveWatermarkAlphaBlend(image, c.alphaMap, c.wmSize, c.wmSize, pos.0, pos.1, engine.logoValue);
  }

  // ---------------------------------------------------------------------------
  // process_file
  // ---------------------------------------------------------------------------

  /** How writing the output went (directory creation, then encoding). */
  datatype SaveStatus = Saved | CreateDirFailed | WriteFailed

  /** The status message, one case per message `process_file` formats. */
  datatype Message =
    | NoMessage
    | LoadFailed
    | TooSmall(width: nat, height: nat, wmSize: nat)
    | NoWatermark(confidence: real, spatial: real, gradient: real, variance: real)
    | OutputDirFailed
    | SaveFailed
    | WatermarkRemoved

  datatype ProcessResult = ProcessResult(path: string, success: bool, skipped: bool, confidence: real, message: Message)

  /** The image cannot hold the watermark and its margin. */
  predicate TooSmallFor(width: nat, height: nat, c: Config)
  {
    width < c.wmSize + c.margin || height < c.wmSize + c.margin
  }

  /** What `process_file` reports for a decoded image of `width` by `height`
      pixels, where `detection` is what the detector reports for it (only
      consulted without `force`) and `save` is how writing the output went. */
  function Outcome(path: string, width: nat, height: nat, c: Config, opts: ProcessOptions,
                   detection: Detection.DetectionResult, save: SaveStatus): ProcessResult
  {
    if TooSmallFor(width, height, c) then
      ProcessResult(path, true, true, 0.0, TooSmall(width, height, c.wmSize))
    else
      var confidence := if opts.force then 0.0 else detection.confidence;
      if !opts.force && !detection.detected && detection.confidence < opts.threshold then
        ProcessResult(path, true, true, confidence,
                      NoWatermark(detection.confidence, detection.spatialScore, detection.gradientScore, detection.varianceScore))
      else
        match save
        case Saved => ProcessResult(path, true, false, confidence, WatermarkRemoved)
        case CreateDirFailed => ProcessResult(path, false, false, confidence, OutputDirFailed)
        case WriteFailed => ProcessResult(path, false, false, confidence, SaveFailed)
  }

  /** `process_file` on an image that was decoded (`image != null`) or could
      not be (`image == null`): skip it when too small, otherwise detect
      (unless forced) and skip it when nothing was found, otherwise remove the
      watermark in place and report how saving went. */
  method ProcessFile(engine: WatermarkEngine, input: string, image: Image?, opts: ProcessOptions,
                     save: SaveStatus, sqrt: real -> real)
    returns (result: ProcessResult)
    requires engine.Valid() && (image != null ==> image.Valid())
    modifies if image != null then {image.pixels} else {}
    ensures image == null ==> result == ProcessResult(input, false, false, 0.0, LoadFailed)
    ensures image != null ==>
              var c := ConfigFor(engine, image.width, image.height, opts.forceSize);
              var pos := Position(image.width, image.height, c.wmSize, c.margin);
              var detection := Detection.DetectionOf(old(image.Snapshot()), c.alphaMap, c.wmSize, c.wmSize,
                                                     pos.0, pos.1, opts.threshold, sqrt);
              result == Outcome(input, image.width, image.height, c, opts, detection, save)
    ensures image != null ==>
              forall y: nat, x: nat | y < image.height && x < image.width ::
                image.pixels[y, x] == if result.skipped then old(image.pixels[y, x])
                                      else PixelAfterRemove(engine, opts.forceSize, image.width, image.height,
                                                            old(image.pixels[y, x]), x, y)
  {
    result := ProcessResult(input, false, false, 0.0, NoMessage);
    if image == null {
      result := result.(message := LoadFailed);
      return;
    }
    var w, h := image.width, image.height;
    var c := ConfigFor(engine, w, h, opts.forceSize);
    if w < c.wmSize + c.margin || h < c.wmSize + c.margin {
      result := result.(skipped := true, success := true, message := TooSmall(w, h, c.wmSize));
      return;
    }
    if !opts.force {
      var detection := Detect(engine, image, opts, sqrt);
      result := result.(confidence := detection.confidence);
      if !detection.detected && detection.confidence < opts.threshold {
        result := result.(skipped := true, success := true,
                          message := NoWatermark(detection.confidence, detection.spatialScore,
                                                 detection.gradientScore, detection.varianceScore));
        return;
      }
    }
    Remove(engine, image, opts.forceSize);
    match save
    case CreateDirFailed =>
      result := result.(message := OutputDirFailed);
    case WriteFailed =>
      result := result.(message := SaveFailed);
    case Saved =>
      result := result.(success := true, message := WatermarkRemoved);
  }

  // ---------------------------------------------------------------------------
  // Path helpers
  // ---------------------------------------------------------------------------

  /** Position of the last `c` in `s`, if any. */
  function LastIndexOf(s: string, c: char): (r: Option<nat>)
    ensures r.Some? ==> r.value < |s| && s[r.value] == c && forall j | r.value < j < |s| :: s[j] != c
    ensures r.None? ==> forall j | 0 <= j < |s| :: s[j] != c
  {
    if |s| == 0 then None
    else if s[|s| - 1] == c then Some(|s| - 1)
    else LastIndexOf(s[..|s| - 1], c)
  }

  /** `Path::file_name` on a normalised path (no trailing '/', no '.'
      components): what follows the last '/', absent when that is empty or
      "..". Rust also skips a trailing '/' and '.' components; this split
      does not. */
  function FileName(path: string): Option<string>
  {
    var start := match LastIndexOf(path, '/') case Some(i) => i + 1 case None => 0;
    var name := path[start..];
    if name == "" || name == ".." then None else Some(name)
  }

  /** `Path::parent` on a normalised path (no repeated or trailing '/', no
      '.' components): everything before the last '/' ("/" when that is the
      root, "" for a bare file name); absent for "" and "/". */
  function Parent(path: string): Option<string>
  {
    if path == "" || path == "/" then None
    else
      match LastIndexOf(path, '/')
      case None => Some("")
      case Some(i) => Some(if i == 0 then "/" else path[..i])
  }

  /** `Path::extension` of a file name: what follows its last '.', absent
      when there is no '.' after the first character. */
  function Extension(name: string): Option<string>
  {
    match LastIndexOf(name, '.')
    case Some(i) => if i == 0 then None else Some(name[i + 1..])
    case None => None
  }

  /** `Path::file_stem` of a file name: what precedes its extension's '.'. */
  function Stem(name: string): string
  {
    match LastIndexOf(name, '.')
    case Some(i) => if i == 0 then name else name[..i]
    case None => name
  }

  /** A file name with an extension is its stem, a '.', and its extension. */
  lemma StemDotExtension(name: string)
    requires Extension(name).Some?
    ensures Stem(name) + "." + Extension(name).value == name
  {
    var i := LastIndexOf(name, '.').value;
    assert name == name[..i] + [name[i]] + name[i + 1..];
  }

  /** `PathBuf::join` of a relative file name. Rust replaces the base when
      the file is absolute; this model always appends. */
  function Join(base: string, file: string): string
  {
    if base == "" then file
    else if base[|base| - 1] == '/' then base + file
    else base + "/" + file
  }

  /** `s` ends with `suffix`. */
  predicate EndsWith(s: string, suffix: string)
  {
    |suffix| <= |s| && s[|s| - |suffix|..] == suffix
  }

  /** The '/'-split file name is a non-empty, '/'-free tail of the path
      other than ".."; a path without '/' is its own file name, and a path
      ending in '/' has none. */
  lemma FileNameShape(path: string)
    ensures var r := FileName(path);
            (r.Some? ==> r.value != "" && r.value != ".." && '/' !in r.value && EndsWith(path, r.value)) &&
            ('/' !in path && path != "" && path != ".." ==> r == Some(path)) &&
            (path != "" && path[|path| - 1] == '/' ==> r.None?)
  {
    if '/' !in path {
      assert LastIndexOf(path, '/') == None;
      assert path[0..] == path;
    }
  }

  /** In the '/'-split model only "" and "/" have no parent; a parent is a
      proper prefix of the path, and a bare file name has the empty parent. */
  lemma ParentShape(path: string)
    ensures var r := Parent(path);
            (r.None? <==> path == "" || path == "/") &&
            (r.Some? ==> r.value <= path && |r.value| < |path|) &&
            ('/' !in path && path != "" ==> r == Some(""))
  {
    if '/' !in path {
      assert LastIndexOf(path, '/') == None;
    }
  }

  /** An extension holds no '.', and the name ends with '.' and the
      extension after a non-empty stem; a name without '.' has none. */
  lemma ExtensionShape(name: string)
    ensures var r := Extension(name);
            (r.Some? ==> '.' !in r.value && EndsWith(name, "." + r.value) && |r.value| + 1 < |name|) &&
            ('.' !in name ==> r.None?)
  {
    match LastIndexOf(name, '.')
    case Some(i) =>
      if i != 0 {
        var e := name[i + 1..];
        assert '.' !in e by {
          forall j | 0 <= j < |e| ensures e[j] != '.' {
            assert e[j] == name[i + 1 + j];
          }
        }
        assert name[|name| - |"." + e|..] == "." + e;
      }
    case None =>
  }

  /** The stem is a prefix of the name: all of it when there is no
      extension, and never empty when there is one. */
  lemma StemShape(name: string)
    ensures Stem(name) <= name
    ensures Extension(name).None? ==> Stem(name) == name
    ensures Extension(name).Some? ==> Stem(name) != ""
  {
  }

  /** Joining gives the base, at most one '/', then the file. */
  lemma JoinShape(base: string, file: string)
    ensures var r := Join(base, file);
            base <= r && EndsWith(r, file) && |r| <= |base| + 1 + |file| &&
            (base == "" ==> r == file)
  {
    var r := Join(base, file);
    assert r[|r| - |file|..] == file;
  }

  /** ASCII lower case. */
  function LowerChar(c: char): char
  {
    if 'A' <= c <= 'Z' then (c as int + 32) as char else c
  }

  /** `to_lowercase` on ASCII: no upper-case letter is left, every other
      character stays, and each upper-case letter becomes its lower-case
      counterpart. */
  function Lower(s: string): (t: string)
    ensures |t| == |s|
    ensures forall i | 0 <= i < |t| :: !('A' <= t[i] <= 'Z')
    ensures forall i | 0 <= i < |s| && !('A' <= s[i] <= 'Z') :: t[i] == s[i]
    ensures forall i | 0 <= i < |s| && 'A' <= s[i] <= 'Z' ::
              'a' <= t[i] <= 'z' && t[i] as int - 'a' as int == s[i] as int - 'A' as int
  {
    seq(|s|, i requires 0 <= i < |s| => LowerChar(s[i]))
  }

  /** Lower-casing twice is lower-casing once. */
  lemma LowerIdempotent(s: string)
    ensures Lower(Lower(s)) == Lower(s)
  {
  }

  const SupportedExtensions: set<string> := {"jpg", "jpeg", "png", "webp", "bmp"}

  /** Every listed extension has three or four letters. */
  lemma SupportedLengths()
    ensures forall e | e in SupportedExtensions :: 3 <= |e| <= 4
  {
    assert |"jpg"| == 3 && |"jpeg"| == 4 && |"png"| == 3 && |"webp"| == 4 && |"bmp"| == 3;
  }

  /** `is_supported_image`: the file name has an extension that, in lower
      case, is one of jpg, jpeg, png, webp and bmp. */
  function IsSupportedImage(path: string): (b: bool)
    ensures b ==> FileName(path).Some? && Extension(FileName(path).value).Some?
    ensures b ==> 3 <= |Extension(FileName(path).value).value| <= 4
  {
    SupportedLengths();
    match FileName(path)
    case None => false
    case Some(name) =>
      match Extension(name)
      case None => false
      case Some(ext) => Lower(ext) in SupportedExtensions
  }

  /** `default_output_path`: `<parent>/<stem>_cleaned.<ext>`, with "." as the
      parent when the path has none and empty stem or extension when absent.
      `DefaultOutputPathShape` states what the result looks like. */
  function DefaultOutputPath(path: string): string
  {
    var name := FileName(path);
    var stem := match name case Some(n) => Stem(n) case None => "";
    var ext := match name case Some(n) => (match Extension(n) case Some(e) => e case None => "") case None => "";
    var parent := match Parent(path) case Some(p) => p case None => ".";
    Join(parent, stem + "_cleaned." + ext)
  }

  /** The default output path ends in `<stem>_cleaned.<ext>` built from the
      file name (`<name>_cleaned.` without an extension, `_cleaned.` without a
      file name), and starts with "./" when the path has no parent. */
  lemma DefaultOutputPathShape(path: string)
    ensures var out := DefaultOutputPath(path);
            (FileName(path).None? ==> EndsWith(out, "_cleaned.")) &&
            (FileName(path).Some? && Extension(FileName(path).value).Some? ==>
               EndsWith(out, Stem(FileName(path).value) + "_cleaned." + Extension(FileName(path).value).value)) &&
            (FileName(path).Some? && Extension(FileName(path).value).None? ==>
               EndsWith(out, FileName(path).value + "_cleaned.")) &&
            (Parent(path).None? ==> "./" <= out)
  {
    var parent := match Parent(path) case Some(p) => p case None => ".";
    var out := DefaultOutputPath(path);
    match FileName(path)
    case None =>
      assert out == Join(parent, "_cleaned.");
      JoinShape(parent, "_cleaned.");
    case Some(n) =>
      match Extension(n)
      case Some(e) =>
        assert out == Join(parent, Stem(n) + "_cleaned." + e);
        JoinShape(parent, Stem(n) + "_cleaned." + e);
      case None =>
        StemShape(n);
        assert out == Join(parent, n + "_cleaned.");
        JoinShape(parent, n + "_cleaned.");
  }

  // ---------------------------------------------------------------------------
  // Properties of variant selection and of the keep-or-remove decision
  // ---------------------------------------------------------------------------

  /** The cases of `watermark_size_for` the source's tests pin down. */
  lemma WatermarkSizeForExamples()
    ensures WatermarkSizeFor(800, 600) == Small && WatermarkSizeFor(1024, 1024) == Small
    ensures WatermarkSizeFor(2048, 512) == Small && WatermarkSizeFor(512, 2048) == Small
    ensures WatermarkSizeFor(1025, 1025) == Large && WatermarkSizeFor(2048, 2048) == Large
  {
  }

  /** An image large enough for the configured watermark and its margin holds
      the whole watermark: detection and removal see it unclipped. */
  lemma ConfiguredRegionInside(engine: WatermarkEngine, width: nat, height: nat, forceSize: Option<WatermarkSize>)
    requires !TooSmallFor(width, height, ConfigFor(engine, width, height, forceSize))
    ensures var c := ConfigFor(engine, width, height, forceSize);
            var pos := Position(width, height, c.wmSize, c.margin);
            ClipEnd(pos.0, c.wmSize, width) == pos.0 + c.wmSize &&
            ClipEnd(pos.1, c.wmSize, height) == pos.1 + c.wmSize &&
            pos.0 + c.wmSize < width && pos.1 + c.wmSize < height
  {
  }

  /** Without a forced size, an image that gets the large variant is never
      too small for it, and an image of at least 80 by 80 pixels never is. */
  lemma AutomaticVariantFits(engine: WatermarkEngine, width: nat, height: nat)
    ensures var c := ConfigFor(engine, width, height, None);
            (c.wmSize == 96 || (width >= 80 && height >= 80)) <==> !TooSmallFor(width, height, c)
  {
  }

  /** A too-small image is skipped, successfully, with confidence 0 and
      whatever the detector or saving would have done. */
  lemma TooSmallIsSkipped(path: string, width: nat, height: nat, c: Config, opts: ProcessOptions,
                          detection: Detection.DetectionResult, save: SaveStatus)
    requires TooSmallFor(width, height, c)
    ensures var r := Outcome(path, width, height, c, opts, detection, save);
            r.skipped && r.success && r.confidence == 0.0 && r.message == TooSmall(width, height, c.wmSize)
  {
  }

  /** With `force` the detector's report plays no part: an image that is not
      too small is never skipped, reports confidence 0, and succeeds exactly
      when saving does. */
  lemma ForceAlwaysRemoves(path: string, width: nat, height: nat, c: Config, opts: ProcessOptions,
                           d1: Detection.DetectionResult, d2: Detection.DetectionResult, save: SaveStatus)
    requires opts.force && !TooSmallFor(width, height, c)
    ensures var r := Outcome(path, width, height, c, opts, d1, save);
            r == Outcome(path, width, height, c, opts, d2, save) &&
            !r.skipped && r.confidence == 0.0 && (r.success <==> save == Saved)
  {
  }

  /** Only a skip or a successful save counts as success. */
  lemma SuccessMeansSkippedOrSaved(path: string, width: nat, height: nat, c: Config, opts: ProcessOptions,
                                   detection: Detection.DetectionResult, save: SaveStatus)
    ensures var r := Outcome(path, width, height, c, opts, detection, save);
            r.success <==> r.skipped || save == Saved
  {
  }

  /** The keep-or-remove rule as the detector's confidence sees it: without
      `force`, an image large enough for the watermark is left alone exactly
      when the confidence is below both the caller's threshold and the fixed
      detection threshold 0.35. Anything at or above the smaller of the two is
      removed, detected or not. */
  lemma SkipRule(engine: WatermarkEngine, pic: Picture, path: string, opts: ProcessOptions,
                 save: SaveStatus, sqrt: real -> real)
    requires engine.Valid() && pic.Wellformed() && !opts.force
    ensures var c := ConfigFor(engine, pic.width, pic.height, opts.forceSize);
            var pos := Position(pic.width, pic.height, c.wmSize, c.margin);
            var d := Detection.DetectionOf(pic, c.alphaMap, c.wmSize, c.wmSize, pos.0, pos.1, opts.threshold, sqrt);
            var r := Outcome(path, pic.width, pic.height, c, opts, d, save);
            !TooSmallFor(pic.width, pic.height, c) ==>
              (r.skipped <==> d.confidence < MinReal(opts.threshold, Detection.DetectionThreshold)) &&
              r.confidence == d.confidence
  {
    var c := ConfigFor(engine, pic.width, pic.height, opts.forceSize);
    var pos := Position(pic.width, pic.height, c.wmSize, c.margin);
    Detection.DetectionWellFormed(pic, c.alphaMap, c.wmSize, c.wmSize, pos.0, pos.1, opts.threshold, sqrt);
  }

  /** With the default options (threshold 0.25) the fixed detection threshold
      never matters: an image is kept exactly when the confidence is below
      0.25, so a confidence in [0.25, 0.35) is removed though not detected. */
  lemma DefaultOptionsSkipRule(engine: WatermarkEngine, pic: Picture, path: string,
                               save: SaveStatus, sqrt: real -> real)
    requires engine.Valid() && pic.Wellformed()
    ensures var c := ConfigFor(engine, pic.width, pic.height, None);
            var pos := Position(pic.width, pic.height, c.wmSize, c.margin);
            var d := Detection.DetectionOf(pic, c.alphaMap, c.wmSize, c.wmSize, pos.0, pos.1, 0.25, sqrt);
            var r := Outcome(path, pic.width, pic.height, c, DefaultOptions, d, save);
            !TooSmallFor(pic.width, pic.height, c) ==> (r.skipped <==> d.confidence < 0.25)
  {
    SkipRule(engine, pic, path, DefaultOptions, save, sqrt);
  }

  /** A uniformly coloured watermark area is never touched: with a genuine
      square root and a positive threshold, `process_file` without `force`
      skips such an image (or it was too small anyway). */
  lemma UniformImageIsSkipped(engine: WatermarkEngine, pic: Picture, path: string, opts: ProcessOptions,
                              save: SaveStatus, sqrt: real -> real, p: Rgb)
    requires engine.Valid() && pic.Wellformed() && IsSqrt(sqrt) && !opts.force && opts.threshold > 0.0
    requires forall y, x | 0 <= y < pic.height && 0 <= x < pic.width :: pic.rows[y][x] == p
    ensures var c := ConfigFor(engine, pic.width, pic.height, opts.forceSize);
            var pos := Position(pic.width, pic.height, c.wmSize, c.margin);
            var d := Detection.DetectionOf(pic, c.alphaMap, c.wmSize, c.wmSize, pos.0, pos.1, opts.threshold, sqrt);
            Outcome(path, pic.width, pic.height, c, opts, d, save).skipped
  {
    var c := ConfigFor(engine, pic.width, pic.height, opts.forceSize);
    var pos := Position(pic.width, pic.height, c.wmSize, c.margin);
    Detection.UniformRegionNotDetected(pic, c.alphaMap, c.wmSize, c.wmSize, pos.0, pos.1, opts.threshold, sqrt, p);
  }

  // ---------------------------------------------------------------------------
  // Properties of the path helpers
  // ---------------------------------------------------------------------------

  /** The last `c` is at `k` when `s[k]` is one and none follows. */
  lemma LastIndexOfAt(s: string, c: char, k: nat)
    requires k < |s| && s[k] == c && forall j | k < j < |s| :: s[j] != c
    ensures LastIndexOf(s, c) == Some(k)
  {
  }

  /** In `front + [c] + back` with no `c` in `back`, the last `c` is the one
      between them. */
  lemma LastIndexOfSplit(front: string, c: char, back: string)
    requires c !in back
    ensures LastIndexOf(front + [c] + back, c) == Some(|front|)
  {
    var s := front + [c] + back;
    var k := |front|;
    assert k < |s| && s[k] == c && forall j | k < j < |s| :: s[j] != c by {
      assert s[k + 1..] == back;
      forall j | k < j < |s| ensures s[j] != c {
        assert s[j] == s[k + 1..][j - k - 1];
      }
    }
    LastIndexOfAt(s, c, k);
  }

  /** Holds neither '/' nor '.'. */
  predicate Plain(s: string)
  {
    '/' !in s && '.' !in s
  }

  /** A file name `stem + "." + ext` split at its last '.': a non-empty
      stem without '/', which may hold further dots, and an extension
      without '/' or '.'. The name ".." (stem ".", no extension) is not a
      file name at all. */
  predicate FileParts(stem: string, ext: string)
  {
    '/' !in stem && |stem| > 0 && Plain(ext) && stem + "." + ext != ".."
  }

  /** A name made of a non-empty stem, a '.' and an extension without '.'
      has exactly that stem and that extension: the split is at the last '.'. */
  lemma NameParts(stem: string, ext: string)
    requires |stem| > 0 && '.' !in ext
    ensures Extension(stem + "." + ext) == Some(ext)
    ensures Stem(stem + "." + ext) == stem
  {
    var name := stem + "." + ext;
    assert name == stem + ['.'] + ext;
    LastIndexOfSplit(stem, '.', ext);
    assert name[..|stem|] == stem && name[|stem| + 1..] == ext;
  }

  /** Empty, or ending in a single '/'. */
  predicate DirectoryPrefix(dir: string)
  {
    dir == "" || (dir[|dir| - 1] == '/' && (|dir| == 1 || dir[|dir| - 2] != '/'))
  }

  /** Below a directory prefix, a name without '/' (other than "") is the
      file name, and the parent joined with any '/'-free file is that file
      below the same prefix. */
  lemma PathParts(dir: string, name: string, file: string)
    requires DirectoryPrefix(dir) && '/' !in name && name != "" && name != ".."
    ensures FileName(dir + name) == Some(name)
    ensures Parent(dir + name).Some? && Join(Parent(dir + name).value, file) == dir + file
  {
    var path := dir + name;
    if dir == "" {
      assert path == name;
      assert LastIndexOf(path, '/') == None;
    } else {
      var front := dir[..|dir| - 1];
      assert dir == front + ['/'];
      assert path == front + ['/'] + name;
      LastIndexOfSplit(front, '/', name);
      assert path[|front| + 1..] == name;
      if front != "" {
        assert path[..|front|] == front;
        assert front[|front| - 1] == dir[|dir| - 2];
        assert front + "/" + file == dir + file;
      }
    }
  }

  lemma Regroup(a: string, b: string, m: string, c: string)
    ensures a + (b + m + c) == a + b + m + c
  {
  }

  lemma Regroup2(a: string, b: string, m1: string, m2: string, c: string)
    ensures a + b + (m1 + m2) + c == a + (b + m1) + m2 + c
  {
  }

  /** The file name of `dir + stem + "." + ext` is `stem + "." + ext`, with
      that stem and that extension. */
  lemma FileNameOf(dir: string, stem: string, ext: string)
    requires DirectoryPrefix(dir) && FileParts(stem, ext)
    ensures var name := stem + "." + ext;
            dir + stem + "." + ext == dir + name && '/' !in name && name != "" && name != ".." &&
            Extension(name) == Some(ext) && Stem(name) == stem
  {
    var name := stem + "." + ext;
    assert dir + stem + "." + ext == dir + name;
    assert '/' !in name by {
      assert name == stem + ['.'] + ext;
    }
    NameParts(stem, ext);
  }

  /** `dir + stem + "." + ext` is a supported image exactly when the
      extension, lower-cased, is jpg, jpeg, png, webp or bmp. */
  lemma SupportedByExtension(dir: string, stem: string, ext: string)
    requires DirectoryPrefix(dir) && FileParts(stem, ext)
    ensures IsSupportedImage(dir + stem + "." + ext) <==> Lower(ext) in SupportedExtensions
  {
    FileNameOf(dir, stem, ext);
    PathParts(dir, stem + "." + ext, "");
  }

  /** The default output path of `dir + stem + "." + ext` keeps the directory
      and the extension and appends "_cleaned" to the stem. */
  lemma CleanedOutputPath(dir: string, stem: string, ext: string)
    requires DirectoryPrefix(dir) && FileParts(stem, ext)
    ensures DefaultOutputPath(dir + stem + "." + ext) == dir + stem + "_cleaned." + ext
  {
    FileNameOf(dir, stem, ext);
    PathParts(dir, stem + "." + ext, stem + "_cleaned." + ext);
    Regroup(dir, stem, "_cleaned.", ext);
  }

  /** A supported image's default output path is a supported image too, and
      an unsupported file's is not. */
  lemma OutputPathStaysSupported(dir: string, stem: string, ext: string)
    requires DirectoryPrefix(dir) && FileParts(stem, ext)
    ensures IsSupportedImage(DefaultOutputPath(dir + stem + "." + ext)) == IsSupportedImage(dir + stem + "." + ext)
  {
    SupportedByExtension(dir, stem, ext);
    CleanedOutputPath(dir, stem, ext);
    CleanedStem(stem, ext);
    SupportedByExtension(dir, stem + "_cleaned", ext);
    Regroup2(dir, stem, "_cleaned", ".", ext);
  }

  /** Appending "_cleaned" to a stem keeps it a stem. */
  lemma CleanedStem(stem: string, ext: string)
    requires FileParts(stem, ext)
    ensures "_cleaned." == "_cleaned" + "." && FileParts(stem + "_cleaned", ext)
  {
    assert '/' !in "_cleaned";
    assert |stem + "_cleaned" + "." + ext| > 2;
  }

  /** The source's test that common formats are accepted. */
  lemma AcceptsCommonFormats()
    ensures IsSupportedImage("photo.jpg") && IsSupportedImage("photo.JPEG") && IsSupportedImage("photo.png")
    ensures IsSupportedImage("photo.webp") && IsSupportedImage("photo.bmp")
  {
    PhotoLiterals();
    LowerLiterals();
    PhotoWithExtension("jpg");
    PhotoWithExtension("JPEG");
    PhotoWithExtension("png");
    PhotoWithExtension("webp");
    PhotoWithExtension("bmp");
  }

  /** The source's test that other formats, and a name without extension,
      are rejected. */
  lemma RejectsUnsupportedFormats()
    ensures !IsSupportedImage("photo.gif") && !IsSupportedImage("photo.txt") && !IsSupportedImage("photo")
  {
    PhotoLiterals();
    LowerLiterals();
    PhotoWithExtension("gif");
    PhotoWithExtension("txt");
    NoExtensionRejected();
    OtherExtensionsUnsupported();
  }

  lemma PhotoWithExtension(ext: string)
    requires Plain(ext)
    ensures IsSupportedImage("photo." + ext) <==> Lower(ext) in SupportedExtensions
  {
    assert '/' !in "photo" && |"photo" + "." + ext| > 2;
    SupportedByExtension("", "photo", ext);
    assert "" + "photo" + "." + ext == "photo." + ext;
  }

  lemma OtherExtensionsUnsupported()
    ensures "gif" !in SupportedExtensions && "txt" !in SupportedExtensions
  {
    assert "gif"[0] == 'g' && "txt"[0] == 't';
    assert "jpg"[0] == 'j' && "png"[0] == 'p' && "bmp"[0] == 'b';
    assert |"jpeg"| == 4 && |"webp"| == 4;
  }

  lemma NoExtensionRejected()
    ensures !IsSupportedImage("photo")
  {
    assert LastIndexOf("photo", '/') == None;
    assert "photo"[0..] == "photo";
    assert LastIndexOf("photo", '.') == None;
  }

  lemma PhotoLiterals()
    ensures "photo." + "jpg" == "photo.jpg" && "photo." + "JPEG" == "photo.JPEG"
    ensures "photo." + "png" == "photo.png" && "photo." + "webp" == "photo.webp"
    ensures "photo." + "bmp" == "photo.bmp" && "photo." + "gif" == "photo.gif"
    ensures "photo." + "txt" == "photo.txt"
    ensures Plain("jpg") && Plain("JPEG") && Plain("png") && Plain("webp") && Plain("bmp") && Plain("gif") && Plain("txt")
  {
  }

  lemma LowerLiterals()
    ensures Lower("jpg") == "jpg" && Lower("JPEG") == "jpeg" && Lower("png") == "png"
    ensures Lower("webp") == "webp" && Lower("bmp") == "bmp" && Lower("gif") == "gif" && Lower("txt") == "txt"
    ensures Lower("JPG") == "jpg"
  {
  }

  /** The source's tests of `default_output_path`. */
  lemma DefaultOutputPathExamples()
    ensures DefaultOutputPath("/tmp/photo.jpg") == "/tmp/photo_cleaned.jpg"
    ensures DefaultOutputPath("image.png") == "image_cleaned.png"
  {
    OutputLiterals();
    CleanedOutputOf("/tmp/photo.jpg", "/tmp/", "photo", "jpg");
    CleanedOutputOf("image.png", "", "image", "png");
  }

  /** `CleanedOutputPath` for a path already written out as one string. */
  lemma CleanedOutputOf(path: string, dir: string, stem: string, ext: string)
    requires DirectoryPrefix(dir) && FileParts(stem, ext) && path == dir + stem + "." + ext
    ensures DefaultOutputPath(path) == dir + stem + "_cleaned." + ext
  {
    CleanedOutputPath(dir, stem, ext);
  }

  /** A stem may hold dots of its own: only the last '.' starts the
      extension. */
  lemma DottedStemExample()
    ensures IsSupportedImage("shots/IMG.final.JPG")
    ensures DefaultOutputPath("shots/IMG.final.JPG") == "shots/IMG.final_cleaned.JPG"
  {
    DottedLiterals();
    LowerLiterals();
    SupportedByExtension("shots/", "IMG.final", "JPG");
    CleanedOutputPath("shots/", "IMG.final", "JPG");
  }

  lemma DottedLiterals()
    ensures "shots/" + "IMG.final" + "." + "JPG" == "shots/IMG.final.JPG"
    ensures "shots/" + "IMG.final" + "_cleaned." + "JPG" == "shots/IMG.final_cleaned.JPG"
    ensures DirectoryPrefix("shots/") && FileParts("IMG.final", "JPG")
  {
    assert "shots/"[5] == '/' && "shots/"[4] != '/';
  }

  lemma OutputLiterals()
    ensures "/tmp/" + "photo" + "." + "jpg" == "/tmp/photo.jpg"
    ensures "/tmp/" + "photo" + "_cleaned." + "jpg" == "/tmp/photo_cleaned.jpg"
    ensures "" + "image" + "." + "png" == "image.png"
    ensures "" + "image" + "_cleaned." + "png" == "image_cleaned.png"
  {
  }
}
