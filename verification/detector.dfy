/**
 * The orchestrator: runs the three analyzers on one image, reads each score
 * out of the analyzer's result dictionary, fuses the scores, and assembles
 * the result. The image decoding of `analyze_from_path` is I/O and the
 * decoded image is taken as an argument.
 */
module Detector {
  import opened Grids
  import opened Analyzer
  import Cloning
  import Compression
  import Metadata

  /** The library steps the analyzers call. */
  datatype Library = Library(
    toGray: Pixel -> int,                       // cv2 B,G,R to gray, per pixel
    jpeg: (Image, nat) -> Image,                // PIL JPEG save and reload at a quality
    describe: Grid -> Cloning.Descriptor,       // (int(mean), int(std)) of a block
    readExif: string -> Metadata.ExifRead)      // piexif load and tag decoding

  const CloningWeight: real := 0.6
  const ElaWeight: real := 0.3
  const MetadataWeight: real := 0.4

  /** The orchestrator's analyzers: block size 32, quality 90 with the
      default scale. */
  const BlockSize: nat := Cloning.DefaultBlockSize
  const Settings: Compression.Settings := Compression.Default

  /** The `results` dictionary without the preprocessing output and the report. */
  datatype AnalysisResult = AnalysisResult(
    suspiciousMask: Option<Value>,
    cloningCount: Option<Value>,
    cloningConfidence: real,
    elaImage: Option<Value>,
    elaMask: Option<Value>,
    elaConfidence: real,
    metadata: Dict,
    overallConfidence: real)

  /** A run either completes or raises inside a colour conversion. */
  datatype Outcome = Completed(result: AnalysisResult) | Raised

  /** `min(1.0, c * 0.6 + e * 0.3 + m * 0.4)`. */
  function Fuse(c: real, e: real, m: real): (x: real)
    ensures x <= 1.0
    ensures 0.0 <= c && 0.0 <= e && 0.0 <= m ==> 0.0 <= x
    ensures x == 1.0 || x == c * CloningWeight + e * ElaWeight + m * MetadataWeight
  {
    var sum := c * CloningWeight + e * ElaWeight + m * MetadataWeight;
    if 1.0 <= sum then 1.0 else sum
  }

  /** A higher score from any analyzer never lowers the fused score. */
  lemma FuseMonotone(c: real, e: real, m: real, c': real, e': real, m': real)
    requires c <= c' && e <= e' && m <= m'
    ensures Fuse(c, e, m) <= Fuse(c', e', m')
  {
  }

  /** The shared tail of `_analyze`: the score lookups, the fusion and the
      result assembly, given the three result dictionaries. The ELA score is
      looked up under `elaKey`. */
  function Assemble(clon: Dict, comp: Dict, meta: Dict, elaKey: string): (r: AnalysisResult)
    ensures r.suspiciousMask == Get(clon, "suspicious_mask") && r.cloningCount == Get(clon, "cloning_count")
    ensures r.elaImage == Get(comp, "ela_image") && r.elaMask == Get(comp, "ela_mask")
    ensures r.metadata == meta
    ensures r.overallConfidence == Fuse(r.cloningConfidence, r.elaConfidence, GetScore(meta, "confidence"))
  {
    var c := GetScore(clon, "confidence");
    var e := GetScore(comp, elaKey);
    var m := GetScore(meta, "confidence");
    AnalysisResult(Get(clon, "suspicious_mask"), Get(clon, "cloning_count"), c,
      Get(comp, "ela_image"), Get(comp, "ela_mask"), e, meta, Fuse(c, e, m))
  }

  /** `_analyze(img, info)` as written: the compression analyzer is called
      without `info`, and its score is looked up under "confidence". An empty
      image makes the gray conversions raise; so does an empty overlap with
      the recompressed image. */
  function AnalyzeImage(img: Image, info: Info, lib: Library): (out: Outcome)
    requires Rectangular(img)
    requires Rectangular(lib.jpeg(SwapAll(img), Settings.quality))
    ensures out.Raised? <==> IsEmpty(img) || IsEmpty(lib.jpeg(SwapAll(img), Settings.quality))
    ensures out.Completed? ==> 0.0 <= out.result.overallConfidence <= 1.0
  {
    if IsEmpty(img) then Raised
    else
      match Compression.Analyze(img, NoInfo, Settings, lib.jpeg, lib.toGray)
      case None => Raised
      case Some(comp) =>
        var clon := Cloning.Analyze(img, lib.toGray, BlockSize, lib.describe);
        var meta := Metadata.Analyze(info, lib.readExif);
        Completed(Assemble(Cloning.ToDict(clon), Compression.ToDict(comp), Metadata.ToDict(meta), "confidence"))
  }

  /** A completed run assembles the three analyzers' dictionaries. */
  lemma CompletedAssembles(img: Image, info: Info, lib: Library)
    requires Rectangular(img)
    requires Rectangular(lib.jpeg(SwapAll(img), Settings.quality))
    requires !IsEmpty(img) && !IsEmpty(lib.jpeg(SwapAll(img), Settings.quality))
    ensures Compression.Analyze(img, NoInfo, Settings, lib.jpeg, lib.toGray).Some?
    ensures AnalyzeImage(img, info, lib).result ==
      Assemble(Cloning.ToDict(Cloning.Analyze(img, lib.toGray, BlockSize, lib.describe)),
        Compression.ToDict(Compression.Analyze(img, NoInfo, Settings, lib.jpeg, lib.toGray).value),
        Metadata.ToDict(Metadata.Analyze(info, lib.readExif)), "confidence")
  {
  }

  /** The metadata analyzer's dictionary is placed in the result as it is. */
  lemma MetadataPassedOn(img: Image, info: Info, lib: Library)
    requires Rectangular(img)
    requires Rectangular(lib.jpeg(SwapAll(img), Settings.quality))
    ensures var out := AnalyzeImage(img, info, lib);
      out.Completed? ==> out.result.metadata == Metadata.ToDict(Metadata.Analyze(info, lib.readExif))
  {
    if AnalyzeImage(img, info, lib).Completed? {
      CompletedAssembles(img, info, lib);
    }
  }

  /** `analyze_from_path(filepath)`, given the image `cv2.imread` decoded.
      In the program an empty path never gets this far: `cv2.imread("")`
      returns None and `_analyze` then raises. The note clause below is
      about the model with an image supplied for such a path. */
  function AnalyzeFromPath(img: Image, path: string, lib: Library): (out: Outcome)
    requires Rectangular(img)
    requires Rectangular(lib.jpeg(SwapAll(img), Settings.quality))
    ensures out.Raised? <==> IsEmpty(img) || IsEmpty(lib.jpeg(SwapAll(img), Settings.quality))
    ensures out.Completed? ==> ("note" in out.result.metadata <==> path == "")
  {
    MetadataPassedOn(img, InfoDict(Some(path)), lib);
    AnalyzeImage(img, InfoDict(Some(path)), lib)
  }

  /** `analyze_from_array(bgr_image)`: no `info`. */
  function AnalyzeFromArray(img: Image, lib: Library): (out: Outcome)
    requires Rectangular(img)
    requires Rectangular(lib.jpeg(SwapAll(img), Settings.quality))
    ensures out.Raised? <==> IsEmpty(img) || IsEmpty(lib.jpeg(SwapAll(img), Settings.quality))
    ensures out.Completed? ==> "note" in out.result.metadata && out.result.metadata["note"] == Str(Metadata.NoPathNote)
    ensures out.Completed? ==> "confidence" in out.result.metadata && out.result.metadata["confidence"] == Real(0.0)
  {
    MetadataPassedOn(img, NoInfo, lib);
    AnalyzeImage(img, NoInfo, lib)
  }

  // ---------------------------------------------------------------------------
  // Properties of the orchestrator as written

  /** The analyzers' outputs are passed through unchanged. */
  lemma OutputsCopied(img: Image, info: Info, lib: Library)
    requires Rectangular(img)
    requires Rectangular(lib.jpeg(SwapAll(img), Settings.quality))
    requires !IsEmpty(img) && !IsEmpty(lib.jpeg(SwapAll(img), Settings.quality))
    ensures var r := AnalyzeImage(img, info, lib).result;
      var clon := Cloning.Analyze(img, lib.toGray, BlockSize, lib.describe);
      var comp := Compression.Analyze(img, NoInfo, Settings, lib.jpeg, lib.toGray).value;
      r.suspiciousMask == Some(Plane(clon.suspiciousMask)) &&
      r.cloningCount == Some(Int(clon.cloningCount)) &&
      r.cloningConfidence == clon.confidence &&
      r.elaImage == Some(Picture(comp.elaImage)) &&
      r.elaMask == Some(Plane(comp.elaMask)) &&
      r.metadata == Metadata.ToDict(Metadata.Analyze(info, lib.readExif))
  {
    CompletedAssembles(img, info, lib);
  }

  /** The ELA score is looked up under a key the compression result never has,
      so it reads as 0.0 and the fusion reduces to the other two scores. */
  lemma ElaScoreNeverRead(img: Image, info: Info, lib: Library)
    requires Rectangular(img)
    requires Rectangular(lib.jpeg(SwapAll(img), Settings.quality))
    requires !IsEmpty(img) && !IsEmpty(lib.jpeg(SwapAll(img), Settings.quality))
    ensures var r := AnalyzeImage(img, info, lib).result;
      var m := Metadata.Analyze(info, lib.readExif).confidence;
      r.elaConfidence == 0.0 &&
      r.overallConfidence == Fuse(r.cloningConfidence, 0.0, m) &&
      (r.overallConfidence == 1.0 || r.overallConfidence == r.cloningConfidence * 0.6 + m * 0.4)
  {
    CompletedAssembles(img, info, lib);
  }

  /** The compression analyzer never sees the file path, so its mask is always
      cut at the lossless threshold 30, whatever the file is called. */
  lemma CompressionSeesNoFormat(img: Image, info: Info, lib: Library)
    requires Rectangular(img)
    requires Rectangular(lib.jpeg(SwapAll(img), Settings.quality))
    requires !IsEmpty(img) && !IsEmpty(lib.jpeg(SwapAll(img), Settings.quality))
    ensures var r := AnalyzeImage(img, info, lib).result;
      var gray := Compression.GrayOf(img, Settings, lib.jpeg, lib.toGray);
      r.elaMask == Some(Plane(Compression.ThresholdMask(gray, 30)))
  {
    CompletedAssembles(img, info, lib);
    assert Compression.SensitivityFor(Compression.FileFormat(NoInfo)).threshold == 30;
  }

  /** Without `info` the metadata score is 0, so the fused score is at most 0.6. */
  lemma FromArrayCapped(img: Image, lib: Library)
    requires Rectangular(img)
    requires Rectangular(lib.jpeg(SwapAll(img), Settings.quality))
    requires !IsEmpty(img) && !IsEmpty(lib.jpeg(SwapAll(img), Settings.quality))
    ensures var r := AnalyzeFromArray(img, lib).result;
      r.metadata["confidence"] == Real(0.0) && r.overallConfidence <= 0.6
  {
    var r := AnalyzeFromArray(img, lib).result;
    ElaScoreNeverRead(img, NoInfo, lib);
    assert r.cloningConfidence <= 1.0;
  }

  /** An AI verdict from the metadata alone lifts the fused score to at least
      0.4; with a saturated cloning score as well it reaches the cap 1.0. */
  lemma MetadataCertaintyFloor(img: Image, info: Info, lib: Library)
    requires Rectangular(img)
    requires Rectangular(lib.jpeg(SwapAll(img), Settings.quality))
    requires !IsEmpty(img) && !IsEmpty(lib.jpeg(SwapAll(img), Settings.quality))
    requires Metadata.Analyze(info, lib.readExif).confidence == 1.0
    ensures var r := AnalyzeImage(img, info, lib).result;
      r.overallConfidence >= 0.4 &&
      (r.cloningConfidence == 1.0 ==> r.overallConfidence == 1.0)
  {
    ElaScoreNeverRead(img, info, lib);
  }

  // ---------------------------------------------------------------------------
  // The discrepancy, exhibited

  /** The library of the example: gray is the first channel, recompression
      turns every pixel white. */
  function WhiteningLibrary(): Library
  {
    Library((p: Pixel) => p.c0, (i: Image, q: nat) => [[Pixel(255, 255, 255)]],
      (g: Grid) => Cloning.Descriptor(0, 0), (path: string) => Metadata.ReadError("no EXIF"))
  }

  /** A one-pixel black image whose recompression is white: every channel
      differs by 255, so the compression analyzer marks every cell and scores
      1.0, yet the orchestrator reports an ELA score of 0.0. */
  lemma ElaScoreDroppedExample()
    ensures var lib := WhiteningLibrary();
      var img := [[Black]];
      var comp := Compression.Analyze(img, NoInfo, Settings, lib.jpeg, lib.toGray);
      comp.Some? && comp.value.elaConfidence == 1.0 &&
      AnalyzeImage(img, NoInfo, lib).Completed? &&
      AnalyzeImage(img, NoInfo, lib).result.elaConfidence == 0.0
  {
    var lib := WhiteningLibrary();
    var img: Image := [[Black]];
    WhiteOverBlackScoresOne(img, NoInfo, lib);
  }

  lemma WhiteOverBlackScoresOne(img: Image, info: Info, lib: Library)
    requires img == [[Black]] && lib == WhiteningLibrary()
    requires !Compression.IsJpeg(Compression.FileFormat(info))
    ensures Rectangular(lib.jpeg(SwapAll(img), Settings.quality))
    ensures var comp := Compression.Analyze(img, info, Settings, lib.jpeg, lib.toGray);
      comp.Some? && comp.value.elaConfidence == 1.0
  {
    var white := Pixel(255, 255, 255);
    var comp := lib.jpeg(SwapAll(img), Settings.quality);
    assert comp == [[white]];
    var rgb := SwapAll(img);
    assert rgb[0][0] == Swap(Black) == Black;
    Single(rgb, Black);
    var raw := Compression.ElaImage(rgb, comp, Settings.scale);
    assert raw[0][0] == Compression.ElaPixel(Black, white, 10) == white;
    var ela := Compression.ElaOf(img, Settings, lib.jpeg);
    assert ela == SwapAll(raw);
    assert ela[0][0] == Swap(white) == white;
    var gray := MapPixels(ela, lib.toGray);
    assert gray[0][0] == 255;
    Single(gray, 255);
    var mask := Compression.ThresholdMask(gray, 30);
    assert mask[0][0] == 255;
    Single(mask, 255);
    assert mask[..0] == [];
    assert RowSum(mask[0]) == RowSum(mask[0][..0]) + 255 == 255;
    assert GridSum(mask) == GridSum(mask[..0]) + RowSum(mask[0]) == 255;
    assert Compression.Ratio(mask) == 1.0;
  }

  lemma Single<T>(g: seq<seq<T>>, v: T)
    requires |g| == 1 && |g[0]| == 1 && g[0][0] == v
    ensures g == [[v]]
  {
    assert g[0] == [v];
  }

  // ---------------------------------------------------------------------------
  // The orchestrator as evidently intended

  /** `_analyze` with the compression analyzer given `info` and its score read
      under "ela_confidence", the key it is stored under. */
  function AnalyzeIntended(img: Image, info: Info, lib: Library): (out: Outcome)
    requires Rectangular(img)
    requires Rectangular(lib.jpeg(SwapAll(img), Settings.quality))
    ensures out.Raised? <==> IsEmpty(img) || IsEmpty(lib.jpeg(SwapAll(img), Settings.quality))
    ensures out.Completed? ==> 0.0 <= out.result.overallConfidence <= 1.0
  {
    if IsEmpty(img) then Raised
    else
      match Compression.Analyze(img, info, Settings, lib.jpeg, lib.toGray)
      case None => Raised
      case Some(comp) =>
        var clon := Cloning.Analyze(img, lib.toGray, BlockSize, lib.describe);
        var meta := Metadata.Analyze(info, lib.readExif);
        Completed(Assemble(Cloning.ToDict(clon), Compression.ToDict(comp), Metadata.ToDict(meta), "ela_confidence"))
  }

  /** A completed intended run assembles the three analyzers' dictionaries. */
  lemma IntendedAssembles(img: Image, info: Info, lib: Library)
    requires Rectangular(img)
    requires Rectangular(lib.jpeg(SwapAll(img), Settings.quality))
    requires !IsEmpty(img) && !IsEmpty(lib.jpeg(SwapAll(img), Settings.quality))
    ensures Compression.Analyze(img, info, Settings, lib.jpeg, lib.toGray).Some?
    ensures AnalyzeIntended(img, info, lib).result ==
      Assemble(Cloning.ToDict(Cloning.Analyze(img, lib.toGray, BlockSize, lib.describe)),
        Compression.ToDict(Compression.Analyze(img, info, Settings, lib.jpeg, lib.toGray).value),
        Metadata.ToDict(Metadata.Analyze(info, lib.readExif)), "ela_confidence")
  {
  }

  /** The intended orchestrator reports and fuses the compression analyzer's
      own score. */
  lemma IntendedUsesElaScore(img: Image, info: Info, lib: Library)
    requires Rectangular(img)
    requires Rectangular(lib.jpeg(SwapAll(img), Settings.quality))
    requires !IsEmpty(img) && !IsEmpty(lib.jpeg(SwapAll(img), Settings.quality))
    ensures var r := AnalyzeIntended(img, info, lib).result;
      var comp := Compression.Analyze(img, info, Settings, lib.jpeg, lib.toGray).value;
      var clon := Cloning.Analyze(img, lib.toGray, BlockSize, lib.describe);
      var m := Metadata.Analyze(info, lib.readExif).confidence;
      r.elaConfidence == comp.elaConfidence &&
      r.overallConfidence == Fuse(clon.confidence, comp.elaConfidence, m)
  {
    IntendedAssembles(img, info, lib);
  }

  /** With the file path passed on, a jpg/jpeg file gets the JPEG threshold and
      an ELA score of at most 0.2. */
  lemma IntendedJpegCapped(img: Image, path: string, lib: Library)
    requires Rectangular(img)
    requires Rectangular(lib.jpeg(SwapAll(img), Settings.quality))
    requires Compression.IsJpeg(Compression.FileFormat(InfoDict(Some(path))))
    requires !IsEmpty(img) && !IsEmpty(lib.jpeg(SwapAll(img), Settings.quality))
    ensures var r := AnalyzeIntended(img, InfoDict(Some(path)), lib).result;
      var gray := Compression.GrayOf(img, Settings, lib.jpeg, lib.toGray);
      r.elaConfidence <= 0.2 &&
      r.elaMask == Some(Plane(Compression.ThresholdMask(gray, 50)))
  {
    IntendedAssembles(img, InfoDict(Some(path)), lib);
    Compression.JpegCapped(img, InfoDict(Some(path)), Settings, lib.jpeg, lib.toGray);
  }

  /** On the example image the intended orchestrator counts the ELA score. */
  lemma IntendedCountsExample()
    ensures var lib := WhiteningLibrary();
      var img := [[Black]];
      AnalyzeIntended(img, NoInfo, lib).Completed? &&
      AnalyzeIntended(img, NoInfo, lib).result.elaConfidence == 1.0 &&
      AnalyzeIntended(img, NoInfo, lib).result.overallConfidence >= 0.3
  {
    var lib := WhiteningLibrary();
    var img: Image := [[Black]];
    WhiteOverBlackScoresOne(img, NoInfo, lib);
    IntendedUsesElaScore(img, NoInfo, lib);
    var clon := Cloning.Analyze(img, lib.toGray, BlockSize, lib.describe);
    assert clon.confidence >= 0.0;
  }
}
