/**
 * Error level analysis (ELA).
 *
 * The colour image is recompressed as JPEG (a library round trip, taken here
 * as a parameter), the two versions are compared channel by channel over
 * their common area, the scaled and clipped differences are converted to
 * gray, and the gray plane is thresholded. The share of marked cells is
 * mapped to a score by a four-step function. A file extension of jpg/jpeg
 * raises the threshold and scales the score down.
 */
module Compression {
  import opened Grids
  import opened Analyzer
  import opened Text

  /** The constructor arguments: JPEG quality and the ELA scale factor. */
  datatype Settings = Settings(quality: nat, scale: int)

  const Default := Settings(90, 10)

  const JpegNote: string := " Imagen JPEG detectada: resultados ELA pueden no ser confiables."
  const LosslessNote: string := "Formato sin pérdida detectado: análisis ELA más confiable."

  datatype CompressionResult = CompressionResult(
    elaImage: Image,       // the scaled difference, in B,G,R order
    elaMask: Grid,         // 255 where the gray difference exceeds the threshold, else 0
    elaConfidence: real,
    note: string)

  // ---------------------------------------------------------------------------
  // The format tag

  /** `os.path.splitext(filepath)[1].lower().replace(".", "")`, when `info`
      carries a truthy file path; None otherwise. */
  function FileFormat(info: Info): (fmt: Option<string>)
    ensures fmt.Some? <==> FilepathOf(info).Some?
    ensures fmt.Some? ==> '.' !in fmt.value
  {
    match FilepathOf(info)
    case None => None
    case Some(p) => Some(RemoveAll(ToLower(SplitExt(p)), '.'))
  }

  lemma LowerKeepsDotFree(s: string)
    requires '.' !in s
    ensures '.' !in ToLower(s)
  {
    forall i | 0 <= i < |s|
      ensures ToLower(s)[i] != '.'
    {
      assert s[i] != '.';
    }
  }

  /** The tag of `dir/stem.ext` is the lower-cased ext. */
  lemma FileFormatOfPath(dir: string, stem: string, ext: string)
    requires dir == [] || dir[|dir| - 1] == '/'
    requires '/' !in stem && '/' !in ext && '.' !in ext
    requires HasNonDot(stem)
    ensures FileFormat(InfoDict(Some(dir + stem + "." + ext))) == Some(ToLower(ext))
  {
    var p := dir + stem + "." + ext;
    assert p != "" by { assert |p| > |stem|; }
    SplitExtOfJoin(dir, stem, ext);
    LowerKeepsDotFree(ext);
    var lowered := ToLower("." + ext);
    assert lowered == "." + ToLower(ext);
    assert lowered[1..] == ToLower(ext);
    assert RemoveAll(lowered, '.') == RemoveAll(lowered[1..], '.');
    assert SplitExt(p) == "." + ext;
    assert FileFormat(InfoDict(Some(p))) == Some(RemoveAll(lowered, '.'));
  }

  /** `"a/b.JPG"` is tagged "jpg". */
  lemma UpperCaseJpgPath()
    ensures FileFormat(InfoDict(Some("a/b.JPG"))) == Some("jpg")
  {
    assert "a/b.JPG" == "a/" + "b" + "." + "JPG";
    assert HasNonDot("b") by { assert "b"[0] != '.'; }
    FileFormatOfPath("a/", "b", "JPG");
    var low := ToLower("JPG");
    assert low[0] == 'j' && low[1] == 'p' && low[2] == 'g';
    assert low == "jpg";
  }

  // ---------------------------------------------------------------------------
  // Sensitivity and note

  predicate IsJpeg(fmt: Option<string>)
  {
    fmt == Some("jpg") || fmt == Some("jpeg")
  }

  datatype Sensitivity = Sensitivity(threshold: int, factor: real)

  /** The threshold and score factor chosen by the comparison chain on the tag. */
  function SensitivityFor(fmt: Option<string>): (s: Sensitivity)
    ensures s == Sensitivity(50, 0.2) || s == Sensitivity(30, 1.0)
    ensures s.threshold == 50 <==> IsJpeg(fmt)
  {
    if IsJpeg(fmt) then Sensitivity(50, 0.2) else Sensitivity(30, 1.0)
  }

  /** The note, chosen by list membership on the tag (None is in no list). */
  function NoteFor(fmt: Option<string>): (note: string)
    ensures note == JpegNote || note == LosslessNote
  {
    if fmt.Some? && fmt.value in ["jpg", "jpeg"] then JpegNote else LosslessNote
  }

  /** The membership test for the note and the comparison chain for the
      sensitivity pick the same branch. */
  lemma NoteAgreesWithSensitivity(fmt: Option<string>)
    ensures NoteFor(fmt) == if SensitivityFor(fmt).threshold == 50 then JpegNote else LosslessNote
    ensures NoteFor(fmt) == if SensitivityFor(fmt).factor == 0.2 then JpegNote else LosslessNote
  {
    if fmt.Some? && fmt.value in ["jpg", "jpeg"] {
      assert fmt.value == "jpg" || fmt.value == "jpeg";
    }
  }

  // ---------------------------------------------------------------------------
  // The difference image

  function Abs(x: int): nat
  {
    if x < 0 then -x else x
  }

  /** `np.clip(|a - b| * scale, 0, 255)` for one channel. */
  function ElaChannel(a: int, b: int, scale: int): (v: int)
    ensures 0 <= v <= 255
    ensures v == 0 <==> a == b || scale <= 0
    ensures scale > 0 && Abs(a - b) * scale >= 255 ==> v == 255
  {
    var x := Abs(a - b) * scale;
    if x < 0 then 0 else if x > 255 then 255 else x
  }

  function ElaPixel(a: Pixel, b: Pixel, scale: int): (p: Pixel)
    ensures InByteRange(p)
  {
    Pixel(ElaChannel(a.c0, b.c0, scale), ElaChannel(a.c1, b.c1, scale), ElaChannel(a.c2, b.c2, scale))
  }

  predicate InByteRange(p: Pixel)
  {
    0 <= p.c0 <= 255 && 0 <= p.c1 <= 255 && 0 <= p.c2 <= 255
  }

  /** The ELA pixel is black exactly when the two pixels agree (for a positive
      scale), and its channels are bytes. */
  lemma ElaPixelBlack(a: Pixel, b: Pixel, scale: int)
    ensures InByteRange(ElaPixel(a, b, scale))
    ensures a == b ==> ElaPixel(a, b, scale) == Black
    ensures scale > 0 ==> (ElaPixel(a, b, scale) == Black <==> a == b)
  {
  }

  /** The ELA image over the common min_h × min_w area of the two images. */
  function ElaImage(orig: Image, comp: Image, scale: int): (ela: Image)
    requires Rectangular(orig) && Rectangular(comp)
    ensures IsRect(ela, Min(|orig|, |comp|), Min(Width(orig), Width(comp)))
    ensures forall r, c :: 0 <= r < |ela| && 0 <= c < |ela[r]| ==>
      InByteRange(ela[r][c]) &&
      (orig[r][c] == comp[r][c] ==> ela[r][c] == Black) &&
      (scale > 0 && ela[r][c] == Black ==> orig[r][c] == comp[r][c])
  {
    var h, w := Min(|orig|, |comp|), Min(Width(orig), Width(comp));
    var ela := seq(h, r requires 0 <= r < h =>
      seq(w, c requires 0 <= c < w => ElaPixel(orig[r][c], comp[r][c], scale)));
    assert forall r, c :: 0 <= r < h && 0 <= c < w ==> ela[r][c] == ElaPixel(orig[r][c], comp[r][c], scale);
    forall r, c | 0 <= r < h && 0 <= c < w
      ensures InByteRange(ela[r][c])
      ensures orig[r][c] == comp[r][c] ==> ela[r][c] == Black
      ensures scale > 0 && ela[r][c] == Black ==> orig[r][c] == comp[r][c]
    {
      ElaPixelBlack(orig[r][c], comp[r][c], scale);
    }
    ela
  }

  // ---------------------------------------------------------------------------
  // Mask, ratio and score

  /** `cv2.threshold(gray, t, 255, THRESH_BINARY)`: strictly above t gives 255. */
  function ThresholdMask(gray: Grid, t: int): (mask: Grid)
    ensures |mask| == |gray|
    ensures forall r :: 0 <= r < |mask| ==> |mask[r]| == |gray[r]|
    ensures forall r, c :: 0 <= r < |mask| && 0 <= c < |mask[r]| ==>
      (mask[r][c] == 0 || mask[r][c] == 255) && (mask[r][c] == 255 <==> gray[r][c] > t)
  {
    seq(|gray|, r requires 0 <= r < |gray| =>
      seq(|gray[r]|, c requires 0 <= c < |gray[r]| => if gray[r][c] > t then 255 else 0))
  }

  /** A higher threshold marks a subset of the cells. */
  lemma ThresholdAntitone(gray: Grid, t: int, t': int)
    requires t <= t'
    ensures forall r, c :: 0 <= r < |gray| && 0 <= c < |gray[r]| ==>
      ThresholdMask(gray, t')[r][c] <= ThresholdMask(gray, t)[r][c]
  {
  }

  /** Every cell is 0 or 255. */
  ghost predicate Binary(mask: Grid)
  {
    forall r, c :: 0 <= r < |mask| && 0 <= c < |mask[r]| ==> mask[r][c] == 0 || mask[r][c] == 255
  }

  /** The mask has the shape of the gray plane and marks exactly its cells
      strictly above t. */
  ghost predicate MarksAbove(mask: Grid, gray: Grid, t: int)
  {
    |mask| == |gray| &&
    (forall r :: 0 <= r < |gray| ==> |mask[r]| == |gray[r]|) &&
    forall r, c :: 0 <= r < |gray| && 0 <= c < |gray[r]| ==> (mask[r][c] == 255 <==> gray[r][c] > t)
  }

  /** `mask.sum() / (mask.size * 255)`. */
  function Ratio(mask: Grid): (ratio: real)
    requires Rectangular(mask) && !IsEmpty(mask)
    ensures ratio == 0.0 <==> GridSum(mask) == 0
  {
    PositiveProduct(|mask|, Width(mask));
    GridSum(mask) as real / (|mask| * Width(mask) * 255) as real
  }

  /** For a 0/255 mask the ratio lies in [0, 1]. */
  lemma RatioBounds(mask: Grid)
    requires Rectangular(mask) && !IsEmpty(mask)
    requires Binary(mask)
    ensures 0.0 <= Ratio(mask) <= 1.0
  {
    var size := |mask| * Width(mask);
    GridSumBounds(mask, Width(mask), 255);
    assert GridSum(mask) <= 255 * size;
    FractionAtMostOne(GridSum(mask), size * 255);
  }

  lemma FractionAtMostOne(a: int, b: int)
    requires 0 <= a <= b && b > 0
    ensures 0.0 <= a as real / b as real <= 1.0
  {
  }

  lemma GridCountBound(g: Grid, w: nat, v: int)
    requires IsRect(g, |g|, w)
    ensures GridCount(g, v) <= |g| * w
  {
    if |g| > 0 {
      var h := |g| - 1;
      GridCountBound(g[..h], w, v);
      RowCountBound(g[h], v);
      Distribute(1, h, w);
    }
  }

  lemma RowCountBound(row: seq<int>, v: int)
    ensures RowCount(row, v) <= |row|
  {
  }

  /** The number of cells marked 255 over the number of cells (0 for an empty
      mask). */
  function MarkedShare(mask: Grid): real
  {
    if IsEmpty(mask) then 0.0
    else
      PositiveProduct(|mask|, Width(mask));
      GridCount(mask, 255) as real / (|mask| * Width(mask)) as real
  }

  /** The ratio is the share of marked cells. */
  lemma RatioIsMarkedShare(mask: Grid)
    requires Rectangular(mask) && !IsEmpty(mask)
    requires Binary(mask)
    ensures Ratio(mask) == GridCount(mask, 255) as real / (|mask| * Width(mask)) as real
    ensures Ratio(mask) == MarkedShare(mask)
    ensures GridCount(mask, 255) <= |mask| * Width(mask)
  {
    var n, size := GridCount(mask, 255), |mask| * Width(mask);
    GridSumBinary(mask, 255);
    GridCountBound(mask, Width(mask), 255);
    PositiveProduct(|mask|, Width(mask));
    ScaleFraction(n, size, 255);
  }

  lemma PositiveProduct(a: int, b: int)
    requires a > 0 && b > 0
    ensures a * b > 0
  {
  }

  lemma ScaleFraction(n: int, size: int, k: int)
    requires size > 0 && k > 0
    ensures (k * n) as real / (size * k) as real == n as real / size as real
  {
    assert (k * n) as real == k as real * n as real;
    assert (size * k) as real == size as real * k as real;
  }

  /** A pointwise smaller mask of the same shape has no larger ratio. */
  lemma RatioMonotone(a: Grid, b: Grid)
    requires Rectangular(a) && !IsEmpty(a)
    requires |a| == |b| && forall r :: 0 <= r < |a| ==> |b[r]| == |a[r]|
    requires forall r, c :: 0 <= r < |a| && 0 <= c < |a[r]| ==> a[r][c] <= b[r][c]
    ensures Rectangular(b) && !IsEmpty(b) && Ratio(a) <= Ratio(b)
  {
    GridSumMonotone(a, b);
    var d := (|a| * Width(a) * 255) as real;
    assert Width(a) == Width(b);
    assert d > 0.0;
    DivideMonotone(GridSum(a) as real, GridSum(b) as real, d);
  }

  lemma DivideMonotone(x: real, y: real, d: real)
    requires x <= y && d > 0.0
    ensures x / d <= y / d
  {
  }

  /** The four-step score, scaled by the format factor f. */
  function StepConfidence(ratio: real, f: real): (conf: real)
    ensures conf == 0.0 || conf == 0.3 * f || conf == 0.6 * f || conf == f
    ensures f >= 0.0 ==> 0.0 <= conf <= f
    ensures f > 0.0 ==> (conf == 0.0 <==> ratio < 0.002)
    ensures ratio >= 0.05 ==> conf == f
  {
    if ratio < 0.002 then 0.0
    else if ratio < 0.01 then 0.3 * f
    else if ratio < 0.05 then 0.6 * f
    else 1.0 * f
  }

  /** A larger share of marked cells never lowers the score. */
  lemma StepMonotone(ratio: real, ratio': real, f: real)
    requires ratio <= ratio' && f >= 0.0
    ensures StepConfidence(ratio, f) <= StepConfidence(ratio', f)
  {
  }

  /** The score grows with the factor. */
  lemma StepFactorMonotone(ratio: real, f: real, f': real)
    requires 0.0 <= f <= f'
    ensures StepConfidence(ratio, f) <= StepConfidence(ratio, f')
  {
  }

  // ---------------------------------------------------------------------------
  // The analyzer

  /** The scaled difference in B,G,R order, over the common area of the image
      and its recompressed version. */
  function ElaOf(image: Image, s: Settings, jpeg: (Image, nat) -> Image): (ela: Image)
    requires Rectangular(image)
    requires Rectangular(jpeg(SwapAll(image), s.quality))
    ensures var comp := jpeg(SwapAll(image), s.quality);
      IsRect(ela, Min(|image|, |comp|), Min(Width(image), Width(comp)))
  {
    SwapAll(ElaImage(SwapAll(image), jpeg(SwapAll(image), s.quality), s.scale))
  }

  /** Everything after the gray conversion: mask, ratio, score and note. */
  function Score(ela: Image, gray: Grid, fmt: Option<string>): (res: CompressionResult)
    requires Rectangular(gray) && !IsEmpty(gray)
    ensures IsRect(res.elaMask, |gray|, Width(gray)) && Binary(res.elaMask)
    ensures 0.0 <= res.elaConfidence <= SensitivityFor(fmt).factor
  {
    var sens := SensitivityFor(fmt);
    var mask := ThresholdMask(gray, sens.threshold);
    RatioBounds(mask);
    CompressionResult(ela, mask, StepConfidence(Ratio(mask), sens.factor), NoteFor(fmt))
  }

  /** `CompressionAnalyzer(quality, scale).analyze(image, info)`: None where the
      colour conversions raise, that is when the image or the common area of
      the two versions is empty. `jpeg` is the PIL save/load round trip at the
      given quality and `toGray` the per-pixel B,G,R to gray conversion. */
  function Analyze(image: Image, info: Info, s: Settings, jpeg: (Image, nat) -> Image, toGray: Pixel -> int)
    : (res: Option<CompressionResult>)
    requires Rectangular(image)
    requires Rectangular(jpeg(SwapAll(image), s.quality))
    ensures res.Some? <==> !IsEmpty(image) && !IsEmpty(jpeg(SwapAll(image), s.quality))
    ensures res.Some? ==>
      var comp := jpeg(SwapAll(image), s.quality);
      var h, w := Min(|image|, |comp|), Min(Width(image), Width(comp));
      IsRect(res.value.elaImage, h, w) && IsRect(res.value.elaMask, h, w) &&
      Binary(res.value.elaMask) &&
      0.0 <= res.value.elaConfidence <= SensitivityFor(FileFormat(info)).factor
  {
    var comp := jpeg(SwapAll(image), s.quality);
    if IsEmpty(image) || IsEmpty(comp) then None
    else
      var ela := ElaOf(image, s, jpeg);
      Some(Score(ela, MapPixels(ela, toGray), FileFormat(info)))
  }

  /** The gray plane the mask is cut from; it does not depend on `info`. */
  function GrayOf(image: Image, s: Settings, jpeg: (Image, nat) -> Image, toGray: Pixel -> int): (gray: Grid)
    requires Rectangular(image)
    requires Rectangular(jpeg(SwapAll(image), s.quality))
    ensures var comp := jpeg(SwapAll(image), s.quality);
      IsRect(gray, Min(|image|, |comp|), Min(Width(image), Width(comp)))
  {
    MapPixels(ElaOf(image, s, jpeg), toGray)
  }

  /** Score marks exactly the cells above the threshold, scores the marked
      share, and notes the format. */
  lemma ScoreMeaning(ela: Image, gray: Grid, fmt: Option<string>)
    requires Rectangular(gray) && !IsEmpty(gray)
    ensures var res := Score(ela, gray, fmt);
      var sens := SensitivityFor(fmt);
      MarksAbove(res.elaMask, gray, sens.threshold) &&
      res.elaConfidence == StepConfidence(MarkedShare(res.elaMask), sens.factor) &&
      res.note == (if IsJpeg(fmt) then JpegNote else LosslessNote)
  {
    var res := Score(ela, gray, fmt);
    RatioIsMarkedShare(res.elaMask);
    NoteAgreesWithSensitivity(fmt);
  }

  /** The mask marks exactly the cells whose gray difference exceeds the
      format's threshold, the score is the step function of the marked share,
      and the note follows the format. */
  lemma AnalyzeMeaning(image: Image, info: Info, s: Settings, jpeg: (Image, nat) -> Image, toGray: Pixel -> int)
    requires Rectangular(image)
    requires Rectangular(jpeg(SwapAll(image), s.quality))
    requires !IsEmpty(image) && !IsEmpty(jpeg(SwapAll(image), s.quality))
    ensures var res := Analyze(image, info, s, jpeg, toGray);
      var gray := GrayOf(image, s, jpeg, toGray);
      var fmt := FileFormat(info);
      res.Some? &&
      var res := res.value;
      MarksAbove(res.elaMask, gray, SensitivityFor(fmt).threshold) &&
      res.elaConfidence == StepConfidence(MarkedShare(res.elaMask), SensitivityFor(fmt).factor) &&
      res.note == (if IsJpeg(fmt) then JpegNote else LosslessNote)
  {
    var ela, gray, fmt := ElaOf(image, s, jpeg), GrayOf(image, s, jpeg, toGray), FileFormat(info);
    assert Analyze(image, info, s, jpeg, toGray) == Some(Score(ela, gray, fmt));
    ScoreMeaning(ela, gray, fmt);
  }

  /** A file tagged jpg or jpeg never scores above 0.2. */
  lemma JpegCapped(image: Image, info: Info, s: Settings, jpeg: (Image, nat) -> Image, toGray: Pixel -> int)
    requires Rectangular(image)
    requires Rectangular(jpeg(SwapAll(image), s.quality))
    requires IsJpeg(FileFormat(info))
    requires !IsEmpty(image) && !IsEmpty(jpeg(SwapAll(image), s.quality))
    ensures Analyze(image, info, s, jpeg, toGray).value.elaConfidence <= 0.2
    ensures Analyze(image, info, s, jpeg, toGray).value.note == JpegNote
  {
    NoteAgreesWithSensitivity(FileFormat(info));
  }

  /** On the same gray plane, the jpg/jpeg settings mark a subset of the cells
      the lossless settings mark, so their ratio and score are never larger. */
  lemma JpegScoreBelowLossless(ela: Image, gray: Grid, fmtJ: Option<string>, fmtL: Option<string>)
    requires Rectangular(gray) && !IsEmpty(gray)
    requires IsJpeg(fmtJ) && !IsJpeg(fmtL)
    ensures var j, l := Score(ela, gray, fmtJ), Score(ela, gray, fmtL);
      (forall r, c :: 0 <= r < |gray| && 0 <= c < |gray[r]| ==> j.elaMask[r][c] <= l.elaMask[r][c]) &&
      Ratio(j.elaMask) <= Ratio(l.elaMask) &&
      j.elaConfidence <= l.elaConfidence
  {
    var j, l := Score(ela, gray, fmtJ), Score(ela, gray, fmtL);
    assert j.elaMask == ThresholdMask(gray, 50);
    assert l.elaMask == ThresholdMask(gray, 30);
    ThresholdAntitone(gray, 30, 50);
    RatioMonotone(j.elaMask, l.elaMask);
    StepMonotone(Ratio(j.elaMask), Ratio(l.elaMask), 0.2);
    StepFactorMonotone(Ratio(l.elaMask), 0.2, 1.0);
  }

  /** For the same image, a jpg/jpeg tag marks a subset of the cells another tag
      marks, so its ratio and its score are never larger. */
  lemma JpegNeverAboveLossless(image: Image, infoJ: Info, infoL: Info, s: Settings,
                               jpeg: (Image, nat) -> Image, toGray: Pixel -> int)
    requires Rectangular(image)
    requires Rectangular(jpeg(SwapAll(image), s.quality))
    requires IsJpeg(FileFormat(infoJ)) && !IsJpeg(FileFormat(infoL))
    requires !IsEmpty(image) && !IsEmpty(jpeg(SwapAll(image), s.quality))
    ensures var j := Analyze(image, infoJ, s, jpeg, toGray);
      var l := Analyze(image, infoL, s, jpeg, toGray);
      l.Some? &&
      (forall r, c :: 0 <= r < |j.value.elaMask| && 0 <= c < |j.value.elaMask[r]| ==>
        j.value.elaMask[r][c] <= l.value.elaMask[r][c]) &&
      Ratio(j.value.elaMask) <= Ratio(l.value.elaMask) &&
      j.value.elaConfidence <= l.value.elaConfidence
  {
    var ela := ElaOf(image, s, jpeg);
    var gray := MapPixels(ela, toGray);
    assert Analyze(image, infoJ, s, jpeg, toGray) == Some(Score(ela, gray, FileFormat(infoJ)));
    assert Analyze(image, infoL, s, jpeg, toGray) == Some(Score(ela, gray, FileFormat(infoL)));
    JpegScoreBelowLossless(ela, gray, FileFormat(infoJ), FileFormat(infoL));
  }

  /** A plane of zeros scores 0 and marks nothing. */
  lemma ZeroGrayScoresZero(ela: Image, gray: Grid, fmt: Option<string>)
    requires Rectangular(gray) && !IsEmpty(gray)
    requires forall r, c :: 0 <= r < |gray| && 0 <= c < |gray[r]| ==> gray[r][c] == 0
    ensures var res := Score(ela, gray, fmt);
      (forall r, c :: 0 <= r < |gray| && 0 <= c < |gray[r]| ==> res.elaMask[r][c] == 0) &&
      res.elaConfidence == 0.0
  {
    var sens := SensitivityFor(fmt);
    var mask := ThresholdMask(gray, sens.threshold);
    assert Score(ela, gray, fmt).elaMask == mask;
    forall r, c | 0 <= r < |mask| && 0 <= c < |mask[r]|
      ensures mask[r][c] == 0
    {
      assert gray[r][c] <= sens.threshold;
    }
    NoneMarked(mask);
    RatioIsMarkedShare(mask);
    assert Ratio(mask) == 0.0;
  }

  /** When recompression reproduces the image on the common area, every
      difference pixel is black. */
  lemma FaithfulRecompressionBlack(image: Image, s: Settings, jpeg: (Image, nat) -> Image)
    requires Rectangular(image)
    requires Rectangular(jpeg(SwapAll(image), s.quality))
    requires var rgb, comp := SwapAll(image), jpeg(SwapAll(image), s.quality);
      forall r, c :: 0 <= r < Min(|rgb|, |comp|) && 0 <= c < Min(Width(rgb), Width(comp)) ==>
        rgb[r][c] == comp[r][c]
    ensures var ela := ElaOf(image, s, jpeg);
      forall r, c :: 0 <= r < |ela| && 0 <= c < |ela[r]| ==> ela[r][c] == Black
  {
    var rgb, comp := SwapAll(image), jpeg(SwapAll(image), s.quality);
    var raw := ElaImage(rgb, comp, s.scale);
    var ela := ElaOf(image, s, jpeg);
    forall r, c | 0 <= r < |ela| && 0 <= c < |ela[r]|
      ensures ela[r][c] == Black
    {
      assert raw[r][c] == Black;
      assert ela[r][c] == Swap(raw[r][c]);
    }
  }

  /** When recompression reproduces the image on the common area and the gray
      conversion maps black to 0, nothing is marked and the score is 0. */
  lemma FaithfulRecompressionScoresZero(image: Image, info: Info, s: Settings,
                                        jpeg: (Image, nat) -> Image, toGray: Pixel -> int)
    requires Rectangular(image)
    requires Rectangular(jpeg(SwapAll(image), s.quality))
    requires toGray(Black) == 0
    requires var rgb, comp := SwapAll(image), jpeg(SwapAll(image), s.quality);
      forall r, c :: 0 <= r < Min(|rgb|, |comp|) && 0 <= c < Min(Width(rgb), Width(comp)) ==>
        rgb[r][c] == comp[r][c]
    requires !IsEmpty(image) && !IsEmpty(jpeg(SwapAll(image), s.quality))
    ensures var res := Analyze(image, info, s, jpeg, toGray).value;
      (forall r, c :: 0 <= r < |res.elaMask| && 0 <= c < |res.elaMask[r]| ==> res.elaMask[r][c] == 0) &&
      res.elaConfidence == 0.0
  {
    var ela := ElaOf(image, s, jpeg);
    var gray := MapPixels(ela, toGray);
    FaithfulRecompressionBlack(image, s, jpeg);
    assert forall r, c :: 0 <= r < |gray| && 0 <= c < |gray[r]| ==> gray[r][c] == toGray(ela[r][c]);
    ZeroGrayScoresZero(ela, gray, FileFormat(info));
  }

  lemma NoneMarked(mask: Grid)
    requires forall r, c :: 0 <= r < |mask| && 0 <= c < |mask[r]| ==> mask[r][c] == 0
    ensures GridCount(mask, 255) == 0
  {
    if |mask| > 0 {
      NoneMarked(mask[..|mask| - 1]);
      NoneMarkedRow(mask[|mask| - 1]);
    }
  }

  lemma NoneMarkedRow(row: seq<int>)
    requires forall c :: 0 <= c < |row| ==> row[c] == 0
    ensures RowCount(row, 255) == 0
  {
  }

  /** The result dictionary. The score is stored under "ela_confidence"; there
      is no "confidence" entry. */
  function ToDict(res: CompressionResult): (d: Dict)
    ensures "confidence" !in d
    ensures "ela_confidence" in d && d["ela_confidence"] == Real(res.elaConfidence)
    ensures "ela_mask" in d && d["ela_mask"] == Plane(res.elaMask)
    ensures "ela_image" in d && d["ela_image"] == Picture(res.elaImage)
  {
    map["ela_image" := Picture(res.elaImage), "ela_mask" := Plane(res.elaMask),
        "ela_confidence" := Real(res.elaConfidence), "note" := Str(res.note)]
  }
}
