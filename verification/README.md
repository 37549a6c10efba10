# Image forgery detector: a verified model of the scoring core

This project is a Dafny model of the scoring core of a small image-forgery
detector written in Python. It covers three analyzers and the orchestrator that
fuses their scores:

- **Cloning** (`CloningAnalyzer.analyze`): the block-duplication (copy-move)
  detector.
  - It tiles the grayscale plane into whole `bs × bs` blocks and keys each block
    by a descriptor.
  - It groups the blocks by key in first-seen order.
  - Every block whose key another block shares is counted and painted 255 in a
    mask.
  - The score is `min(1, count / 20)`.
- **Compression** (`CompressionAnalyzer.analyze`): error level analysis.
  - It derives a format tag from the file extension.
  - It recompresses the image and takes the scaled, clipped channel difference
    over the common area.
  - It converts the difference to gray and thresholds it strictly.
  - The share of marked cells goes through a four-step score, scaled by a format
    factor.
- **Metadata** (`MetadataAnalyzer`): the EXIF provenance classifier.
  - It lower-cases the Software, Model and Make tags.
  - It searches them for two fixed keyword lists, which gives two independent
    flags.
  - A first-match ladder turns the flags into a confidence of 1.0, 0.9, 0.2 or
    0.0 and a source label.
  - A missing path or a failed read falls back to 0.0.
- **Detector** (`ImageForgeryDetector._analyze`, `analyze_from_path`,
  `analyze_from_array`): runs the analyzers, reads each score out of the
  analyzer's result dictionary, fuses them as
  `min(1.0, 0.6 c + 0.3 e + 0.4 m)`, and copies the outputs into the result.

The analyzers' results are modelled twice:
- as typed records;
- as string-keyed dictionaries (`Analyzer.Dict`).

The orchestrator's `dict.get` lookups therefore behave as in the code, including
the lookup of a key the compression result does not have.

The library steps are function-valued parameters:
- the B,G,R to gray conversion of one pixel (`toGray`);
- the JPEG save and reload at a quality (`jpeg`);
- the block descriptor `(int(mean), int(std))` (`describe`);
- the EXIF read and decoding (`readExif`), which gives the three decoded tags or
  an error message.

Because `describe` is a function, identical blocks get identical keys.

Modules, one per file:
- `Grids`: pixels, grids, sums and counts.
- `Analyzer`: the `info` argument and the result dictionaries.
- `Text`: ASCII lower-casing, substring search, `os.path.splitext` and
  `str.replace`.
- `Cloning`, `Compression`, `Metadata`, `Detector`: one per source module.

## Model

| member | source | states |
|---|---|---|
| Analyzer.FilepathOf | src/analyzers/metadata_analyzer.py:32-33 | a path is used exactly when `info` is a dictionary whose "filepath" entry is present and non-empty |
| Analyzer.Get | src/core/image_forgery_detector.py:47-51 | `d.get(key)` is present exactly when the key is, and then holds the stored value |
| Analyzer.GetScore | src/core/image_forgery_detector.py:39-41 | `d.get(key, 0.0)` reads a missing key as 0.0 and a stored number as itself |
| Grids.MapPixels | src/analyzers/cloning_analyzer.py:24 | the gray conversion keeps the image's shape |
| Grids.SwapAll | src/analyzers/compression_analyzer.py:28 | the BGR to RGB conversion keeps the image's shape |
| Grids.SwapAllTwice | src/analyzers/compression_analyzer.py:28-48 | converting BGR to RGB and back gives the image back |
| Text.ToLower | src/analyzers/metadata_analyzer.py:38-40 | `str.lower()` keeps the length, lowers each character, and leaves no upper-case ASCII letter |
| Text.LowerIdempotent | src/analyzers/metadata_analyzer.py:38-40 | lower-casing an already lower-cased tag changes nothing |
| Text.Occurs | src/analyzers/metadata_analyzer.py:48 | `k in s` holds for the empty `k`, and only when `k` is no longer than `s` |
| Text.OccursIff | src/analyzers/metadata_analyzer.py:48 | the scan for `k in s` succeeds exactly when `k` occurs at some index of `s` |
| Text.OccursInLowerIff | src/analyzers/metadata_analyzer.py:38-48 | `k` is found in the lower-cased text exactly when some slice of the raw text lower-cases to `k` |
| Text.LastIndexOf | src/analyzers/compression_analyzer.py:24 | the `rfind` inside `os.path.splitext`: -1 or an index holding `ch`, with no `ch` after it |
| Text.SplitExt | src/analyzers/compression_analyzer.py:24 | `os.path.splitext(p)[1]` is empty or starts with a dot |
| Text.SplitExtShape | src/analyzers/compression_analyzer.py:24 | the extension is empty, or a suffix of the path that starts with its only dot and holds no slash |
| Text.SplitExtOfJoin | src/analyzers/compression_analyzer.py:24 | a path `dir/stem.ext` (stem not all dots, ext dot-free) splits back into `.ext` |
| Text.RemoveAll | src/analyzers/compression_analyzer.py:25 | the result holds no `ch`, is no longer than the input, and is the input when the input held no `ch` |
| Text.RemoveAllKeeps | src/analyzers/compression_analyzer.py:25 | every `ch` is removed and every other character is kept as often as it occurred |
| Text.RemoveAllAppend | src/analyzers/compression_analyzer.py:25 | removal from a concatenation is the concatenation of the removals, so the kept characters stay in order |
| Cloning.RangeMembers | src/analyzers/cloning_analyzer.py:34 | `range(a, stop, s)` holds exactly the values from `a` below `stop` at whole steps |
| Cloning.PyRange | src/analyzers/cloning_analyzer.py:34-35 | `range(start, stop, step)` is empty exactly when `stop <= start` |
| Cloning.Starts | src/analyzers/cloning_analyzer.py:34-35 | an axis has no block start exactly when it is shorter than one block |
| Cloning.ScanOrder | src/analyzers/cloning_analyzer.py:34-35 | the nested loops visit nothing exactly when either axis has no start |
| Cloning.Origins | src/analyzers/cloning_analyzer.py:34-35 | no block is visited exactly when the image is shorter or narrower than one block |
| Cloning.StartsCount | src/analyzers/cloning_analyzer.py:34-35 | an axis of length `n` has `n / bs` block starts; the remainder is skipped |
| Cloning.OriginsExactly | src/analyzers/cloning_analyzer.py:34-35 | the visited origins are exactly the block-aligned points whose whole block fits in the image |
| Cloning.OriginsCount | src/analyzers/cloning_analyzer.py:34-35 | there are `(h / bs) * (w / bs)` origins, each visited once |
| Cloning.Zeros | src/analyzers/cloning_analyzer.py:31 | `np.zeros_like(gray)` has the gray plane's shape and every cell 0 |
| Cloning.Block | src/analyzers/cloning_analyzer.py:36 | for a block that fits, `gray[y:y+bs, x:x+bs]` is the bs by bs window at (x, y) |
| Cloning.Entries | src/analyzers/cloning_analyzer.py:36-38 | one descriptor entry per visited origin, in visiting order |
| Cloning.Insert | src/analyzers/cloning_analyzer.py:39 | `hashes[desc].append((x, y))` adds at most one group, and a new key's group `[(x, y)]` goes at the end, in insertion order |
| Cloning.GroupBy | src/analyzers/cloning_analyzer.py:29-39 | the dictionary after the scan has no more groups than there were blocks |
| Cloning.GroupByFinds | src/analyzers/cloning_analyzer.py:39 | after the scan, each descriptor lists exactly the origins of its blocks, in scan order |
| Cloning.DuplicationsNeverOne | src/analyzers/cloning_analyzer.py:42-45 | `duplications` never holds exactly one origin, because only groups of two or more are added |
| Cloning.SharedMembers | src/analyzers/cloning_analyzer.py:43-45 | an origin is duplicated exactly when the block there has a descriptor that occurs at least twice |
| Cloning.DuplicationsAreShared | src/analyzers/cloning_analyzer.py:42-45 | as a multiset, `duplications` is exactly the blocks whose descriptor another block shares |
| Cloning.SharedNeverOne | src/analyzers/cloning_analyzer.py:44 | there is never exactly one duplicated block |
| Cloning.DuplicationsOrderFree | src/analyzers/cloning_analyzer.py:43-45 | any permutation of the descriptor groups gives the same multiset of duplicated blocks |
| Cloning.Paint | src/analyzers/cloning_analyzer.py:47 | painting one block keeps the mask's shape |
| Cloning.PaintAll | src/analyzers/cloning_analyzer.py:46-47 | painting all duplicated blocks keeps the mask's shape |
| Cloning.PaintAllAt | src/analyzers/cloning_analyzer.py:46-47 | after painting, a cell is 255 if some painted block covers it, and is unchanged otherwise |
| Cloning.Confidence | src/analyzers/cloning_analyzer.py:50 | the score is in [0, 1], is 1 from 20 duplicated blocks on and below 1 under 20, and is 0 exactly when none are duplicated |
| Cloning.ConfidenceMonotone | src/analyzers/cloning_analyzer.py:50 | more duplicated blocks never lower the score |
| Cloning.Detect | src/analyzers/cloning_analyzer.py:24-50 | the mask has the gray plane's shape and the score lies in [0, 1] |
| Cloning.Analyze | src/analyzers/cloning_analyzer.py:22-56 | the mask has the image's shape and the score lies in [0, 1] |
| Cloning.ToDict | src/analyzers/cloning_analyzer.py:52-56 | the dictionary holds the mask, the count and the score under their three keys |
| Cloning.CountIsShared | src/analyzers/cloning_analyzer.py:38-54 | the count is the number of blocks whose descriptor another block shares; it is never 1 and never above the number of whole blocks |
| Cloning.GroupOrderIrrelevant | src/analyzers/cloning_analyzer.py:43-47 | visiting the groups in any order gives the same count and the same mask |
| Cloning.SharedAreOrigins | src/analyzers/cloning_analyzer.py:34-45 | every duplicated block is a whole, aligned block |
| Cloning.MaskIsSharedBlocks | src/analyzers/cloning_analyzer.py:31-47 | a mask cell is 255 exactly when the aligned block containing it is duplicated, and 0 otherwise; cells of the edge strips stay 0 |
| Cloning.SmallImageHasNoBlocks | src/analyzers/cloning_analyzer.py:34-50 | an image smaller than one block in either direction gets count 0, score 0 and an all-zero mask |
| Cloning.IdenticalBlocksShared | src/analyzers/cloning_analyzer.py:36-45 | two different whole blocks with equal pixels are both duplicated |
| Cloning.IdenticalBlocksFlagged | src/analyzers/cloning_analyzer.py:36-47 | two different whole blocks with equal pixels are both counted, the count is at least 2, and every cell of either is 255 |
| Cloning.SharedBlockPainted | src/analyzers/cloning_analyzer.py:46-47 | every cell of a duplicated block is 255 |
| Compression.FileFormat | src/analyzers/compression_analyzer.py:22-25 | there is a tag exactly when `info` carries a truthy file path, and the tag has no dot |
| Compression.FileFormatOfPath | src/analyzers/compression_analyzer.py:24-25 | the tag of `dir/stem.ext` is the lower-cased `ext` |
| Compression.UpperCaseJpgPath | src/analyzers/compression_analyzer.py:24-25 | `"a/b.JPG"` is tagged `"jpg"` |
| Compression.SensitivityFor | src/analyzers/compression_analyzer.py:54-59 | threshold 50 with factor 0.2 exactly for jpg/jpeg, threshold 30 with factor 1.0 otherwise (None included) |
| Compression.NoteFor | src/analyzers/compression_analyzer.py:83-86 | the note is one of the two fixed notes |
| Compression.NoteAgreesWithSensitivity | src/analyzers/compression_analyzer.py:53-86 | the membership test for the note picks the same branch as the comparison chain for threshold and factor |
| Compression.ElaChannel | src/analyzers/compression_analyzer.py:44-47 | a channel of the scaled difference lies in [0, 255], is 0 exactly when the values agree (or the scale is not positive), and saturates at 255 |
| Compression.ElaPixel | src/analyzers/compression_analyzer.py:44-47 | every channel of an ELA pixel is a byte |
| Compression.ElaPixelBlack | src/analyzers/compression_analyzer.py:44-47 | an ELA pixel has byte channels and, for a positive scale, is black exactly when the two pixels agree |
| Compression.ElaImage | src/analyzers/compression_analyzer.py:42-47 | the difference image covers exactly the `min_h × min_w` common area, has byte channels, and is black exactly where the two images agree |
| Compression.ElaOf | src/analyzers/compression_analyzer.py:42-48 | the B,G,R difference image has the shape of the common area |
| Compression.GrayOf | src/analyzers/compression_analyzer.py:48-51 | the gray plane has the shape of the common area |
| Compression.ThresholdMask | src/analyzers/compression_analyzer.py:62 | the mask has the gray plane's shape, every cell is 0 or 255, and a cell is 255 exactly when the gray value is strictly above the threshold |
| Compression.ThresholdAntitone | src/analyzers/compression_analyzer.py:54-62 | a higher threshold marks a subset of the cells |
| Compression.RatioBounds | src/analyzers/compression_analyzer.py:65 | for a 0/255 mask the ratio lies in [0, 1] |
| Compression.Ratio | src/analyzers/compression_analyzer.py:65 | the ratio is 0 exactly when the mask sums to 0 |
| Compression.RatioIsMarkedShare | src/analyzers/compression_analyzer.py:65 | the ratio is the number of marked cells over the number of cells (MarkedShare) |
| Compression.RatioMonotone | src/analyzers/compression_analyzer.py:65 | a pointwise smaller mask has no larger ratio |
| Compression.StepConfidence | src/analyzers/compression_analyzer.py:68-75 | the score is one of 0, 0.3f, 0.6f, f; it lies in [0, f]; it is 0 exactly below ratio 0.002; it is f from 0.05 on |
| Compression.StepMonotone | src/analyzers/compression_analyzer.py:68-75 | a larger ratio never lowers the score |
| Compression.StepFactorMonotone | src/analyzers/compression_analyzer.py:56-75 | a larger factor never lowers the score |
| Compression.Score | src/analyzers/compression_analyzer.py:53-86 | the mask has the gray plane's shape and is 0/255; the score lies between 0 and the format factor |
| Compression.ScoreMeaning | src/analyzers/compression_analyzer.py:53-86 | the mask marks exactly the cells above the format's threshold, the score is the step function of the marked share, and the note follows the format |
| Compression.Analyze | src/analyzers/compression_analyzer.py:20-88 | a result exists exactly when the image and the common area are non-empty; mask and ELA image have the common area's shape; the score is at most the format factor |
| Compression.AnalyzeMeaning | src/analyzers/compression_analyzer.py:51-86 | on the analyzer's own gray plane: threshold, marked share, score and note as in ScoreMeaning |
| Compression.JpegCapped | src/analyzers/compression_analyzer.py:54-86 | a jpg/jpeg tag never scores above 0.2 and gets the JPEG note |
| Compression.JpegScoreBelowLossless | src/analyzers/compression_analyzer.py:54-75 | on one gray plane, the jpg/jpeg mask is contained in the other mask, and its ratio and score are no larger |
| Compression.JpegNeverAboveLossless | src/analyzers/compression_analyzer.py:20-75 | for one image, a jpg/jpeg tag gives a contained mask, no larger ratio and no larger score than any other tag |
| Compression.ZeroGrayScoresZero | src/analyzers/compression_analyzer.py:62-69 | an all-zero gray plane marks nothing and scores 0 |
| Compression.FaithfulRecompressionBlack | src/analyzers/compression_analyzer.py:42-48 | when recompression reproduces the common area, every ELA pixel is black |
| Compression.FaithfulRecompressionScoresZero | src/analyzers/compression_analyzer.py:42-69 | when recompression reproduces the common area and black is gray 0, nothing is marked and the score is 0 |
| Compression.ToDict | src/analyzers/compression_analyzer.py:77-86 | the score is stored under "ela_confidence" and there is no "confidence" entry |
| Metadata.AnyKeyword | src/analyzers/metadata_analyzer.py:47-50 | the search loop finds a keyword exactly when some keyword of the list occurs in one of the three tags |
| Metadata.Hits | src/analyzers/metadata_analyzer.py:48 | the empty keyword always hits, and a keyword longer than all three tags never does |
| Metadata.Lowered | src/analyzers/metadata_analyzer.py:38-40 | the three tags are each lower-cased |
| Metadata.OrUnknown | src/analyzers/metadata_analyzer.py:42-44 | `value or "Desconocido"` is never empty, and is the placeholder exactly when the value is empty or already the placeholder |
| Metadata.UnknownIffEmpty | src/analyzers/metadata_analyzer.py:42-44 | a lower-cased tag is reported as "Desconocido" exactly when it is empty, and as itself otherwise |
| Metadata.Ladder | src/analyzers/metadata_analyzer.py:58-69 | 1.0 exactly on an AI hit, 0.9 exactly on an editor hit alone, 0.2 exactly when neither hits but a tag is non-empty, 0.0 otherwise; the label matches the level |
| Metadata.Analyze | src/analyzers/metadata_analyzer.py:30-81 | the confidence is one of 0.0, 0.2, 0.9, 1.0; without a path and on a read error it is 0.0 with both flags false; the tags are examined exactly when a path is read successfully |
| Metadata.NoPathReadsNothing | src/analyzers/metadata_analyzer.py:32-73 | without a path, the result does not depend on the EXIF reader and the confidence is 0.0 |
| Metadata.FlagsMeaning | src/analyzers/metadata_analyzer.py:47-55 | each flag holds exactly when one of its own keywords occurs in a lower-cased tag, independently of the other list |
| Metadata.LadderOrder | src/analyzers/metadata_analyzer.py:58-69 | an AI hit gives 1.0, an editor hit alone gives 0.9, and otherwise 0.2 exactly when some raw tag is non-empty |
| Metadata.ReportedTags | src/analyzers/metadata_analyzer.py:38-44 | each reported tag is "Desconocido" exactly when the raw tag is empty |
| Metadata.MatchIgnoresCase | src/analyzers/metadata_analyzer.py:38-48 | a keyword hits exactly when some slice of a raw tag, in any case, lower-cases to it |
| Metadata.KeywordsAreLowerCase | src/analyzers/metadata_analyzer.py:13-23 | every keyword of both lists is its own lower-case form |
| Metadata.BothFlags | src/analyzers/metadata_analyzer.py:47-60 | software "DALLE Paint" raises both flags, and the AI verdict (1.0) wins |
| Metadata.ToDict | src/analyzers/metadata_analyzer.py:60-81 | flags and confidence are always present; there is a note exactly without a path and an error message exactly on a failed read; there is a source label when the tags were examined |
| Detector.Fuse | src/core/image_forgery_detector.py:43 | the fused score is at most 1, non-negative for non-negative scores, and either 1 or the weighted sum |
| Detector.FuseMonotone | src/core/image_forgery_detector.py:43 | a higher score from any analyzer never lowers the fused score |
| Detector.Assemble | src/core/image_forgery_detector.py:39-55 | the result copies the looked-up entries, keeps the metadata dictionary, and fuses the looked-up scores |
| Detector.AnalyzeImage | src/core/image_forgery_detector.py:33-59 | a run raises exactly when the image or its recompression is empty; a completed run has a fused score in [0, 1] |
| Detector.MetadataPassedOn | src/core/image_forgery_detector.py:37-53 | the metadata dictionary is placed in the result as it is |
| Detector.AnalyzeFromPath | src/core/image_forgery_detector.py:20-25 | raises as `_analyze` does; given an image, the metadata has a note exactly when the path is empty (in the program `cv2.imread("")` gives no image, so that run raises) |
| Detector.AnalyzeFromArray | src/core/image_forgery_detector.py:27-31 | raises as `_analyze` does; the metadata carries the no-path note and confidence 0.0 |
| Detector.OutputsCopied | src/core/image_forgery_detector.py:45-55 | mask, count, cloning score, ELA image, ELA mask and metadata are the analyzers' own outputs |
| Detector.ElaScoreNeverRead | src/core/image_forgery_detector.py:40-43 | the ELA score reads as 0.0, and the fused score is `min(1, 0.6 c + 0.4 m)` |
| Detector.CompressionSeesNoFormat | src/core/image_forgery_detector.py:36 | the ELA mask is always cut at the lossless threshold 30, whatever the file is called |
| Detector.FromArrayCapped | src/core/image_forgery_detector.py:27-43 | without a path the metadata score is 0 and the fused score is at most 0.6 |
| Detector.MetadataCertaintyFloor | src/core/image_forgery_detector.py:41-43 | a metadata score of 1.0 lifts the fused score to at least 0.4, and to 1.0 when the cloning score is 1.0 too |
| Detector.ElaScoreDroppedExample | src/core/image_forgery_detector.py:36-40 | for a black pixel that recompresses to white, the compression analyzer scores 1.0 but the result reports 0.0 |
| Detector.AnalyzeIntended | src/core/image_forgery_detector.py:33-59 | the corrected orchestrator raises exactly when `_analyze` does, and its fused score lies in [0, 1] |
| Detector.IntendedUsesElaScore | src/core/image_forgery_detector.py:40-43 | the corrected orchestrator reports and fuses the compression analyzer's own score |
| Detector.IntendedJpegCapped | src/core/image_forgery_detector.py:36 | with the path passed on, a jpg/jpeg file gets threshold 50 and an ELA score of at most 0.2 |
| Detector.IntendedCountsExample | src/core/image_forgery_detector.py:40-43 | on the black-to-white example, the corrected orchestrator reports ELA score 1.0 and a fused score of at least 0.3 |

## Left out

- Image decoding (`cv2.imread`), the JPEG encoder and decoder, the gray conversion, the block mean and standard deviation, and EXIF parsing with UTF-8 decoding are library code. Each is a function parameter. Two things are assumed about them. The JPEG round trip returns a rectangular array, as any numpy array is; every Compression and Detector entry point requires it. Compression.FaithfulRecompressionScoresZero also requires that `toGray` maps a black pixel to 0, as OpenCV's weighted sum does.
- `analyze_from_path` with an unreadable file: `cv2.imread` then returns no image. That case is I/O and is not modelled. The model takes the decoded image as an argument.
- Floating point is not modelled. Scores, the ratio and the fusion use exact reals. For example, `0.3 * 0.2` is exactly 0.06 here.
- Integer widths are not modelled. The `uint8` and `int32` arrays are unbounded integers; every value the code stores stays within those ranges.
- Lower-casing covers the ASCII letters only; Python's Unicode `str.lower()` does more.
- `os.path.splitext` is modelled with POSIX separators only.
- The preprocessing analyzer, the report generator, the ORB cloning placeholder, the web app and the validation scripts are not part of this model. The preprocessing output and the report are dropped from `AnalysisResult`.
- The preprocessing analyzer runs first in `_analyze` and could raise on its own; that is not modelled.
- Cloning.Detect: requires a positive block size, because Python's `range` raises on a zero step.
- Cloning.Analyze: accepts an empty image, on which the code's gray conversion would raise. The orchestrator's model raises on an empty image before any analyzer result is used.
- Choices the code makes that the model follows as written:
  - The fusion weights are 0.6, 0.3 and 0.4. They sum to 1.3, so only the `min(1.0, ...)` keeps the fused score in [0, 1].
  - The metadata ladder's two lower levels are 0.2 and 0.0.
  - The block descriptor truncates the mean and standard deviation with `int()`. Here that is only a property of `describe`.
  - `analyze_from_path` does not check whether `cv2.imread` returned an image before analysing it.
  - Without a file path, the metadata analyzer reads nothing; it has no path for an in-memory image.

## Findings

| source | as written | input that shows it | evidently intended | confidence | as-written member | corrected member |
|---|---|---|---|---|---|---|
| src/core/image_forgery_detector.py:40 | `comp.get("confidence", 0.0)` reads a key the compression result never has, so the ELA score is always 0.0 | a one-pixel black image whose recompression is white: the compression analyzer scores 1.0, the result reports 0.0 | read the score under "ela_confidence" | not executed | Detector.ElaScoreDroppedExample | Detector.IntendedUsesElaScore |
| src/core/image_forgery_detector.py:36 | `self.comp.analyze(img_bgr)` drops `info`, so the format-dependent threshold and factor are never used | any image loaded from a path ending in ".jpg": mask cut at 30 with factor 1.0 instead of 50 with 0.2 | pass `info=info` to the compression analyzer | not executed | Detector.CompressionSeesNoFormat | Detector.IntendedJpegCapped |
