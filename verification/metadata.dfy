/**
 * The EXIF provenance classifier.
 *
 * Given a file path, the Software, Model and Make tags are read (a library
 * step, taken here as a parameter that either yields the three decoded
 * strings, "" for a missing tag, or fails with a message), lower-cased, and
 * searched for two fixed keyword lists. A first-match ladder turns the two
 * flags and the presence of any tag into a confidence and a source label.
 */
module Metadata {
  import opened Analyzer
  import opened Text

  /** Names that point to generative tools. */
  const AiKeywords: seq<string> := [
    "midjourney", "dalle", "openai", "stable diffusion",
    "dreamstudio", "leonardo ai", "runway", "bing image creator",
    "ai generated", "artbreeder", "craiyon", "deepai"
  ]

  /** Names of common editing programs. */
  const EditKeywords: seq<string> := [
    "photoshop", "gimp", "lightroom", "snapseed",
    "canva", "pixlr", "paint", "adobe", "corel"
  ]

  const Unknown: string := "Desconocido"
  const AiSource: string := "Imagen generada o modificada por IA"
  const EditedSource: string := "Imagen editada en software de edición"
  const DeviceSource: string := "Imagen probablemente original (dispositivo físico)"
  const NoDataSource: string := "Sin datos EXIF válidos"
  const NoPathNote: string := "No se proporcionó filepath, no se puede analizar EXIF"

  /** What reading the EXIF block of a file gives: the decoded Software, Model
      and Make tags ("" when a tag is missing), or the message of the
      exception the reader raised. */
  datatype ExifRead = Read(software: string, model: string, make: string) | ReadError(message: string)

  /** The three tags after lower-casing. */
  datatype Fields = Fields(software: string, model: string, make: string)

  /** How far the analysis got: the tags were examined, there was no file
      path, or reading failed. */
  datatype Outcome =
    | Examined(software: string, cameraModel: string, make: string, source: string)
    | NoPath
    | Failed(error: string)

  datatype MetadataResult = MetadataResult(outcome: Outcome, aiFlag: bool, editedFlag: bool, confidence: real)

  // ---------------------------------------------------------------------------
  // Keyword search

  /** `keyword in software or keyword in model or keyword in make`. */
  predicate Hits(k: string, f: Fields): (hit: bool)
    ensures hit ==> |k| <= |f.software| || |k| <= |f.model| || |k| <= |f.make|
    ensures |k| == 0 ==> hit
  {
    Occurs(k, f.software) || Occurs(k, f.model) || Occurs(k, f.make)
  }

  /** The `for keyword in ...: if ...: flag = True; break` loop. */
  function AnyKeyword(kws: seq<string>, f: Fields): (found: bool)
    ensures found <==> exists i :: 0 <= i < |kws| && Hits(kws[i], f)
  {
    if |kws| == 0 then false
    else if Hits(kws[0], f) then true
    else
      var rest := AnyKeyword(kws[1..], f);
      assert forall i :: 1 <= i < |kws| ==> kws[i] == kws[1..][i - 1];
      rest
  }

  function Lowered(software: string, model: string, make: string): (f: Fields)
    ensures f.software == ToLower(software) && f.model == ToLower(model) && f.make == ToLower(make)
  {
    Fields(ToLower(software), ToLower(model), ToLower(make))
  }

  /** `value or "Desconocido"`. */
  function OrUnknown(s: string): (r: string)
    ensures r != ""
    ensures r == Unknown <==> s == "" || s == Unknown
  {
    if s == "" then Unknown else s
  }

  /** A lower-cased tag is reported as "Desconocido" exactly when it is empty:
      no lower-cased text can spell the capitalised placeholder. */
  lemma UnknownIffEmpty(raw: string)
    ensures OrUnknown(ToLower(raw)) == Unknown <==> ToLower(raw) == ""
    ensures ToLower(raw) != "" ==> OrUnknown(ToLower(raw)) == ToLower(raw)
  {
    if ToLower(raw) != "" {
      assert ToLower(raw)[0] == LowerChar(raw[0]) != 'D';
      assert Unknown[0] == 'D';
    }
  }

  // ---------------------------------------------------------------------------
  // The decision ladder

  datatype Verdict = Verdict(confidence: real, source: string)

  /** The label that goes with each confidence level. */
  function SourceFor(confidence: real): string
  {
    if confidence == 1.0 then AiSource
    else if confidence == 0.9 then EditedSource
    else if confidence == 0.2 then DeviceSource
    else NoDataSource
  }

  /** First match wins: an AI hit, then an editor hit, then any non-empty tag. */
  function Ladder(ai: bool, edited: bool, f: Fields): (v: Verdict)
    ensures v.confidence == 1.0 <==> ai
    ensures v.confidence == 0.9 <==> !ai && edited
    ensures v.confidence == 0.2 <==> !ai && !edited && (f.software != "" || f.model != "" || f.make != "")
    ensures v.confidence == 0.0 <==> !ai && !edited && f.software == "" && f.model == "" && f.make == ""
    ensures v.source == SourceFor(v.confidence)
  {
    if ai then Verdict(1.0, AiSource)
    else if edited then Verdict(0.9, EditedSource)
    else if f.software != "" || f.model != "" || f.make != "" then Verdict(0.2, DeviceSource)
    else Verdict(0.0, NoDataSource)
  }

  // ---------------------------------------------------------------------------
  // The analyzer

  /** `MetadataAnalyzer().analyze(image, info)`; the image is not used.
      `readExif` stands for loading and decoding the EXIF block of a file. */
  function Analyze(info: Info, readExif: string -> ExifRead): (res: MetadataResult)
    ensures res.confidence == 0.0 || res.confidence == 0.2 || res.confidence == 0.9 || res.confidence == 1.0
    ensures FilepathOf(info).None? ==> res == MetadataResult(NoPath, false, false, 0.0)
    ensures FilepathOf(info).Some? && readExif(FilepathOf(info).value).ReadError? ==>
      res == MetadataResult(Failed(readExif(FilepathOf(info).value).message), false, false, 0.0)
    ensures res.outcome.Examined? <==> FilepathOf(info).Some? && readExif(FilepathOf(info).value).Read?
    ensures res.outcome.Examined? ==> res.outcome.source == SourceFor(res.confidence)
  {
    match FilepathOf(info)
    case None => MetadataResult(NoPath, false, false, 0.0)
    case Some(path) =>
      match readExif(path)
      case ReadError(message) => MetadataResult(Failed(message), false, false, 0.0)
      case Read(software, model, make) =>
        var f := Lowered(software, model, make);
        var ai := AnyKeyword(AiKeywords, f);
        var edited := AnyKeyword(EditKeywords, f);
        var v := Ladder(ai, edited, f);
        MetadataResult(Examined(OrUnknown(f.software), OrUnknown(f.model), OrUnknown(f.make), v.source),
          ai, edited, v.confidence)
  }

  /** Without a file path no EXIF is read: the reader does not matter. */
  lemma NoPathReadsNothing(info: Info, readA: string -> ExifRead, readB: string -> ExifRead)
    requires FilepathOf(info).None?
    ensures Analyze(info, readA) == Analyze(info, readB)
    ensures Analyze(info, readA).confidence == 0.0
  {
  }

  /** The flags: each holds exactly when one of its keywords occurs in one of
      the lower-cased tags, independently of the other list. */
  lemma FlagsMeaning(path: string, readExif: string -> ExifRead)
    requires path != ""
    requires readExif(path).Read?
    ensures var e := readExif(path);
      var f := Lowered(e.software, e.model, e.make);
      var res := Analyze(InfoDict(Some(path)), readExif);
      (res.aiFlag <==> exists i :: 0 <= i < |AiKeywords| && Hits(AiKeywords[i], f)) &&
      (res.editedFlag <==> exists i :: 0 <= i < |EditKeywords| && Hits(EditKeywords[i], f))
  {
  }

  /** The ladder's order: an AI hit gives 1.0 even when an editor is also
      named, an editor hit alone gives 0.9, and otherwise any tag gives 0.2. */
  lemma LadderOrder(path: string, readExif: string -> ExifRead)
    requires path != ""
    requires readExif(path).Read?
    ensures var e := readExif(path);
      var res := Analyze(InfoDict(Some(path)), readExif);
      (res.aiFlag ==> res.confidence == 1.0) &&
      (!res.aiFlag && res.editedFlag ==> res.confidence == 0.9) &&
      (!res.aiFlag && !res.editedFlag ==>
        (res.confidence == 0.2 <==> e.software != "" || e.model != "" || e.make != ""))
  {
    var e := readExif(path);
    assert |ToLower(e.software)| == |e.software|;
    assert |ToLower(e.model)| == |e.model|;
    assert |ToLower(e.make)| == |e.make|;
  }

  /** Each reported tag is "Desconocido" exactly when the tag is empty. */
  lemma ReportedTags(path: string, readExif: string -> ExifRead)
    requires path != ""
    requires readExif(path).Read?
    ensures var e := readExif(path);
      var o := Analyze(InfoDict(Some(path)), readExif).outcome;
      (o.software == Unknown <==> e.software == "") &&
      (o.cameraModel == Unknown <==> e.model == "") &&
      (o.make == Unknown <==> e.make == "")
  {
    var e := readExif(path);
    UnknownIffEmpty(e.software);
    UnknownIffEmpty(e.model);
    UnknownIffEmpty(e.make);
    assert |ToLower(e.software)| == |e.software|;
    assert |ToLower(e.model)| == |e.model|;
    assert |ToLower(e.make)| == |e.make|;
  }

  /** A keyword is found in a lower-cased tag exactly when some slice of the raw
      tag, in any mix of cases, lower-cases to it. */
  lemma MatchIgnoresCase(k: string, software: string, model: string, make: string)
    ensures Hits(k, Lowered(software, model, make)) <==>
      (exists i :: OccursFoldedAt(k, software, i)) ||
      (exists i :: OccursFoldedAt(k, model, i)) ||
      (exists i :: OccursFoldedAt(k, make, i))
  {
    OccursInLowerIff(k, software);
    OccursInLowerIff(k, model);
    OccursInLowerIff(k, make);
  }

  /** Every keyword is already lower case, so it can be matched at all. */
  lemma KeywordsAreLowerCase()
    ensures forall i :: 0 <= i < |AiKeywords| ==> ToLower(AiKeywords[i]) == AiKeywords[i]
    ensures forall i :: 0 <= i < |EditKeywords| ==> ToLower(EditKeywords[i]) == EditKeywords[i]
  {
    forall i | 0 <= i < |AiKeywords|
      ensures ToLower(AiKeywords[i]) == AiKeywords[i]
    {
      LowerIdentity(AiKeywords[i]);
    }
    forall i | 0 <= i < |EditKeywords|
      ensures ToLower(EditKeywords[i]) == EditKeywords[i]
    {
      LowerIdentity(EditKeywords[i]);
    }
  }

  lemma LowerIdentity(s: string)
    requires forall i :: 0 <= i < |s| ==> !('A' <= s[i] <= 'Z')
    ensures ToLower(s) == s
  {
  }

  /** A tag naming both kinds of tool raises both flags, and the AI verdict wins. */
  lemma BothFlags(path: string, readExif: string -> ExifRead)
    requires path != ""
    requires readExif(path) == Read("DALLE Paint", "", "")
    ensures var res := Analyze(InfoDict(Some(path)), readExif);
      res.aiFlag && res.editedFlag && res.confidence == 1.0 &&
      res.outcome.source == AiSource
  {
    DallePaintHits();
  }

  lemma DallePaintHits()
    ensures Hits(AiKeywords[1], Lowered("DALLE Paint", "", ""))
    ensures Hits(EditKeywords[6], Lowered("DALLE Paint", "", ""))
  {
    DalleHit();
    PaintHit();
  }

  lemma DalleHit()
    ensures Occurs(AiKeywords[1], ToLower("DALLE Paint"))
  {
    var s := ToLower("DALLE Paint");
    assert s[0] == 'd' && s[1] == 'a' && s[2] == 'l' && s[3] == 'l' && s[4] == 'e';
    assert s[..5] == "dalle" == AiKeywords[1];
  }

  lemma PaintHit()
    ensures Occurs(EditKeywords[6], ToLower("DALLE Paint"))
  {
    var s := ToLower("DALLE Paint");
    assert s[6] == 'p' && s[7] == 'a' && s[8] == 'i' && s[9] == 'n' && s[10] == 't';
    assert s[6..11] == "paint" == EditKeywords[6];
    OccursIff("paint", s);
    assert OccursAt("paint", s, 6);
  }

  /** The result dictionary. Whatever happened, it carries both flags and the
      confidence. */
  function ToDict(res: MetadataResult): (d: Dict)
    ensures "ai_flag" in d && d["ai_flag"] == Bool(res.aiFlag)
    ensures "edited_flag" in d && d["edited_flag"] == Bool(res.editedFlag)
    ensures "confidence" in d && d["confidence"] == Real(res.confidence)
    ensures res.outcome.NoPath? ==> "note" in d && d["note"] == Str(NoPathNote)
    ensures res.outcome.Failed? ==> "error" in d && d["error"] == Str(res.outcome.error)
    ensures res.outcome.Examined? ==> "source" in d && "error" !in d
    ensures "note" in d <==> res.outcome.NoPath?
    ensures "error" in d <==> res.outcome.Failed?
  {
    var meta: Dict := match res.outcome
      case Examined(software, cameraModel, make, source) =>
        map["software" := Str(software), "camera_model" := Str(cameraModel), "make" := Str(make),
            "source" := Str(source)]
      case NoPath => map["note" := Str(NoPathNote)]
      case Failed(error) => map["error" := Str(error)];
    meta["ai_flag" := Bool(res.aiFlag)]["edited_flag" := Bool(res.editedFlag)]["confidence" := Real(res.confidence)]
  }
}
