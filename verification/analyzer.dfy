/**
 * What every analyzer shares: the optional `info` argument of `analyze(image, info)`,
 * and the string-keyed dictionary each analyzer returns, together with the
 * `dict.get(key, default)` lookups the orchestrator performs on it.
 */
module Analyzer {
  import opened Grids

  datatype Option<+T> = None | Some(value: T)

  /** The `info` argument: absent (or not a dictionary), or a dictionary whose
      "filepath" entry may be missing. */
  datatype Info = NoInfo | InfoDict(filepath: Option<string>)

  /** The file path an analyzer may use: only a dictionary `info` with a truthy
      (present and non-empty) "filepath" entry yields one. */
  function FilepathOf(info: Info): (p: Option<string>)
    ensures p.Some? <==> info.InfoDict? && info.filepath.Some? && info.filepath.value != ""
    ensures p.Some? ==> p.value != "" && info == InfoDict(p)
  {
    match info
    case NoInfo => None
    case InfoDict(fp) => if fp.Some? && fp.value != "" then fp else None
  }

  /** The values that appear in the analyzers' result dictionaries. */
  datatype Value =
    | Real(r: real)
    | Int(n: int)
    | Bool(b: bool)
    | Str(s: string)
    | Plane(g: Grid)
    | Picture(img: Image)

  type Dict = map<string, Value>

  /** `d.get(key)`: the stored value, or None when the key is missing. */
  function Get(d: Dict, key: string): (v: Option<Value>)
    ensures v.Some? <==> key in d
    ensures key in d ==> v.value == d[key]
  {
    if key in d then Some(d[key]) else None
  }

  /** `d.get(key, 0.0)` used as a number: a missing key reads as 0.0. */
  function GetScore(d: Dict, key: string): (x: real)
    ensures key !in d ==> x == 0.0
    ensures key in d && d[key].Real? ==> x == d[key].r
  {
    if key in d && d[key].Real? then d[key].r else 0.0
  }
}
