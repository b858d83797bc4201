/** JSON values and the feature records that the other modules share. */
module FeatureData {
  import opened Wrappers

  datatype Json =
    | Null
    | Bool(flag: bool)
    | Number(num: real)
    | String(text: string)
    | Array(items: seq<Json>)
    | Object(fields: map<string, Json>)

  /** A `json.RawMessage`: absent, or one JSON value. */
  type Raw = Option<Json>

  // ---------------------------------------------------------------------
  // spec.LifecycleCommand and spec.MountEntry, both raw JSON

  predicate IsEmpty(raw: Raw) {
    raw.None? || raw.value.Null?
  }

  /** `AsString`; decoding `null` into a Go string succeeds and leaves it empty. */
  function AsString(raw: Raw): Option<string> {
    match raw
    case Some(String(s)) => Some(s)
    case Some(Null) => Some("")
    case _ => None
  }

  predicate IsStringArray(items: seq<Json>) {
    forall i :: 0 <= i < |items| ==> items[i].String? || items[i].Null?
  }

  /** `AsArray`: an array of strings, `null` elements reading as "". */
  function AsArray(raw: Raw): Option<seq<string>> {
    match raw
    case Some(Array(items)) =>
      if IsStringArray(items) then
        Some(seq(|items|, i requires 0 <= i < |items| => if items[i].String? then items[i].text else ""))
      else None
    case Some(Null) => Some([])
    case _ => None
  }

  function JsonStrings(ss: seq<string>): Json {
    Array(seq(|ss|, i requires 0 <= i < |ss| => String(ss[i])))
  }

  // ---------------------------------------------------------------------
  // Features

  datatype SourceType = SourceOCI | SourceLocal | SourceDirectTarball

  datatype FeatureRef = FeatureRef(
    rawID: string,
    registry: string,
    namespace: string,
    id: string,
    version: string,
    options: map<string, Json>,
    source: SourceType)
  {
    /** `FeatureRef.String`: the non-empty parts with their separators. */
    function Print(): string {
      (if registry != "" then registry + "/" else "")
      + (if namespace != "" then namespace + "/" else "")
      + id
      + (if version != "" then ":" + version else "")
    }
  }

  datatype FeatureMeta = FeatureMeta(
    id: string,
    version: string,
    name: string,
    containerEnv: map<string, string>,
    privileged: bool,
    init: bool,
    capAdd: seq<string>,
    securityOpt: seq<string>,
    entrypoint: string,
    mounts: Raw,
    dependsOn: map<string, Json>,
    installsAfter: seq<string>,
    customizations: Raw,
    onCreateCommand: Raw,
    updateContentCommand: Raw,
    postCreateCommand: Raw,
    postStartCommand: Raw,
    postAttachCommand: Raw)

  datatype ResolvedFeature = ResolvedFeature(ref: FeatureRef, path: string, meta: FeatureMeta, digest: string)
}
