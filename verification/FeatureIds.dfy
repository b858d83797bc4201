/**
 Feature identifiers: the version strippers, the parser of feature references
 and its printer (features/resolve.go, features/order.go, config/types.go and
 cli/up.go).
 */
module FeatureIds {
  import opened Wrappers
  import opened Text
  import opened FeatureData

  // ---------------------------------------------------------------------
  // Version tags

  /** The last colon comes after the last slash, so it separates a version. */
  predicate HasTag(id: string) {
    LastIndexOf(id, ':') > LastIndexOf(id, '/')
  }

  /** `stripVersion`. */
  function StripVersion(id: string): string {
    if HasTag(id) then id[..LastIndexOf(id, ':')] else id
  }

  function TagOf(id: string): Option<string> {
    if HasTag(id) then Some(id[LastIndexOf(id, ':') + 1..]) else None
  }

  /** `baseFeatureID`. */
  function BaseFeatureID(id: string): string {
    var idx := LastIndexOf(id, ':');
    if idx > 0 && '/' !in id[idx + 1..] then id[..idx] else id
  }

  /** `Feature.FeatureID`: the ID itself when it has a non-empty version tag. */
  function FeatureID(id: string): string {
    var idx := LastIndexOf(id, ':');
    if 0 <= idx < |id| - 1 && '/' !in id[idx + 1..] then id else id + ":latest"
  }

  /** `canonicalFeatureID`. */
  function CanonicalID(ref: FeatureRef): string {
    if ref.rawID != "" then StripVersion(ref.rawID) else StripVersion(ref.Print())
  }

  /** Where the last occurrence of a character is, given a split around it. */
  lemma LastIndexAfter(a: string, c: char, b: string)
    requires c !in b
    ensures LastIndexOf(a + [c] + b, c) == |a|
  {
    assert (a + [c] + b)[|a|] == c;
  }

  lemma IndexAfter(a: string, c: char, b: string)
    requires c !in a
    ensures IndexOf(a + [c] + b, c) == |a|
  {
    assert (a + [c] + b)[|a|] == c;
  }

  lemma LastIndexConcat(a: string, b: string, c: char)
    requires c !in b
    ensures LastIndexOf(a + b, c) == LastIndexOf(a, c)
  {
    var i, j := LastIndexOf(a, c), LastIndexOf(a + b, c);
    if i >= 0 { assert (a + b)[i] == c; }
    if j >= 0 { assert j < |a| && a[j] == c; }
  }

  /** Tagging: text plus a version without separators strips back to the text. */
  lemma TagRoundTrip(text: string, version: string)
    requires ':' !in version && '/' !in version
    ensures HasTag(text + ":" + version) && StripVersion(text + ":" + version) == text
    ensures TagOf(text + ":" + version) == Some(version)
  {
    var s := text + ":" + version;
    LastIndexAfter(text, ':', version);
    assert s == text + (":" + version);
    LastIndexConcat(text, ":" + version, '/');
    assert s[..|text|] == text && s[|text| + 1..] == version;
  }

  /** The other direction: a tagged text is its stripped form, a colon and its tag. */
  lemma TagSplits(id: string)
    requires HasTag(id)
    ensures id == StripVersion(id) + ":" + TagOf(id).value
    ensures ':' !in TagOf(id).value && '/' !in TagOf(id).value
  {
    var i := LastIndexOf(id, ':');
    assert id == id[..i] + [id[i]] + id[i + 1..];
    NoSlashAfter(id, i);
  }

  lemma NoSlashAfter(id: string, i: int)
    requires 0 <= i < |id| && id[i] != '/'
    ensures '/' !in id[i + 1..] <==> LastIndexOf(id, '/') < i
  {
    var j := LastIndexOf(id, '/');
    if j > i { assert id[i + 1..][j - i - 1] == '/'; }
  }

  /** The two strippers differ only on a leading, sole colon without any slash. */
  lemma StrippersAgree(id: string)
    ensures BaseFeatureID(id) == StripVersion(id)
       <==> !(id != "" && id[0] == ':' && ':' !in id[1..] && '/' !in id[1..])
  {
    var idx := LastIndexOf(id, ':');
    if idx >= 0 { NoSlashAfter(id, idx); }
    if id != "" && id[0] == ':' && ':' !in id[1..] {
      LastIndexAfter("", ':', id[1..]);
      assert id == "" + ":" + id[1..];
    }
  }

  /** A tagged ID has a version exactly when the tag is not empty. */
  lemma FeatureIDMeaning(id: string)
    ensures FeatureID(id) == if HasTag(id) && TagOf(id) != Some("") then id else id + ":latest"
  {
    var idx := LastIndexOf(id, ':');
    if idx >= 0 { NoSlashAfter(id, idx); }
  }

  /** Making an ID effective twice is the same as once; so `x` and `x:latest` become the same. */
  lemma FeatureIDIdempotent(id: string)
    ensures FeatureID(FeatureID(id)) == FeatureID(id)
    ensures FeatureID(id) != id ==> FeatureID(id) == FeatureID(id + ":latest")
  {
    assert ':' !in "latest" && '/' !in "latest" && "latest" != "" && ":latest" == ":" + "latest";
    assert id + ":latest" == id + ":" + "latest";
    TagRoundTrip(id, "latest");
    FeatureIDMeaning(id);
    FeatureIDMeaning(id + ":latest");
    hide FeatureID, TagOf, HasTag;
  }

  // ---------------------------------------------------------------------
  // Parsing references

  datatype ParseError = BadOptions | MissingNamespace | MissingFeatureID

  function DetectSource(raw: string): SourceType {
    if HasPrefix(raw, "./") || HasPrefix(raw, "../") then SourceLocal
    else if HasPrefix(raw, "http://") || HasPrefix(raw, "https://") then SourceDirectTarball
    else SourceOCI
  }

  /** Registry, namespace and feature ID of an untagged OCI reference. */
  function SplitOCI(s: string): Result<(string, string, string), ParseError> {
    var first := IndexOf(s, '/');
    if first == -1 then Failure(MissingNamespace)
    else
      var rest := s[first + 1..];
      var last := LastIndexOf(rest, '/');
      if last == -1 then Failure(MissingFeatureID)
      else Success((s[..first], rest[..last], rest[last + 1..]))
  }

  /** What `Parse` is meant to return, one field at a time. */
  function Parsed(rawID: string, rawOptions: Raw): Result<FeatureRef, ParseError> {
    var raw := ToLower(rawID);
    var source := DetectSource(raw);
    var tag := TagOf(raw);
    var override := if rawOptions.Some? && rawOptions.value.String? then Some(rawOptions.value.text) else None;
    var options := if rawOptions.Some? && rawOptions.value.Object? then rawOptions.value.fields else map[];
    if !IsEmpty(rawOptions) && !rawOptions.value.String? && !rawOptions.value.Object? then Failure(BadOptions)
    else match source
      case SourceLocal =>
        Success(FeatureRef(raw, "", "", "", if override.Some? then override.value else "latest", options, source))
      case SourceDirectTarball =>
        var version := if override.Some? then override.value else if tag.Some? then tag.value else "";
        Success(FeatureRef(StripVersion(raw), "", "", "", version, options, source))
      case SourceOCI =>
        var version := if tag.Some? then tag.value else if override.Some? then override.value else "latest";
        Filled(FeatureRef(raw, "", "", "", version, options, source), StripVersion(raw))
  }

  /** `ref` with the parts of the untagged text `s`. */
  function Filled(ref: FeatureRef, s: string): Result<FeatureRef, ParseError> {
    match SplitOCI(s)
    case Failure(e) => Failure(e)
    case Success(parts) => Success(ref.(registry := parts.0, namespace := parts.1, id := parts.2))
  }

  /** `parseOCIRef`: fills the fields of `ref` from its raw ID. */
  method ParseOCIRef(ref: FeatureRef) returns (r: Result<FeatureRef, ParseError>)
    ensures r == Filled(ref.(version := if HasTag(ref.rawID) then TagOf(ref.rawID).value else ref.version),
                        StripVersion(ref.rawID))
  {
    var out, s := TakeVersion(ref);
    r := FillParts(out, s);
  }

  /** The start of `parseOCIRef`: a version after the last colon that is not part of a registry port. */
  method TakeVersion(ref: FeatureRef) returns (out: FeatureRef, s: string)
    ensures s == StripVersion(ref.rawID)
    ensures out == ref.(version := if HasTag(ref.rawID) then TagOf(ref.rawID).value else ref.version)
  {
    hide FirstFrom, LastBefore;
    out, s := ref, ref.rawID;
    var lastColon := LastIndexOf(s, ':');
    var lastSlash := LastIndexOf(s, '/');
    if lastColon > lastSlash && lastColon != -1 {
      out := out.(version := s[lastColon + 1..]);
      s := s[..lastColon];
    }
  }

  /** The rest of `parseOCIRef`: registry, namespace and ID of the untagged text `s`. */
  method FillParts(ref: FeatureRef, s: string) returns (r: Result<FeatureRef, ParseError>)
    ensures r == Filled(ref, s)
  {
    hide FirstFrom, LastBefore;
    var out := ref;
    var firstSlash := IndexOf(s, '/');
    if firstSlash == -1 {
      return Failure(MissingNamespace);
    }
    out := out.(registry := s[..firstSlash]);
    var rest := s[firstSlash + 1..];
    var lastSlash := LastIndexOf(rest, '/');
    if lastSlash == -1 {
      return Failure(MissingFeatureID);
    }
    out := out.(namespace := rest[..lastSlash], id := rest[lastSlash + 1..]);
    return Success(out);
  }

  /** `Parse`. */
  method Parse(rawID: string, rawOptions: Raw) returns (r: Result<FeatureRef, ParseError>)
    ensures r == Parsed(rawID, rawOptions)
  {
    hide FirstFrom, LastBefore, ToLower, HasPrefix, Filled, LastIndexOf;
    var ref := FeatureRef(ToLower(rawID), "", "", "", "latest", map[], SourceOCI);
    if HasPrefix(ref.rawID, "./") || HasPrefix(ref.rawID, "../") {
      ref := ref.(source := SourceLocal);
    } else if HasPrefix(ref.rawID, "http://") || HasPrefix(ref.rawID, "https://") {
      ref := ref.(source := SourceDirectTarball, version := "");
      var idx := LastIndexOf(ref.rawID, ':');
      if idx > LastIndexOf(ref.rawID, '/') {
        ref := ref.(version := ref.rawID[idx + 1..], rawID := ref.rawID[..idx]);
      }
    } else {
      ref := ref.(source := SourceOCI);
    }
    if !IsEmpty(rawOptions) {
      if rawOptions.value.String? {
        ref := ref.(version := rawOptions.value.text);
      } else if rawOptions.value.Object? {
        ref := ref.(options := rawOptions.value.fields);
      } else {
        return Failure(BadOptions);
      }
    }
    if ref.source == SourceOCI {
      r := ParseOCIRef(ref);
      return;
    }
    return Success(ref);
  }

  // ---------------------------------------------------------------------
  // What a parsed reference says, in terms of the text alone

  /** `text` is `stripped`, then a colon and the tag if it ends in one. */
  ghost predicate Tags(text: string, stripped: string, tag: Option<string>) {
    match tag
    case Some(v) => text == stripped + ":" + v && ':' !in v && '/' !in v
    case None => text == stripped && forall a, v :: text == a + ":" + v ==> ':' in v || '/' in v
  }

  /** The tag, and what is left without it, are determined by that. */
  lemma TagsIff(text: string, stripped: string, tag: Option<string>)
    ensures Tags(text, stripped, tag) <==> StripVersion(text) == stripped && TagOf(text) == tag
  {
    Untagged(text);
    hide StripVersion, TagOf, HasTag;
    if tag.Some? && Tags(text, stripped, tag) { TagRoundTrip(stripped, tag.value); }
    if HasTag(text) { TagSplits(text); }
    forall a, v | text == a + ":" + v && !HasTag(text) ensures ':' in v || '/' in v {
      if ':' !in v && '/' !in v { TagRoundTrip(a, v); }
    }
    TagPresent(text);
  }

  lemma TagPresent(text: string)
    ensures TagOf(text).Some? <==> HasTag(text)
  {
    hide HasTag;
  }

  /** Options are an object, a string for the version, or nothing. */
  lemma ParseOptions(rawID: string, rawOptions: Raw)
    ensures Parsed(rawID, rawOptions) == Failure(BadOptions)
       <==> rawOptions.Some? && (rawOptions.value.Bool? || rawOptions.value.Number? || rawOptions.value.Array?)
    ensures Parsed(rawID, rawOptions).Success? ==>
              var options := Parsed(rawID, rawOptions).value.options;
              if rawOptions.Some? && rawOptions.value.Object? then options == rawOptions.value.fields else options == map[]
  {
    SplitFailures(StripVersion(ToLower(rawID)));
    hide SplitOCI, DetectSource, ToLower, StripVersion, TagOf;
  }

  /** A path is taken as it is, in lower case. */
  lemma ParseLocal(rawID: string, rawOptions: Raw, low: string)
    requires Parsed(rawID, rawOptions) != Failure(BadOptions) && low == ToLower(rawID)
    requires (exists t :: low == "./" + t) || (exists t :: low == "../" + t)
    ensures Parsed(rawID, rawOptions).Success?
    ensures var ref := Parsed(rawID, rawOptions).value;
            && ref.source == SourceLocal && ref.rawID == low
            && ref.registry == ref.namespace == ref.id == ""
            && ref.version == if rawOptions.Some? && rawOptions.value.String? then rawOptions.value.text else "latest"
  {
    PrefixMeans(low, "./");
    PrefixMeans(low, "../");
    hide SplitOCI, ToLower, StripVersion, TagOf, HasPrefix;
  }

  /** A URL loses its tag; a version given as option comes before the tag. */
  lemma ParseTarball(rawID: string, rawOptions: Raw, low: string, stripped: string, tag: Option<string>)
    requires Parsed(rawID, rawOptions) != Failure(BadOptions) && low == ToLower(rawID) && Tags(low, stripped, tag)
    requires (exists t :: low == "http://" + t) || (exists t :: low == "https://" + t)
    ensures Parsed(rawID, rawOptions).Success?
    ensures var ref := Parsed(rawID, rawOptions).value;
            && ref.source == SourceDirectTarball && ref.rawID == stripped
            && ref.registry == ref.namespace == ref.id == ""
            && ref.version == if rawOptions.Some? && rawOptions.value.String? then rawOptions.value.text
                              else if tag.Some? then tag.value else ""
  {
    TagsIff(low, stripped, tag);
    PrefixMeans(low, "http://");
    PrefixMeans(low, "https://");
    assert DetectSource(low) == SourceDirectTarball by {
      assert "./"[0] == '.' && "../"[0] == '.' && "http://"[0] == 'h' && "https://"[0] == 'h';
      if HasPrefix(low, "http://") { assert low[0] == 'h'; } else { assert low[0] == 'h'; }
    }
    hide SplitOCI, ToLower, StripVersion, TagOf, HasPrefix, Tags, DetectSource;
  }

  /** Neither a path nor a URL. */
  ghost predicate PlainReferenceText(low: string) {
    && (forall t :: low != "./" + t && low != "../" + t)
    && (forall t :: low != "http://" + t && low != "https://" + t)
  }

  lemma PlainIsOCI(low: string)
    ensures PlainReferenceText(low) <==> DetectSource(low) == SourceOCI
  {
    PrefixMeans(low, "./");
    PrefixMeans(low, "../");
    PrefixMeans(low, "http://");
    PrefixMeans(low, "https://");
    hide HasPrefix;
  }

  /**
   Everything else names an OCI artifact: the registry before the first slash, the ID after the
   last one, the namespace between them.  A tag comes before a version given as option.
   */
  lemma ParseOCI(rawID: string, rawOptions: Raw, low: string, stripped: string, tag: Option<string>)
    requires Parsed(rawID, rawOptions) != Failure(BadOptions) && low == ToLower(rawID) && Tags(low, stripped, tag)
    requires PlainReferenceText(low)
    ensures Parsed(rawID, rawOptions) == Failure(MissingNamespace) <==> '/' !in stripped
    ensures Parsed(rawID, rawOptions) == Failure(MissingFeatureID)
       <==> exists a, b :: stripped == a + "/" + b && '/' !in a && '/' !in b
    ensures Parsed(rawID, rawOptions).Success? ==>
              var ref := Parsed(rawID, rawOptions).value;
              && ref.source == SourceOCI && ref.rawID == low
              && stripped == ref.registry + "/" + ref.namespace + "/" + ref.id && '/' !in ref.registry && '/' !in ref.id
              && ref.version == if tag.Some? then tag.value
                                else if rawOptions.Some? && rawOptions.value.String? then rawOptions.value.text else "latest"
  {
    TagsIff(low, stripped, tag);
    PlainIsOCI(low);
    SplitFailures(stripped);
    hide SplitOCI, ToLower, StripVersion, TagOf, Tags, DetectSource;
    if SplitOCI(stripped).Success? { SplitOCIJoins(stripped); }
  }

  lemma SplitFailures(s: string)
    ensures SplitOCI(s) != Failure(BadOptions)
    ensures SplitOCI(s) == Failure(MissingNamespace) <==> '/' !in s
    ensures SplitOCI(s) == Failure(MissingFeatureID) <==> exists a, b :: s == a + "/" + b && '/' !in a && '/' !in b
  {
    hide FirstFrom, LastBefore;
    var first := IndexOf(s, '/');
    if first >= 0 { assert s == s[..first] + "/" + s[first + 1..]; }
    if a, b :| s == a + "/" + b && '/' !in a && '/' !in b {
      IndexAfter(a, '/', b);
      assert s[|a| + 1..] == b;
    }
  }

  /** `ref` is what the text `rawID` and the options stand for. */
  ghost predicate Refers(rawID: string, rawOptions: Raw, ref: FeatureRef) {
    && (match rawOptions
        case Some(Object(fields)) => ref.options == fields
        case None | Some(Null) | Some(String(_)) => ref.options == map[]
        case _ => false)
    && exists stripped, tag :: Tags(ToLower(rawID), stripped, tag) && RefersTo(ToLower(rawID), stripped, tag, rawOptions, ref)
  }

  ghost predicate RefersTo(low: string, stripped: string, tag: Option<string>, rawOptions: Raw, ref: FeatureRef) {
    var override := if rawOptions.Some? && rawOptions.value.String? then rawOptions else None;
    match ref.source
    case SourceLocal =>
      && (HasPrefix(low, "./") || HasPrefix(low, "../"))
      && ref.rawID == low && ref.registry == ref.namespace == ref.id == ""
      && ref.version == if override.Some? then override.value.text else "latest"
    case SourceDirectTarball =>
      && (HasPrefix(low, "http://") || HasPrefix(low, "https://"))
      && ref.rawID == stripped && ref.registry == ref.namespace == ref.id == ""
      && ref.version == if override.Some? then override.value.text else if tag.Some? then tag.value else ""
    case SourceOCI =>
      && PlainReferenceText(low) && ref.rawID == low
      && stripped == ref.registry + "/" + ref.namespace + "/" + ref.id && '/' !in ref.registry && '/' !in ref.id
      && ref.version == if tag.Some? then tag.value else if override.Some? then override.value.text else "latest"
  }

  /** `Parsed` gives exactly that. */
  lemma ParsedIffRefers(rawID: string, rawOptions: Raw, ref: FeatureRef)
    ensures Parsed(rawID, rawOptions) == Success(ref) <==> Refers(rawID, rawOptions, ref)
  {
    var low := ToLower(rawID);
    var stripped, tag := StripVersion(low), TagOf(low);
    ParseOptions(rawID, rawOptions);
    hide StripVersion, TagOf, Tags, RefersTo, Parsed, ToLower;
    forall s, t ensures Tags(low, s, t) <==> s == stripped && t == tag { TagsIff(low, s, t); }
    if Parsed(rawID, rawOptions) != Failure(BadOptions) { RefersEach(rawID, rawOptions, low, stripped, tag, ref); }
  }

  lemma RefersEach(rawID: string, rawOptions: Raw, low: string, stripped: string, tag: Option<string>, ref: FeatureRef)
    requires Parsed(rawID, rawOptions) != Failure(BadOptions) && low == ToLower(rawID) && Tags(low, stripped, tag)
    ensures Parsed(rawID, rawOptions).Success? ==>
              (ref == Parsed(rawID, rawOptions).value
               <==> ref.options == Parsed(rawID, rawOptions).value.options && RefersTo(low, stripped, tag, rawOptions, ref))
    ensures RefersTo(low, stripped, tag, rawOptions, ref) ==> Parsed(rawID, rawOptions).Success?
  {
    PrefixMeans(low, "./");
    PrefixMeans(low, "../");
    PrefixMeans(low, "http://");
    PrefixMeans(low, "https://");
    PlainIsOCI(low);
    SourcesExclude(low);
    hide Parsed, ToLower, Tags, HasPrefix, PlainReferenceText;
    if HasPrefix(low, "./") || HasPrefix(low, "../") {
      ParseLocal(rawID, rawOptions, low);
    } else if HasPrefix(low, "http://") || HasPrefix(low, "https://") {
      ParseTarball(rawID, rawOptions, low, stripped, tag);
    } else {
      ParseOCI(rawID, rawOptions, low, stripped, tag);
      if RefersTo(low, stripped, tag, rawOptions, ref) { OnlySplit(rawID, rawOptions, low, stripped, tag, ref); }
    }
  }

  /** A text is of one of the three kinds only. */
  lemma SourcesExclude(low: string)
    ensures PlainReferenceText(low)
       <==> !HasPrefix(low, "./") && !HasPrefix(low, "../") && !HasPrefix(low, "http://") && !HasPrefix(low, "https://")
    ensures HasPrefix(low, "./") || HasPrefix(low, "../") ==> !HasPrefix(low, "http://") && !HasPrefix(low, "https://")
  {
    PlainIsOCI(low);
    assert "./"[0] == '.' && "../"[0] == '.' && "http://"[0] == 'h' && "https://"[0] == 'h';
    hide PlainReferenceText;
  }

  lemma OnlySplit(rawID: string, rawOptions: Raw, low: string, stripped: string, tag: Option<string>, ref: FeatureRef)
    requires Parsed(rawID, rawOptions) != Failure(BadOptions) && low == ToLower(rawID) && Tags(low, stripped, tag)
    requires PlainReferenceText(low) && stripped == ref.registry + "/" + ref.namespace + "/" + ref.id
    requires '/' !in ref.registry && '/' !in ref.id
    ensures Parsed(rawID, rawOptions).Success?
    ensures var got := Parsed(rawID, rawOptions).value;
            got.registry == ref.registry && got.namespace == ref.namespace && got.id == ref.id
  {
    TagsIff(low, stripped, tag);
    PlainIsOCI(low);
    JoinedSplits(ref.registry, ref.namespace, ref.id);
    hide SplitOCI, ToLower, StripVersion, TagOf, Tags, DetectSource, PlainReferenceText;
  }

  // ---------------------------------------------------------------------
  // Printing and parsing again

  function Joined(registry: string, namespace: string, id: string): string {
    registry + "/" + namespace + "/" + id
  }

  lemma SplitOCIJoins(s: string)
    requires SplitOCI(s).Success?
    ensures var p := SplitOCI(s).value; s == Joined(p.0, p.1, p.2) && '/' !in p.0 && '/' !in p.2
  {
    hide FirstFrom, LastBefore;
    var first := IndexOf(s, '/');
    var rest := s[first + 1..];
    var last := LastIndexOf(rest, '/');
    assert s == s[..first] + [s[first]] + rest;
    assert rest == rest[..last] + [rest[last]] + rest[last + 1..];
  }

  lemma JoinedSplits(registry: string, namespace: string, id: string)
    requires '/' !in registry && '/' !in id
    ensures SplitOCI(Joined(registry, namespace, id)) == Success((registry, namespace, id))
  {
    hide FirstFrom, LastBefore;
    var s, rest := Joined(registry, namespace, id), namespace + "/" + id;
    assert s == registry + "/" + rest;
    IndexAfter(registry, '/', rest);
    assert s[..|registry|] == registry && s[|registry| + 1..] == rest;
    LastIndexAfter(namespace, '/', id);
    assert rest[..|namespace|] == namespace && rest[|namespace| + 1..] == id;
  }

  lemma LowerTagged(text: string, version: string)
    ensures ToLower(text + ":" + version) == ToLower(text) + ":" + ToLower(version)
  {
  }

  /** Lower-casing again changes nothing, in any part of a lower-cased text. */
  lemma LowerFixed(s: string)
    ensures ToLower(ToLower(s)) == ToLower(s)
  {
  }

  /** What a successful OCI parse says about the raw ID. */
  lemma OCIShape(rawID: string, rawOptions: Raw, ref: FeatureRef)
    requires Parsed(rawID, rawOptions) == Success(ref) && ref.source == SourceOCI
    ensures ref.rawID == ToLower(rawID)
    ensures StripVersion(ref.rawID) == Joined(ref.registry, ref.namespace, ref.id)
    ensures '/' !in ref.registry && '/' !in ref.id
    ensures DetectSource(ref.rawID) == SourceOCI
    ensures !HasTag(ref.rawID) && IsEmpty(rawOptions) ==> ref.version == "latest"
    ensures HasTag(ref.rawID) ==> TagOf(ref.rawID) == Some(ref.version)
    ensures ToLower(StripVersion(ref.rawID)) == StripVersion(ref.rawID)
  {
    ParsedOCI(rawID, rawOptions, ref);
    LowerStripped(rawID);
    hide *;
    SplitOCIJoins(StripVersion(ref.rawID));
  }

  lemma ParsedOCI(rawID: string, rawOptions: Raw, ref: FeatureRef)
    requires Parsed(rawID, rawOptions) == Success(ref) && ref.source == SourceOCI
    ensures ref.rawID == ToLower(rawID) && DetectSource(ref.rawID) == SourceOCI
    ensures SplitOCI(StripVersion(ref.rawID)) == Success((ref.registry, ref.namespace, ref.id))
    ensures !HasTag(ref.rawID) && IsEmpty(rawOptions) ==> ref.version == "latest"
    ensures HasTag(ref.rawID) ==> TagOf(ref.rawID) == Some(ref.version)
  {
    hide ToLower, StripVersion, DetectSource, SplitOCI, HasTag;
  }

  /** Stripping a lower-cased text leaves a lower-case text. */
  lemma LowerStripped(s: string)
    ensures ToLower(StripVersion(ToLower(s))) == StripVersion(ToLower(s))
  {
    hide FirstFrom, LastBefore;
    LowerFixed(s);
  }

  /** The printed form can be read back: every part is there and the version is plain. */
  predicate Printable(ref: FeatureRef) {
    && ref.registry != "" && ref.namespace != "" && ref.version != ""
    && ':' !in ref.version && '/' !in ref.version
    && ToLower(ref.version) == ref.version
  }

  /** Printing `ref` and parsing the text gives the same OCI reference. */
  predicate Recovers(ref: FeatureRef) {
    var again := Parsed(ref.Print(), None);
    && again.Success?
    && again.value.source == SourceOCI
    && again.value.registry == ref.registry
    && again.value.namespace == ref.namespace
    && again.value.id == ref.id
    && again.value.version == ref.version
  }

  /** A text that is not local and not a URL stays so when something is put after its second slash. */
  lemma StillOCI(text: string, tagged: string, p: string)
    requires 0 <= IndexOf(text, '/') < LastIndexOf(text, '/')
    requires HasPrefix(tagged, text) && HasPrefix(tagged, p)
    requires p == "./" || p == "../" || p == "http://" || p == "https://"
    ensures HasPrefix(text, p)
  {
    hide FirstFrom, LastBefore;
    var i, j := IndexOf(text, '/'), LastIndexOf(text, '/');
    assert tagged[i] == tagged[j] == '/';
    assert |p| <= j + 1;
  }

  lemma TaggedStaysOCI(text: string, version: string)
    requires 0 <= IndexOf(text, '/') < LastIndexOf(text, '/')
    requires DetectSource(text) == SourceOCI
    ensures DetectSource(text + ":" + version) == SourceOCI
  {
    hide FirstFrom, LastBefore;
    var tagged := text + ":" + version;
    assert HasPrefix(tagged, text);
    if HasPrefix(tagged, "./") { StillOCI(text, tagged, "./"); }
    if HasPrefix(tagged, "../") { StillOCI(text, tagged, "../"); }
    if HasPrefix(tagged, "http://") { StillOCI(text, tagged, "http://"); }
    if HasPrefix(tagged, "https://") { StillOCI(text, tagged, "https://"); }
  }

  /** Dropping a tag from an OCI reference leaves one. */
  lemma StrippedStaysOCI(raw: string)
    requires DetectSource(raw) == SourceOCI
    ensures DetectSource(StripVersion(raw)) == SourceOCI
  {
    hide FirstFrom, LastBefore;
    var text := StripVersion(raw);
    assert HasPrefix(raw, text);
  }

  lemma JoinedSlashes(registry: string, namespace: string, id: string)
    requires '/' !in registry && '/' !in id
    ensures 0 <= IndexOf(Joined(registry, namespace, id), '/') < LastIndexOf(Joined(registry, namespace, id), '/')
  {
    hide FirstFrom, LastBefore;
    var text := Joined(registry, namespace, id);
    assert text == registry + "/" + (namespace + "/" + id);
    IndexAfter(registry, '/', namespace + "/" + id);
    assert text == (registry + "/" + namespace) + "/" + id;
    LastIndexAfter(registry + "/" + namespace, '/', id);
  }

  lemma PrintJoined(ref: FeatureRef)
    requires ref.registry != "" && ref.namespace != "" && ref.version != ""
    ensures ref.Print() == Joined(ref.registry, ref.namespace, ref.id) + ":" + ref.version
  {
  }

  /** A lower-case OCI text parses to its own parts. */
  lemma OCIParses(text: string)
    requires ToLower(text) == text && DetectSource(text) == SourceOCI && HasTag(text)
    requires SplitOCI(StripVersion(text)).Success?
    ensures var parts := SplitOCI(StripVersion(text)).value;
            Parsed(text, None) == Success(FeatureRef(text, parts.0, parts.1, parts.2, TagOf(text).value, map[], SourceOCI))
  {
    hide StripVersion, LastIndexOf, SplitOCI, DetectSource, ToLower;
  }

  lemma PrintableRecovers(rawID: string, rawOptions: Raw, ref: FeatureRef)
    requires Parsed(rawID, rawOptions) == Success(ref) && ref.source == SourceOCI && Printable(ref)
    ensures Recovers(ref)
  {
    OCIShape(rawID, rawOptions, ref);
    hide Parsed, StripVersion, TagOf, SplitOCI, DetectSource, HasTag;
    var text := StripVersion(ref.rawID);
    var printed := text + ":" + ref.version;
    PrintJoined(ref);
    LowerTagged(text, ref.version);
    hide ToLower, IndexOf, LastIndexOf, Joined, FeatureRef.Print;
    TagRoundTrip(text, ref.version);
    JoinedSplits(ref.registry, ref.namespace, ref.id);
    JoinedSlashes(ref.registry, ref.namespace, ref.id);
    StrippedStaysOCI(ref.rawID);
    TaggedStaysOCI(text, ref.version);
    OCIParses(printed);
  }

  lemma RecoversPrintable(rawID: string, rawOptions: Raw, ref: FeatureRef)
    requires Parsed(rawID, rawOptions) == Success(ref) && ref.source == SourceOCI && Recovers(ref)
    ensures Printable(ref)
  {
    hide Parsed, FeatureRef.Print;
    var again := Parsed(ref.Print(), None).value;
    assert again.source == SourceOCI && again.registry == ref.registry && again.namespace == ref.namespace;
    assert again.id == ref.id && again.version == ref.version && IsEmpty(None) && |"latest"| == 6;
    hide *;
    OCIShape(rawID, rawOptions, ref);
    OCIShape(ref.Print(), None, again);
    var text := StripVersion(ref.rawID);
    PrintedLength(ref);
    if HasTag(again.rawID) {
      TagSplits(again.rawID);
      assert again.rawID == text + ":" + ref.version;
      PrintJoined(ref);
      LowerTagged(text, ref.version);
      assert (text + ":" + ToLower(ref.version))[|text| + 1..] == (text + ":" + ref.version)[|text| + 1..];
      IsPrintable(ref);
    } else {
      Untagged(again.rawID);
    }
  }

  lemma Untagged(id: string)
    ensures StripVersion(id) == id <==> !HasTag(id)
  {
    hide LastIndexOf;
  }

  lemma IsPrintable(ref: FeatureRef)
    requires ref.registry != "" && ref.namespace != "" && ref.version != ""
    requires ':' !in ref.version && '/' !in ref.version && ToLower(ref.version) == ref.version
    ensures Printable(ref)
  {
    hide ToLower;
  }

  lemma PrintedLength(ref: FeatureRef)
    ensures |ref.Print()| == |Joined(ref.registry, ref.namespace, ref.id)|
                             - (if ref.registry == "" then 1 else 0) - (if ref.namespace == "" then 1 else 0)
                             + (if ref.version == "" then 0 else 1 + |ref.version|)
  {
  }

  /** Which parsed OCI references survive printing and parsing: exactly the printable ones. */
  lemma OCIRoundTrip(rawID: string, rawOptions: Raw, ref: FeatureRef)
    requires Parsed(rawID, rawOptions) == Success(ref) && ref.source == SourceOCI
    ensures Recovers(ref) <==> Printable(ref)
  {
    hide Recovers, Printable, Parsed;
    if Printable(ref) { PrintableRecovers(rawID, rawOptions, ref); }
    if Recovers(ref) { RecoversPrintable(rawID, rawOptions, ref); }
  }

  /** Registry and namespace are there, and what follows the ID in print, if anything, is one plain version. */
  predicate PrintsCanonically(ref: FeatureRef) {
    && ref.registry != "" && ref.namespace != ""
    && if ref.version == "" then ':' !in ref.id else ':' !in ref.version && '/' !in ref.version
  }

  function VersionSuffix(version: string): string {
    if version == "" then "" else ":" + version
  }

  lemma PrintSplits(ref: FeatureRef)
    ensures ref.registry != "" && ref.namespace != "" ==>
              ref.Print() == Joined(ref.registry, ref.namespace, ref.id) + VersionSuffix(ref.version)
    ensures ref.registry == "" && ref.namespace != "" ==> ref.Print() == ref.namespace + "/" + ref.id + VersionSuffix(ref.version)
    ensures ref.registry != "" && ref.namespace == "" ==> ref.Print() == ref.registry + "/" + ref.id + VersionSuffix(ref.version)
    ensures ref.registry == "" && ref.namespace == "" ==> ref.Print() == ref.id + VersionSuffix(ref.version)
  {
  }

  /** What stripping leaves is followed by nothing or by a plain tag. */
  lemma StripPrefix(text: string, stripped: string)
    requires StripVersion(text) == stripped
    ensures text == stripped || (HasTag(text) && text == stripped + ":" + TagOf(text).value)
    ensures |stripped| <= |text| && text[..|stripped|] == stripped
  {
    if HasTag(text) { TagSplits(text); }
    hide LastIndexOf;
  }

  /** With an empty part the printed form does not begin with the three parts. */
  lemma IncompletePrint(ref: FeatureRef)
    requires ref.registry == "" || ref.namespace == ""
    requires '/' !in ref.registry && '/' !in ref.id
    ensures var j, printed := Joined(ref.registry, ref.namespace, ref.id), ref.Print();
            |j| > |printed| || printed[..|j|] != j
  {
    PrintSplits(ref);
    var j, printed := Joined(ref.registry, ref.namespace, ref.id), ref.Print();
    hide FeatureRef.Print;
    var p := if ref.namespace != "" then |ref.namespace| + 1 else if ref.registry == "" then 0 else |ref.registry| + 1;
    assert p < |j| && j[p] == '/';
    assert p < |printed| ==> printed[p] != '/';
    assert |j| <= |printed| ==> printed[..|j|][p] == printed[p];
  }

  lemma CompletePrint(ref: FeatureRef)
    requires ref.registry != "" && ref.namespace != "" && '/' !in ref.registry && '/' !in ref.id
    ensures var j := Joined(ref.registry, ref.namespace, ref.id);
            StripVersion(ref.Print()) == j <==> PrintsCanonically(ref)
  {
    PrintSplits(ref);
    var j := Joined(ref.registry, ref.namespace, ref.id);
    hide FeatureRef.Print;
    if ref.version == "" {
      UntaggedJoin(ref.registry, ref.namespace, ref.id);
      Untagged(j);
      assert ref.Print() == j;
      hide StripVersion, HasTag, Joined;
    } else {
      TagStripsIff(j, ref.version);
      assert ref.Print() == j + ":" + ref.version;
      hide StripVersion, Joined;
    }
  }

  /** Stripping a text behind which a colon and a version were put gives the text exactly for plain versions. */
  lemma TagStripsIff(text: string, version: string)
    ensures StripVersion(text + ":" + version) == text <==> ':' !in version && '/' !in version
  {
    var tagged := text + ":" + version;
    hide StripVersion, HasTag;
    if ':' !in version && '/' !in version { TagRoundTrip(text, version); }
    if StripVersion(tagged) == text {
      StripPrefix(tagged, text);
      TagSplits(tagged);
      assert tagged[|text| + 1..] == TagOf(tagged).value == version;
    }
  }

  lemma UntaggedJoin(registry: string, namespace: string, id: string)
    requires '/' !in registry && '/' !in id
    ensures HasTag(Joined(registry, namespace, id)) <==> ':' in id
  {
    hide FirstFrom, LastBefore;
    var front := registry + "/" + namespace;
    var j := front + "/" + id;
    assert Joined(registry, namespace, id) == j;
    LastIndexAfter(front, '/', id);
    assert forall k :: |front| < k < |j| ==> j[k] == id[k - |front| - 1];
    if ':' in id {
      var k :| 0 <= k < |id| && id[k] == ':';
      assert j[|front| + 1 + k] == ':';
    }
    assert j[|front|] == '/';
  }

  /** The printed and the raw form are the same graph node, registry ports included, exactly for such references. */
  lemma PrintedCanonical(rawID: string, rawOptions: Raw, ref: FeatureRef)
    requires Parsed(rawID, rawOptions) == Success(ref) && ref.source == SourceOCI
    ensures CanonicalID(ref) == StripVersion(ref.rawID)
    ensures StripVersion(ref.Print()) == CanonicalID(ref) <==> PrintsCanonically(ref)
  {
    OCIShape(rawID, rawOptions, ref);
    hide Parsed, StripVersion, DetectSource, FeatureRef.Print;
    var j := Joined(ref.registry, ref.namespace, ref.id);
    assert j != "";
    assert ref.rawID != "" by { if ref.rawID == "" { Untagged(""); } }
    hide Joined;
    if ref.registry != "" && ref.namespace != "" {
      CompletePrint(ref);
    } else {
      IncompletePrint(ref);
      if StripVersion(ref.Print()) == j { StripPrefix(ref.Print(), j); }
    }
  }

  /** Without a version tag, the version option is taken over as it is. */
  lemma VersionOption(raw: string, version: string)
    requires ToLower(raw) == raw && DetectSource(raw) == SourceOCI && !HasTag(raw) && SplitOCI(raw).Success?
    ensures var parts := SplitOCI(raw).value;
            Parsed(raw, Some(String(version)))
            == Success(FeatureRef(raw, parts.0, parts.1, parts.2, version, map[], SourceOCI))
  {
    hide LastIndexOf, SplitOCI, DetectSource, ToLower;
  }

  /** A version given as an upper-case option does not survive: raw IDs are lower-cased, options are not. */
  lemma UppercaseVersionLost(raw: string, version: string)
    requires ToLower(raw) == raw && DetectSource(raw) == SourceOCI && !HasTag(raw) && SplitOCI(raw).Success?
    requires ToLower(version) != version
    ensures Parsed(raw, Some(String(version))).Success?
    ensures Parsed(raw, Some(String(version))).value.version == version
    ensures !Recovers(Parsed(raw, Some(String(version))).value)
  {
    VersionOption(raw, version);
    hide Recovers, Parsed, SplitOCI, DetectSource, ToLower;
    OCIRoundTrip(raw, Some(String(version)), Parsed(raw, Some(String(version))).value);
  }

  /** Such references exist. */
  lemma UppercaseExample()
    ensures Parsed("r/n/f", Some(String("V"))).Success?
    ensures !Recovers(Parsed("r/n/f", Some(String("V"))).value)
  {
    var raw := "r/n/f";
    PlainReference(raw);
    hide FirstFrom, LastBefore, Parsed, Recovers, DetectSource, SplitOCI;
    assert ToLower("V")[0] == 'v';
    UppercaseVersionLost(raw, "V");
  }

  lemma PlainReference(raw: string)
    requires raw == "r/n/f"
    ensures ToLower(raw) == raw && DetectSource(raw) == SourceOCI && !HasTag(raw) && SplitOCI(raw).Success?
  {
    hide FirstFrom, LastBefore;
    assert raw[0] == 'r' && "./"[0] == '.' && "../"[0] == '.' && "http://"[0] == 'h' && "https://"[0] == 'h';
    assert DetectSource(raw) == SourceOCI;
    hide DetectSource;
    assert raw == Joined("r", "n", "f");
    JoinedSplits("r", "n", "f");
  }
}
