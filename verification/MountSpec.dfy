/**
 Docker `--mount` strings: parsing and printing (spec/mount.go), the form dcx
 writes (mounts/mounts.go) and the compose form (devcontainer/compose.go).
 */
module MountSpec {
  import opened Wrappers
  import opened Text
  import opened Collections

  // ---------------------------------------------------------------------
  // strings.Split, strings.Join and strings.TrimSpace

  function Split(s: string, c: char): (parts: seq<string>)
    ensures |parts| >= 1 && forall i :: 0 <= i < |parts| ==> c !in parts[i]
  {
    if s == "" then [""]
    else
      var rest := Split(s[1..], c);
      if s[0] == c then [""] + rest else [[s[0]] + rest[0]] + rest[1..]
  }

  function Join(parts: seq<string>, c: char): string {
    if parts == [] then ""
    else if |parts| == 1 then parts[0]
    else parts[0] + [c] + Join(parts[1..], c)
  }

  lemma {:induction false} SplitPlain(s: string, c: char)
    requires c !in s
    ensures Split(s, c) == [s]
  {
    if s != "" {
      SplitPlain(s[1..], c);
      assert s == [s[0]] + s[1..];
    }
  }

  lemma {:induction false} SplitAt(a: string, c: char, b: string)
    requires c !in a
    ensures Split(a + [c] + b, c) == [a] + Split(b, c)
  {
    var s := a + [c] + b;
    if a == "" {
      assert s == [c] + b && s[1..] == b;
    } else {
      assert s[1..] == a[1..] + [c] + b;
      SplitAt(a[1..], c, b);
      assert a == [a[0]] + a[1..];
    }
  }

  /** Joining what was split gives the text back. */
  lemma {:induction false} JoinSplit(s: string, c: char)
    ensures Join(Split(s, c), c) == s
  {
    if s != "" {
      JoinSplit(s[1..], c);
      var rest := Split(s[1..], c);
      assert s == [s[0]] + s[1..];
      if s[0] != c { assert ([[s[0]] + rest[0]] + rest[1..])[1..] == rest[1..]; }
    }
  }

  /** Splitting what was joined gives the parts back. */
  lemma {:induction false} SplitJoin(parts: seq<string>, c: char)
    requires |parts| >= 1 && forall i :: 0 <= i < |parts| ==> c !in parts[i]
    ensures Split(Join(parts, c), c) == parts
  {
    if |parts| == 1 {
      SplitPlain(parts[0], c);
    } else {
      SplitJoin(parts[1..], c);
      SplitAt(parts[0], c, Join(parts[1..], c));
    }
  }

  /** `unicode.IsSpace`. */
  predicate IsSpace(c: char) {
    var n := c as int;
    9 <= n <= 13 || n == 32 || n == 0x85 || n == 0xA0 || n == 0x1680 || 0x2000 <= n <= 0x200A
    || n == 0x2028 || n == 0x2029 || n == 0x202F || n == 0x205F || n == 0x3000
  }

  /** Neither end is white space. */
  predicate Trimmed(s: string) {
    s != "" ==> !IsSpace(s[0]) && !IsSpace(s[|s| - 1])
  }

  function Trim(s: string): (t: string)
    ensures Trimmed(t) && |t| <= |s|
    ensures forall c :: c in t ==> c in s
  {
    if s == "" then ""
    else if IsSpace(s[0]) then Trim(s[1..])
    else if IsSpace(s[|s| - 1]) then Trim(s[..|s| - 1])
    else s
  }

  ghost predicate Blank(s: string) {
    forall i :: 0 <= i < |s| ==> IsSpace(s[i])
  }

  /** Trimming removes the white space around a text. */
  lemma {:induction false} TrimMeans(s: string) returns (a: string, b: string)
    ensures s == a + Trim(s) + b && Blank(a) && Blank(b)
  {
    hide IsSpace;
    if s == "" {
      a, b := "", "";
    } else if IsSpace(s[0]) {
      a, b := TrimMeans(s[1..]);
      a := [s[0]] + a;
    } else if IsSpace(s[|s| - 1]) {
      a, b := TrimMeans(s[..|s| - 1]);
      b := b + [s[|s| - 1]];
    } else {
      a, b := "", "";
    }
  }

  /** And it removes all of it. */
  lemma {:induction false} TrimPadded(a: string, t: string, b: string)
    requires Blank(a) && Blank(b) && Trimmed(t)
    ensures Trim(a + t + b) == t
    decreases |a| + |b|
  {
    hide IsSpace;
    var s := a + t + b;
    if a != "" {
      assert s[1..] == a[1..] + t + b;
      TrimPadded(a[1..], t, b);
    } else if b != "" {
      assert s[..|s| - 1] == a + t + b[..|b| - 1];
      TrimPadded(a, t, b[..|b| - 1]);
      if t == "" {
        assert s == b && s[1..] == a + t + b[1..];
        TrimPadded(a, t, b[1..]);
      } else {
        assert s[0] == t[0] && s[|s| - 1] == b[|b| - 1];
      }
    } else {
      assert s == t;
      TrimFixed(t);
    }
  }

  /** Blanks around a trimmed text are what trimming removes. */
  lemma TrimFixed(s: string)
    ensures Trim(s) == s <==> Trimmed(s)
  {
    hide IsSpace;
  }

  // ---------------------------------------------------------------------
  // Mounts

  datatype WorkspaceMount = WorkspaceMount(kind: string, source: string, target: string, options: seq<string>)

  datatype MountError = MissingType | MissingSource | MissingTarget

  /** The four groups of keys that the parser distinguishes. */
  datatype Field = Kind | Source | Target | Other

  function FieldOf(key: string): Field {
    if key == "type" then Kind
    else if key == "source" || key == "src" then Source
    else if key == "target" || key == "dst" || key == "destination" then Target
    else Other
  }

  /** What a trimmed part says: its key's field, and the value after `=` if there is one. */
  function KeyOf(part: string): string {
    var eq := IndexOf(part, '=');
    if eq == -1 then part else part[..eq]
  }

  function ValueOf(part: string): Option<string> {
    var eq := IndexOf(part, '=');
    if eq == -1 then None else Some(Trim(part[eq + 1..]))
  }

  /** The value given last for a field, or the empty string. */
  function LastValue(parts: seq<string>, field: Field): string {
    if parts == [] then ""
    else
      var part := Trim(parts[|parts| - 1]);
      if part != "" && FieldOf(KeyOf(part)) == field && ValueOf(part).Some? then ValueOf(part).value
      else LastValue(parts[..|parts| - 1], field)
  }

  /** The parts that are options, trimmed, in order. */
  function OptionsOf(parts: seq<string>): seq<string> {
    if parts == [] then []
    else
      var part := Trim(parts[|parts| - 1]);
      OptionsOf(parts[..|parts| - 1]) + if part != "" && FieldOf(KeyOf(part)) == Other then [part] else []
  }

  function Collected(parts: seq<string>): WorkspaceMount {
    WorkspaceMount(LastValue(parts, Kind), LastValue(parts, Source), LastValue(parts, Target), OptionsOf(parts))
  }

  /** The meaning of a mount string: per field the last value wins, all of them required; the rest are options. */
  function ParsedMount(mount: string): Result<WorkspaceMount, MountError> {
    var wm := Collected(Split(mount, ','));
    if wm.kind == "" then Failure(MissingType)
    else if wm.source == "" then Failure(MissingSource)
    else if wm.target == "" then Failure(MissingTarget)
    else Success(wm)
  }

  // ---------------------------------------------------------------------
  // The meaning in terms of the parts alone

  /** The trimmed part `part` is one of the keys with the value `v`. */
  ghost predicate Gives(part: string, keys: seq<string>, v: string) {
    exists i, w :: 0 <= i < |keys| && part == keys[i] + "=" + w && Trim(w) == v
  }

  /** `v` is what the last part with one of the keys gives, or empty if there is none. */
  ghost predicate LastGiven(parts: seq<string>, keys: seq<string>, v: string) {
    || (v == "" && forall i, u :: 0 <= i < |parts| ==> !Gives(Trim(parts[i]), keys, u))
    || exists i :: 0 <= i < |parts| && Gives(Trim(parts[i]), keys, v)
                   && forall j, u :: i < j < |parts| ==> !Gives(Trim(parts[j]), keys, u)
  }

  /** A part that is not empty and does not name one of the three fields. */
  ghost predicate IsOption(part: string) {
    && part != ""
    && forall key :: key in ["type", "source", "src", "target", "dst", "destination"] ==>
         part != key && forall w :: part != key + "=" + w
  }

  /** `options` are the options among the parts, trimmed and in order; `at` tells where they come from. */
  ghost predicate OptionsAt(parts: seq<string>, options: seq<string>, at: seq<nat>) {
    && |at| == |options| && Increasing(at)
    && (forall n :: 0 <= n < |at| ==> at[n] < |parts| && options[n] == Trim(parts[at[n]]) && IsOption(options[n]))
    && (forall i :: 0 <= i < |parts| && IsOption(Trim(parts[i])) ==> i in at)
  }

  function KeysOf(field: Field): seq<string>
    requires field != Other
  {
    match field
    case Kind => ["type"]
    case Source => ["source", "src"]
    case Target => ["target", "dst", "destination"]
  }

  lemma KeyedPart(key: string, w: string)
    requires '=' !in key
    ensures KeyOf(key + "=" + w) == key && ValueOf(key + "=" + w) == Some(Trim(w))
    ensures KeyOf(key) == key && ValueOf(key) == None
  {
    hide FirstFrom, Trim;
    var part := key + "=" + w;
    assert part[|key|] == '=' && forall i :: 0 <= i < |key| ==> part[i] == key[i];
    assert IndexOf(part, '=') == |key|;
    assert part[..|key|] == key && part[|key| + 1..] == w;
  }

  lemma PartSplits(part: string) returns (w: string)
    ensures ValueOf(part).Some? ==> part == KeyOf(part) + "=" + w && ValueOf(part).value == Trim(w)
    ensures ValueOf(part).None? ==> part == KeyOf(part)
  {
    hide IndexOf, Trim;
    var eq := IndexOf(part, '=');
    w := if eq == -1 then "" else part[eq + 1..];
    if eq >= 0 { SplitsAt(part, eq, "="); }
  }

  lemma SplitsAt(part: string, i: nat, middle: string)
    requires i < |part| && middle == [part[i]]
    ensures part == part[..i] + middle + part[i + 1..]
  {
  }

  lemma NoEquals(key: string)
    requires key in ["type", "source", "src", "target", "dst", "destination"]
    ensures '=' !in key
  {
  }

  lemma FieldKeys(key: string)
    ensures FieldOf(key) == Other <==> key !in ["type", "source", "src", "target", "dst", "destination"]
    ensures forall field :: field != Other ==> (FieldOf(key) == field <==> key in KeysOf(field))
  {
    assert "type"[0] == 't' && "type"[1] == 'y' && "target"[1] == 'a' && "dst"[0] == 'd' && "destination"[0] == 'd';
    assert "source"[0] == 's' && "src"[0] == 's';
  }

  lemma GivesIff(part: string, field: Field, v: string)
    requires field != Other
    ensures Gives(part, KeysOf(field), v) <==> FieldOf(KeyOf(part)) == field && ValueOf(part) == Some(v)
  {
    if Gives(part, KeysOf(field), v) { GivesOnly(part, field, v); }
    var own := PartSplits(part);
    FieldKeys(KeyOf(part));
    hide Trim, KeyOf, ValueOf, FieldOf, KeysOf;
    if FieldOf(KeyOf(part)) == field && ValueOf(part) == Some(v) {
      var keys := KeysOf(field);
      var i :| 0 <= i < |keys| && keys[i] == KeyOf(part);
      assert part == keys[i] + "=" + own && Trim(own) == v;
    }
  }

  lemma GivesOnly(part: string, field: Field, v: string)
    requires field != Other && Gives(part, KeysOf(field), v)
    ensures FieldOf(KeyOf(part)) == field && ValueOf(part) == Some(v)
  {
    var keys := KeysOf(field);
    var i, w :| 0 <= i < |keys| && part == keys[i] + "=" + w && Trim(w) == v;
    FieldKeys(keys[i]);
    NoEquals(keys[i]);
    KeyedPart(keys[i], w);
    hide Trim, KeyOf, ValueOf, FieldOf;
  }

  lemma IsOptionIff(part: string)
    ensures IsOption(part) <==> part != "" && FieldOf(KeyOf(part)) == Other
  {
    var own := PartSplits(part);
    FieldKeys(KeyOf(part));
    hide Trim, FieldOf, KeyOf, ValueOf;
    forall key | key in ["type", "source", "src", "target", "dst", "destination"]
      ensures part == key ==> KeyOf(part) == key
      ensures forall w :: part == key + "=" + w ==> KeyOf(part) == key
    {
      NoEquals(key);
      forall w | part == key + "=" + w ensures KeyOf(part) == key { KeyedPart(key, w); }
      KeyedPart(key, "");
    }
  }

  lemma {:induction false} LastValueMeans(parts: seq<string>, field: Field)
    requires field != Other
    ensures LastGiven(parts, KeysOf(field), LastValue(parts, field))
  {
    hide Gives, FieldOf, KeyOf, ValueOf, Trim, KeysOf;
    if parts != [] {
      var n := |parts| - 1;
      LastValueMeans(parts[..n], field);
      forall v ensures Gives(Trim(parts[n]), KeysOf(field), v) <==>
                       FieldOf(KeyOf(Trim(parts[n]))) == field && ValueOf(Trim(parts[n])) == Some(v)
      {
        GivesIff(Trim(parts[n]), field, v);
      }
      GivesNotEmpty(Trim(parts[n]), field);
      assert forall i :: 0 <= i < n ==> parts[..n][i] == parts[i];
    }
  }

  lemma GivesNotEmpty(part: string, field: Field)
    requires field != Other
    ensures part == "" ==> forall v :: !Gives(part, KeysOf(field), v)
  {
  }

  lemma OptionsAtMore(parts: seq<string>, options: seq<string>, at: seq<nat>, part: string)
    requires OptionsAt(parts, options, at)
    ensures if IsOption(Trim(part)) then OptionsAt(parts + [part], options + [Trim(part)], at + [|parts|])
            else OptionsAt(parts + [part], options, at)
  {
    hide IsOption, Trim;
    var more := parts + [part];
    forall i | 0 <= i < |more| && IsOption(Trim(more[i])) ensures if i < |parts| then i in at else i in at + [|parts|] {
      if i == |parts| { assert (at + [|parts|])[|at|] == i; } else { assert more[i] == parts[i]; }
    }
  }

  lemma {:induction false} OptionsMean(parts: seq<string>) returns (at: seq<nat>)
    ensures OptionsAt(parts, OptionsOf(parts), at)
  {
    hide IsOption, FieldOf, KeyOf, Trim, OptionsAt;
    if parts == [] {
      at := [];
      NoOptions();
    } else {
      var n := |parts| - 1;
      at := OptionsMean(parts[..n]);
      OptionsStep(parts);
      hide *;
      OptionsAtMore(parts[..n], OptionsOf(parts[..n]), at, parts[n]);
      at := if IsOption(Trim(parts[n])) then at + [n] else at;
      assert parts[..n] + [parts[n]] == parts;
    }
  }

  lemma NoOptions()
    ensures OptionsAt([], OptionsOf([]), [])
  {
  }

  lemma OptionsStep(parts: seq<string>)
    requires parts != []
    ensures var n := |parts| - 1;
            OptionsOf(parts) == if IsOption(Trim(parts[n])) then OptionsOf(parts[..n]) + [Trim(parts[n])] else OptionsOf(parts[..n])
  {
    IsOptionIff(Trim(parts[|parts| - 1]));
    hide IsOption, FieldOf, KeyOf, Trim;
  }

  /**
   Parsing a mount, in terms of its comma-separated parts: each field has the value given last
   under any of its names, the first field without one is reported, and the other parts are the options.
   */
  lemma MountMeans(parts: seq<string>) returns (kind: string, source: string, target: string, options: seq<string>, at: seq<nat>)
    requires |parts| >= 1 && forall i :: 0 <= i < |parts| ==> ',' !in parts[i]
    ensures LastGiven(parts, ["type"], kind)
    ensures LastGiven(parts, ["source", "src"], source)
    ensures LastGiven(parts, ["target", "dst", "destination"], target)
    ensures OptionsAt(parts, options, at)
    ensures ParsedMount(Join(parts, ',')) ==
            if kind == "" then Failure(MissingType)
            else if source == "" then Failure(MissingSource)
            else if target == "" then Failure(MissingTarget)
            else Success(WorkspaceMount(kind, source, target, options))
  {
    SplitJoin(parts, ',');
    kind, source, target, options := LastValue(parts, Kind), LastValue(parts, Source), LastValue(parts, Target), OptionsOf(parts);
    LastValueMeans(parts, Kind);
    LastValueMeans(parts, Source);
    LastValueMeans(parts, Target);
    at := OptionsMean(parts);
    hide LastGiven, OptionsAt, Join, Split, LastValue, OptionsOf;
  }

  /** One round of the parsing loop. */
  lemma CollectMore(parts: seq<string>, i: nat)
    requires i < |parts|
    ensures var part := Trim(parts[i]);
            var wm := Collected(parts[..i]);
            Collected(parts[..i + 1]) ==
            if part == "" then wm
            else match FieldOf(KeyOf(part))
              case Kind => if ValueOf(part).Some? then wm.(kind := ValueOf(part).value) else wm
              case Source => if ValueOf(part).Some? then wm.(source := ValueOf(part).value) else wm
              case Target => if ValueOf(part).Some? then wm.(target := ValueOf(part).value) else wm
              case Other => wm.(options := wm.options + [part])
  {
    hide FieldOf, KeyOf, ValueOf, Trim;
    assert parts[..i + 1][..i] == parts[..i];
  }

  /** The parsing loop of `ParseMountString`. */
  method CollectParts(parts: seq<string>) returns (wm: WorkspaceMount)
    ensures wm == Collected(parts)
  {
    wm := WorkspaceMount("", "", "", []);
    for i := 0 to |parts|
      invariant wm == Collected(parts[..i])
    {
      CollectMore(parts, i);
      hide FieldOf, KeyOf, ValueOf, Trim, Collected;
      var part := Trim(parts[i]);
      if part == "" {
        continue;
      }
      var value := ValueOf(part);
      match FieldOf(KeyOf(part)) {
        case Kind =>
          if value.Some? { wm := wm.(kind := value.value); }
        case Source =>
          if value.Some? { wm := wm.(source := value.value); }
        case Target =>
          if value.Some? { wm := wm.(target := value.value); }
        case Other =>
          wm := wm.(options := wm.options + [part]);
      }
    }
    assert parts[..|parts|] == parts;
  }

  /** `ParseMountString`. */
  method ParseMountString(mount: string) returns (r: Result<WorkspaceMount, MountError>)
    ensures r == ParsedMount(mount)
  {
    var wm := CollectParts(Split(mount, ','));
    if wm.kind == "" {
      return Failure(MissingType);
    }
    if wm.source == "" {
      return Failure(MissingSource);
    }
    if wm.target == "" {
      return Failure(MissingTarget);
    }
    return Success(wm);
  }

  /** The parts of the printed form. */
  function PrintedParts(wm: WorkspaceMount): seq<string> {
    ["type=" + wm.kind, "source=" + wm.source, "target=" + wm.target] + wm.options
  }

  function PrintedMount(wm: WorkspaceMount): string {
    Join(PrintedParts(wm), ',')
  }

  lemma {:induction false} JoinMore(parts: seq<string>, part: string, c: char)
    requires |parts| >= 1
    ensures Join(parts + [part], c) == Join(parts, c) + [c] + part
  {
    var more := parts + [part];
    if |parts| == 1 {
      assert more[1..] == [part];
    } else {
      assert more[1..] == parts[1..] + [part];
      JoinMore(parts[1..], part, c);
    }
  }

  lemma JoinThree(a: string, b: string, d: string, c: char)
    ensures Join([a, b, d], c) == a + [c] + b + [c] + d
  {
    JoinMore([a, b], d, c);
    JoinMore([a], b, c);
    assert [a, b, d] == [a, b] + [d] && [a, b] == [a] + [b];
  }

  /** `WorkspaceMount.String`. */
  method PrintMount(wm: WorkspaceMount) returns (s: string)
    ensures s == PrintedMount(wm)
  {
    ghost var fixed := ["type=" + wm.kind, "source=" + wm.source, "target=" + wm.target];
    s := "type=" + wm.kind + "," + "source=" + wm.source + "," + "target=" + wm.target;
    JoinThree("type=" + wm.kind, "source=" + wm.source, "target=" + wm.target, ',');
    assert fixed + wm.options[..0] == fixed;
    for i := 0 to |wm.options|
      invariant s == Join(fixed + wm.options[..i], ',')
    {
      hide Join;
      JoinMore(fixed + wm.options[..i], wm.options[i], ',');
      assert fixed + wm.options[..i + 1] == (fixed + wm.options[..i]) + [wm.options[i]];
      s := s + "," + wm.options[i];
    }
    assert wm.options[..|wm.options|] == wm.options;
  }

  // ---------------------------------------------------------------------
  // Round trip

  /** A value that survives as one part: trimmed and without commas. */
  predicate PlainValue(v: string) {
    v != "" && Trimmed(v) && ',' !in v
  }

  predicate PlainOption(o: string) {
    PlainValue(o) && FieldOf(KeyOf(o)) == Other
  }

  /** A mount that its printed form describes exactly. */
  ghost predicate PlainMount(wm: WorkspaceMount) {
    && PlainValue(wm.kind) && PlainValue(wm.source) && PlainValue(wm.target)
    && forall i :: 0 <= i < |wm.options| ==> PlainOption(wm.options[i])
  }

  lemma {:induction false} LastValuePlain(parts: seq<string>, field: Field)
    requires forall i :: 0 <= i < |parts| ==> ',' !in parts[i]
    ensures Trimmed(LastValue(parts, field)) && ',' !in LastValue(parts, field)
  {
    hide FieldOf, IsSpace, Trim, KeyOf;
    if parts != [] { LastValuePlain(parts[..|parts| - 1], field); }
  }

  lemma {:induction false} OptionsPlain(parts: seq<string>, k: nat)
    requires forall i :: 0 <= i < |parts| ==> ',' !in parts[i]
    requires k < |OptionsOf(parts)|
    ensures PlainOption(OptionsOf(parts)[k])
  {
    hide FieldOf, KeyOf, Trim, Trimmed;
    var front := parts[..|parts| - 1];
    if k < |OptionsOf(front)| { OptionsPlain(front, k); }
  }

  lemma ParsedIsPlain(mount: string)
    requires ParsedMount(mount).Success?
    ensures PlainMount(ParsedMount(mount).value)
  {
    var parts := Split(mount, ',');
    hide Split, LastValue, OptionsOf, PlainOption;
    LastValuePlain(parts, Kind);
    LastValuePlain(parts, Source);
    LastValuePlain(parts, Target);
    forall k | 0 <= k < |OptionsOf(parts)| ensures PlainOption(OptionsOf(parts)[k]) { OptionsPlain(parts, k); }
  }

  lemma FieldPart(key: string, v: string)
    requires key == "type" || key == "source" || key == "target"
    requires PlainValue(v)
    ensures var part := key + "=" + v;
            Trim(part) == part && ',' !in part && KeyOf(part) == key && ValueOf(part) == Some(v)
  {
    var part := key + "=" + v;
    assert '=' !in key && ',' !in key && !IsSpace(key[0]);
    hide IsSpace;
    assert part[|key|] == '=';
    assert IndexOf(part, '=') == |key|;
    assert part[..|key|] == key && part[|key| + 1..] == v;
    TrimFixed(v);
    assert part[0] == key[0] && part[|part| - 1] == v[|v| - 1];
    TrimFixed(part);
    hide Trim;
  }

  /** One option at the end. */
  lemma OptionMore(parts: seq<string>, option: string)
    requires PlainOption(option)
    ensures OptionsOf(parts + [option]) == OptionsOf(parts) + [option]
    ensures forall field :: field != Other ==> LastValue(parts + [option], field) == LastValue(parts, field)
  {
    TrimFixed(option);
    assert (parts + [option])[..|parts|] == parts;
    hide Trim, FieldOf, KeyOf, ValueOf, Trimmed;
  }

  /** Options at the end change no field and are kept. */
  lemma {:induction false} OptionsAtEnd(parts: seq<string>, options: seq<string>)
    requires forall i :: 0 <= i < |options| ==> PlainOption(options[i])
    ensures OptionsOf(parts + options) == OptionsOf(parts) + options
    ensures forall field :: field != Other ==> LastValue(parts + options, field) == LastValue(parts, field)
  {
    hide LastValue, OptionsOf, PlainOption;
    if options == [] {
      assert parts + options == parts;
    } else {
      var n := |options| - 1;
      OptionsAtEnd(parts, options[..n]);
      OptionMore(parts + options[..n], options[n]);
      assert parts + options == (parts + options[..n]) + [options[n]];
      assert options == options[..n] + [options[n]];
    }
  }

  lemma CollectOptions(parts: seq<string>, options: seq<string>)
    requires forall i :: 0 <= i < |options| ==> PlainOption(options[i])
    ensures Collected(parts + options) == Collected(parts).(options := OptionsOf(parts) + options)
  {
    OptionsAtEnd(parts, options);
    hide LastValue, OptionsOf, PlainOption;
  }

  /** A written field sets that field. */
  lemma CollectField(parts: seq<string>, i: nat, key: string, v: string)
    requires i < |parts| && parts[i] == key + "=" + v && PlainValue(v)
    requires key == "type" || key == "source" || key == "target"
    ensures var wm := Collected(parts[..i]);
            Collected(parts[..i + 1]) ==
            if key == "type" then wm.(kind := v) else if key == "source" then wm.(source := v) else wm.(target := v)
  {
    FieldPart(key, v);
    CollectMore(parts, i);
    assert FieldOf("type") == Kind && FieldOf("source") == Source && FieldOf("target") == Target;
    hide Trim, FieldOf, KeyOf, ValueOf, PlainValue, Collected;
  }

  lemma CollectFields(wm: WorkspaceMount, parts: seq<string>)
    requires PlainValue(wm.kind) && PlainValue(wm.source) && PlainValue(wm.target)
    requires parts == ["type=" + wm.kind, "source=" + wm.source, "target=" + wm.target]
    ensures Collected(parts) == wm.(options := [])
  {
    hide PlainValue, LastValue, OptionsOf, Collected;
    CollectNothing();
    CollectField(parts, 0, "type", wm.kind);
    CollectField(parts, 1, "source", wm.source);
    CollectField(parts, 2, "target", wm.target);
    assert parts[..3] == parts && parts[..0] == [];
    assert "type" != "source" && "target" != "source" && "type"[1] != "target"[1];
  }

  lemma CollectNothing()
    ensures Collected([]) == WorkspaceMount("", "", "", [])
  {
  }

  lemma PrintedCommaFree(wm: WorkspaceMount)
    requires PlainMount(wm)
    ensures forall i :: 0 <= i < |PrintedParts(wm)| ==> ',' !in PrintedParts(wm)[i]
  {
    FieldPart("type", wm.kind);
    FieldPart("source", wm.source);
    FieldPart("target", wm.target);
    hide Trim, FieldOf, KeyOf, ValueOf, Trimmed;
    forall i | 0 <= i < |PrintedParts(wm)| ensures ',' !in PrintedParts(wm)[i] {
      if i >= 3 { assert PlainOption(wm.options[i - 3]); }
    }
  }

  /** A plain mount is recovered from its printed form. */
  lemma PlainRoundTrip(wm: WorkspaceMount)
    requires PlainMount(wm)
    ensures ParsedMount(PrintedMount(wm)) == Success(wm)
  {
    var fixed := ["type=" + wm.kind, "source=" + wm.source, "target=" + wm.target];
    PrintedCommaFree(wm);
    hide Trim, FieldOf, KeyOf, ValueOf, Trimmed, LastValue, OptionsOf, Split, Join, PlainOption;
    SplitJoin(PrintedParts(wm), ',');
    CollectFields(wm, fixed);
    CollectOptions(fixed, wm.options);
    assert Collected(PrintedParts(wm)) == wm;
    hide Collected, PrintedParts;
  }

  /** For every string that parses, printing the mount and parsing again gives the same mount. */
  lemma ParsePrintParse(mount: string)
    requires ParsedMount(mount).Success?
    ensures ParsedMount(PrintedMount(ParsedMount(mount).value)) == ParsedMount(mount)
  {
    ParsedIsPlain(mount);
    hide PlainMount, ParsedMount, PrintedMount;
    PlainRoundTrip(ParsedMount(mount).value);
  }

  /** The mounts that survive printing and parsing are exactly the plain ones. */
  lemma RoundTripIff(wm: WorkspaceMount)
    ensures ParsedMount(PrintedMount(wm)) == Success(wm) <==> PlainMount(wm)
  {
    if PlainMount(wm) { PlainRoundTrip(wm); }
    hide PlainMount, ParsedMount, PrintedMount;
    if ParsedMount(PrintedMount(wm)) == Success(wm) { ParsedIsPlain(PrintedMount(wm)); }
  }

  // ---------------------------------------------------------------------
  // The form dcx writes, and the compose form

  datatype ResolvedMount = ResolvedMount(source: string, target: string, readOnly: bool)

  /** `mounts.Format`. */
  function Format(m: ResolvedMount): string {
    "type=bind,source=" + m.source + ",target=" + m.target + if m.readOnly then ",readonly" else ""
  }

  datatype ComposeVolume = ComposeVolume(
    kind: string, source: string, target: string, readOnly: bool, consistency: string, propagation: Option<string>)

  /** The effect of one option on a volume; unsupported ones are skipped. */
  function ApplyOption(vol: ComposeVolume, opt: string): ComposeVolume {
    if opt == "readonly" then vol.(readOnly := true)
    else if HasPrefix(opt, "consistency=") then vol.(consistency := opt[|"consistency="|..])
    else if HasPrefix(opt, "bind-propagation=") then vol.(propagation := Some(opt[|"bind-propagation="|..]))
    else vol
  }

  function ApplyOptions(vol: ComposeVolume, opts: seq<string>): ComposeVolume {
    if opts == [] then vol else ApplyOption(ApplyOptions(vol, opts[..|opts| - 1]), opts[|opts| - 1])
  }

  function ComposeVolumeOf(wm: WorkspaceMount): ComposeVolume {
    ApplyOptions(ComposeVolume(wm.kind, wm.source, wm.target, false, "", None), wm.options)
  }

  /** `v` is what follows `prefix` in the last option that begins with it. */
  ghost predicate LastPrefixed(opts: seq<string>, prefix: string, v: Option<string>) {
    match v
    case None => forall i, u :: 0 <= i < |opts| ==> opts[i] != prefix + u
    case Some(t) => exists i :: 0 <= i < |opts| && opts[i] == prefix + t && forall j, u :: i < j < |opts| ==> opts[j] != prefix + u
  }

  lemma LastPrefixedMore(opts: seq<string>, prefix: string, v: Option<string>, opt: string)
    requires LastPrefixed(opts, prefix, v)
    ensures if HasPrefix(opt, prefix) then LastPrefixed(opts + [opt], prefix, Some(opt[|prefix|..]))
            else LastPrefixed(opts + [opt], prefix, v)
  {
    var more := opts + [opt];
    if HasPrefix(opt, prefix) {
      assert more[|opts|] == prefix + opt[|prefix|..];
    } else {
      PrefixMeans(opt, prefix);
      assert forall i :: 0 <= i < |opts| ==> more[i] == opts[i];
      assert forall u :: opt != prefix + u;
      if v.Some? {
        var i :| 0 <= i < |opts| && opts[i] == prefix + v.value && forall j, u :: i < j < |opts| ==> opts[j] != prefix + u;
        assert more[i] == prefix + v.value;
      }
    }
  }

  lemma {:induction false} OptionsGive(vol: ComposeVolume, opts: seq<string>) returns (consistency: Option<string>)
    requires vol.consistency == "" && vol.propagation == None && !vol.readOnly
    ensures var r := ApplyOptions(vol, opts);
            && r.kind == vol.kind && r.source == vol.source && r.target == vol.target
            && (r.readOnly <==> "readonly" in opts)
            && LastPrefixed(opts, "consistency=", consistency)
            && r.consistency == (if consistency.Some? then consistency.value else "")
            && LastPrefixed(opts, "bind-propagation=", r.propagation)
  {
    if opts == [] {
      consistency := None;
    } else {
      var n := |opts| - 1;
      consistency := OptionsGive(vol, opts[..n]);
      OptionsApply(vol, opts);
      hide ApplyOptions, LastPrefixed, HasPrefix;
      assert opts == opts[..n] + [opts[n]];
      var before := ApplyOptions(vol, opts[..n]);
      PrefixesDiffer(opts[n]);
      LastPrefixedMore(opts[..n], "consistency=", consistency, opts[n]);
      LastPrefixedMore(opts[..n], "bind-propagation=", before.propagation, opts[n]);
      if HasPrefix(opts[n], "consistency=") { consistency := Some(opts[n][|"consistency="|..]); }
    }
  }

  lemma OptionsApply(vol: ComposeVolume, opts: seq<string>)
    requires opts != []
    ensures ApplyOptions(vol, opts) == ApplyOption(ApplyOptions(vol, opts[..|opts| - 1]), opts[|opts| - 1])
  {
  }

  lemma PrefixesDiffer(opt: string)
    ensures !(HasPrefix(opt, "consistency=") && HasPrefix(opt, "bind-propagation="))
    ensures opt == "readonly" ==> !HasPrefix(opt, "consistency=") && !HasPrefix(opt, "bind-propagation=")
    ensures HasPrefix(opt, "consistency=") ==> |opt| >= |"consistency="|
    ensures HasPrefix(opt, "bind-propagation=") ==> |opt| >= |"bind-propagation="|
  {
    assert "readonly"[0] == 'r' && "consistency="[0] == 'c' && "bind-propagation="[0] == 'b';
  }

  /** The compose volume of a mount: read-only if an option says so, with the last consistency and propagation given. */
  lemma VolumeMeans(wm: WorkspaceMount) returns (consistency: Option<string>)
    ensures var r := ComposeVolumeOf(wm);
            && r.kind == wm.kind && r.source == wm.source && r.target == wm.target
            && (r.readOnly <==> "readonly" in wm.options)
            && LastPrefixed(wm.options, "consistency=", consistency)
            && r.consistency == (if consistency.Some? then consistency.value else "")
            && LastPrefixed(wm.options, "bind-propagation=", r.propagation)
  {
    consistency := OptionsGive(ComposeVolume(wm.kind, wm.source, wm.target, false, "", None), wm.options);
    hide ApplyOptions, LastPrefixed;
  }

  /** The compose volume a mount string stands for. */
  function Converted(mount: string): Result<ComposeVolume, MountError> {
    match ParsedMount(mount)
    case Failure(e) => Failure(e)
    case Success(wm) => Success(ComposeVolumeOf(wm))
  }

  /** `mountEntryToComposeVolume`. */
  method MountEntryToComposeVolume(mount: string) returns (r: Result<ComposeVolume, MountError>)
    ensures r == Converted(mount)
  {
    var parsed := ParseMountString(mount);
    if parsed.Failure? {
      return Failure(parsed.error);
    }
    var wm := parsed.value;
    var vol := ComposeVolume(wm.kind, wm.source, wm.target, false, "", None);
    hide ParsedMount;
    for i := 0 to |wm.options|
      invariant vol == ApplyOptions(ComposeVolume(wm.kind, wm.source, wm.target, false, "", None), wm.options[..i])
    {
      hide ApplyOption;
      assert wm.options[..i + 1][..i] == wm.options[..i];
      vol := ApplyOption(vol, wm.options[i]);
    }
    assert wm.options[..|wm.options|] == wm.options;
    return Success(vol);
  }

  /** The mount that a formatted bind mount is meant to describe. */
  function Intended(m: ResolvedMount): WorkspaceMount {
    WorkspaceMount("bind", m.source, m.target, if m.readOnly then ["readonly"] else [])
  }

  lemma FormatPrints(m: ResolvedMount)
    ensures Format(m) == PrintedMount(Intended(m))
  {
    var a, b, c := "type=bind", "source=" + m.source, "target=" + m.target;
    JoinThree(a, b, c, ',');
    JoinMore([a, b, c], "readonly", ',');
    assert "type=" + "bind" == a && [a, b, c] + [] == [a, b, c];
    assert PrintedParts(Intended(m)) == [a, b, c] + if m.readOnly then ["readonly"] else [];
    hide Join, PrintedParts, Intended;
    assert PrintedMount(Intended(m)) == a + "," + b + "," + c + if m.readOnly then ",readonly" else "";
  }

  lemma IntendedPlain(m: ResolvedMount)
    ensures PlainMount(Intended(m)) <==> PlainValue(m.source) && PlainValue(m.target)
  {
    assert PlainValue("bind");
    assert '=' !in "readonly";
    assert PlainOption("readonly");
  }

  lemma IntendedVolume(m: ResolvedMount)
    ensures ComposeVolumeOf(Intended(m)) == ComposeVolume("bind", m.source, m.target, m.readOnly, "", None)
  {
    var vol := ComposeVolume("bind", m.source, m.target, false, "", None);
    assert ["readonly"][..0] == [] && ApplyOptions(vol, []) == vol;
    assert ApplyOptions(vol, ["readonly"]) == ApplyOption(vol, "readonly");
  }

  /** A compose volume with the same paths and read-only flag. */
  predicate SameMount(m: ResolvedMount, r: Result<ComposeVolume, MountError>) {
    r == Success(ComposeVolume("bind", m.source, m.target, m.readOnly, "", None))
  }

  lemma {:induction false} OptionsKeepPaths(vol: ComposeVolume, opts: seq<string>)
    ensures ApplyOptions(vol, opts).source == vol.source && ApplyOptions(vol, opts).target == vol.target
  {
    if opts != [] { OptionsKeepPaths(vol, opts[..|opts| - 1]); }
  }

  /** A formatted bind mount becomes the same compose volume exactly when its paths are plain. */
  lemma FormatConvertsIff(m: ResolvedMount)
    ensures SameMount(m, Converted(Format(m))) <==> PlainValue(m.source) && PlainValue(m.target)
  {
    FormatPrints(m);
    IntendedPlain(m);
    if PlainValue(m.source) && PlainValue(m.target) {
      PlainRoundTrip(Intended(m));
      IntendedVolume(m);
      hide ParsedMount, Format, PrintedMount, PlainMount, Intended, ComposeVolumeOf, PlainValue;
      assert Converted(Format(m)) == Success(ComposeVolumeOf(Intended(m)));
    }
    if SameMount(m, Converted(Format(m))) {
      ParsedIsPlain(Format(m));
      var wm := ParsedMount(Format(m)).value;
      OptionsKeepPaths(ComposeVolume(wm.kind, wm.source, wm.target, false, "", None), wm.options);
    }
  }
}
