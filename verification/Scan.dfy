/**
 The two `${...}` patterns of dcx as explicit scans, and replacement of every
 match from left to right (`ReplaceAllStringFunc`).
 */
module Scan {
  import opened Wrappers
  import opened Text

  datatype Pattern =
    | NegatedClass // \$\{([^}]+)\}, of vars.go and env.go
    | LazyDot      // \${(.+?)}, of mounts.go

  /** The texts a pattern describes. */
  ghost predicate InLanguage(p: Pattern, w: string) {
    && |w| >= 4 && w[0] == '$' && w[1] == '{' && w[|w| - 1] == '}'
    && forall k :: 2 <= k < |w| - 1 ==> w[k] != (if p.NegatedClass? then '}' else '\n')
  }

  predicate Opens(s: string) {
    |s| >= 4 && s[0] == '$' && s[1] == '{'
  }

  /** The length of the match at the start of `s`, if there is one. */
  function Match(p: Pattern, s: string): (r: Option<nat>)
    ensures r.Some? ==> 4 <= r.value <= |s|
  {
    if !Opens(s) then None
    else if p.NegatedClass? then
      var end := FirstFrom(s, '}', 2);
      if end <= 2 then None else Some(end + 1)
    else
      var end := FirstFrom(s, '}', 3);
      if end == -1 || '\n' in s[2..end] then None else Some(end + 1)
  }

  /** A match is the shortest prefix in the pattern's language. */
  lemma MatchIsShortest(p: Pattern, s: string)
    ensures Match(p, s).None? ==> forall n :: 0 <= n <= |s| ==> !InLanguage(p, s[..n])
    ensures Match(p, s).Some? ==>
              var n := Match(p, s).value;
              InLanguage(p, s[..n]) && forall m :: 0 <= m < n ==> !InLanguage(p, s[..m])
  {
    hide FirstFrom;
  }

  function Inner(s: string, n: nat): string
    requires 4 <= n <= |s|
  {
    s[2..n - 1]
  }

  /** The references found in `s`, from left to right. */
  function References(p: Pattern, s: string): seq<string> {
    if s == "" then []
    else
      match Match(p, s)
      case Some(n) => [Inner(s, n)] + References(p, s[n..])
      case None => References(p, s[1..])
  }

  /** `s` with every match replaced by the value of its reference. */
  function Expand(p: Pattern, s: string, value: string -> string): string {
    if s == "" then ""
    else
      match Match(p, s)
      case Some(n) => value(Inner(s, n)) + Expand(p, s[n..], value)
      case None => [s[0]] + Expand(p, s[1..], value)
  }

  /** A reference written out. */
  function Written(inner: string): string {
    "${" + inner + "}"
  }

  /**
   The scan in terms of the pattern's language alone: at each position the shortest text of
   the language is taken whole and replaced, and a character that begins none is kept.
   */
  lemma ScanEquations(p: Pattern, w: string, t: string, value: string -> string)
    ensures Expand(p, "", value) == "" && References(p, "") == []
    ensures InLanguage(p, w) && (forall m :: 0 <= m < |w| ==> !InLanguage(p, w[..m])) ==>
              && Expand(p, w + t, value) == value(w[2..|w| - 1]) + Expand(p, t, value)
              && References(p, w + t) == [w[2..|w| - 1]] + References(p, t)
    ensures t != "" && (forall n :: 0 <= n <= |t| ==> !InLanguage(p, t[..n])) ==>
              Expand(p, t, value) == [t[0]] + Expand(p, t[1..], value) && References(p, t) == References(p, t[1..])
  {
    hide Match, InLanguage;
    if InLanguage(p, w) && forall m :: 0 <= m < |w| ==> !InLanguage(p, w[..m]) {
      ShortestMatches(p, w, t);
      assert Inner(w + t, |w|) == w[2..|w| - 1] && (w + t)[|w|..] == t;
    }
    MatchIsShortest(p, t);
  }

  lemma ShortestMatches(p: Pattern, w: string, t: string)
    requires InLanguage(p, w) && forall m :: 0 <= m < |w| ==> !InLanguage(p, w[..m])
    ensures |w| >= 4 && Match(p, w + t) == Some(|w|)
  {
    assert |w| >= 4;
    hide Match, InLanguage;
    MatchIsShortest(p, w + t);
    assert (w + t)[..|w|] == w;
    assert forall m :: 0 <= m < |w| ==> (w + t)[..m] == w[..m];
  }

  lemma MatchText(p: Pattern, s: string, n: nat)
    requires Match(p, s) == Some(n)
    ensures s[..n] == Written(Inner(s, n))
  {
    hide FirstFrom;
  }

  // ---------------------------------------------------------------------
  // The host environment

  /** The names a variable of the host can have. */
  predicate Settable(name: string) {
    name != "" && '=' !in name && '\0' !in name
  }

  type Env = env: map<string, string> | forall name :: name in env ==> Settable(name)

  // ---------------------------------------------------------------------
  // Fixpoints

  /** Replacing references by themselves changes nothing; in particular if there are none. */
  lemma {:induction false} SelfReplacement(p: Pattern, s: string, value: string -> string)
    requires forall inner :: inner in References(p, s) ==> value(inner) == Written(inner)
    ensures Expand(p, s, value) == s
  {
    if s != "" {
      hide Match, Written;
      match Match(p, s)
      case Some(n) =>
        var inner := Inner(s, n);
        assert References(p, s) == [inner] + References(p, s[n..]);
        assert inner in References(p, s);
        MatchText(p, s, n);
        SelfReplacement(p, s[n..], value);
        assert s == s[..n] + s[n..];
      case None =>
        SelfReplacement(p, s[1..], value);
        assert s == [s[0]] + s[1..];
    }
  }

  /** Each `${` in `w` is followed by `}` at once, so that no reference begins there. */
  predicate Shut(w: string) {
    forall i :: 0 <= i < |w| - 1 && w[i] == '$' && w[i + 1] == '{' ==> i + 2 < |w| && w[i + 2] == '}'
  }

  /** A value that begins no reference, even behind a dollar sign. */
  predicate Clean(v: string) {
    var w := "$" + v;
    w[|w| - 1] != '$' && Shut(w)
  }

  /** Plain values are clean. */
  lemma PlainIsClean(v: string)
    requires v != "" && '$' !in v && '{' !in v
    ensures Clean(v)
  {
  }

  /** Every reference in `s` has a clean value or stands for itself. */
  ghost predicate Tame(s: string, value: string -> string) {
    forall inner :: inner in References(NegatedClass, s) ==> Clean(value(inner)) || value(inner) == Written(inner)
  }

  /** Text without a dollar sign is passed over. */
  lemma {:induction false} NoDollar(v: string, t: string)
    requires '$' !in v
    ensures References(NegatedClass, v + t) == References(NegatedClass, t)
  {
    if v == "" {
      assert v + t == t;
    } else {
      assert (v + t)[1..] == v[1..] + t;
      NoDollar(v[1..], t);
    }
  }

  lemma WrittenNotClean(inner: string)
    requires inner != "" && '}' !in inner
    ensures !Clean(Written(inner))
  {
    var w := "$" + Written(inner);
    assert w[1] == '$' && w[2] == '{' && w[3] == inner[0];
  }

  /** So is clean text. */
  lemma {:induction false} ShutSkipped(v: string, t: string)
    requires Shut(v) && (v == "" || v[|v| - 1] != '$')
    ensures References(NegatedClass, v + t) == References(NegatedClass, t)
  {
    if v == "" {
      assert v + t == t;
    } else {
      ShutHead(v, t);
      hide Shut, Match;
      assert (v + t)[1..] == v[1..] + t;
      ShutSkipped(v[1..], t);
    }
  }

  lemma ShutHead(v: string, t: string)
    requires Shut(v) && v != "" && v[|v| - 1] != '$'
    ensures Match(NegatedClass, v + t).None?
    ensures Shut(v[1..])
  {
    hide FirstFrom;
    var s := v + t;
    if |v| > 1 && v[0] == '$' && v[1] == '{' {
      assert v[2] == '}' && s[2] == '}';
    }
    assert |v| > 1 ==> s[1] == v[1];
    ShutTail(v);
  }

  lemma ShutTail(v: string)
    requires Shut(v) && v != ""
    ensures Shut(v[1..])
  {
    forall i | 0 <= i < |v[1..]| - 1 && v[1..][i] == '$' && v[1..][i + 1] == '{'
      ensures i + 2 < |v[1..]| && v[1..][i + 2] == '}'
    {
      assert v[i + 1] == '$' && v[i + 2] == '{';
      assert v[i + 1 + 2] == '}';
    }
  }

  lemma CleanSkipped(v: string, t: string)
    requires Clean(v)
    ensures References(NegatedClass, v + t) == References(NegatedClass, t)
  {
    var w := "$" + v;
    assert w[1..] == v;
    if |w| > 1 { ShutTail(w); }
    hide Shut, Match;
    ShutSkipped(v, t);
  }

  /** A dollar sign and an opening brace begin a reference when some brace closes it later. */
  lemma {:induction false} OpenedReference(p: string, q: string)
    requires q != "" && q[0] != '}' && '}' in q
    ensures References(NegatedClass, p + "${" + q) != []
  {
    hide FirstFrom;
    var w := p + "${" + q;
    if p == "" {
      var k :| 0 <= k < |q| && q[k] == '}';
      assert w[2] == q[0] && w[k + 2] == '}';
    } else {
      assert w[1..] == p[1..] + "${" + q;
      OpenedReference(p[1..], q);
    }
  }

  /** Without a closing brace there is no reference. */
  lemma {:induction false} NoBrace(s: string)
    requires '}' !in s
    ensures References(NegatedClass, s) == []
  {
    hide FirstFrom;
    if s != "" { NoBrace(s[1..]); }
  }

  /** A written reference is recognised whatever follows it. */
  lemma WrittenMatches(inner: string, t: string)
    requires inner != "" && '}' !in inner
    ensures Match(NegatedClass, Written(inner) + t) == Some(|inner| + 3)
    ensures References(NegatedClass, Written(inner) + t) == [inner] + References(NegatedClass, t)
  {
    hide FirstFrom;
    var s := Written(inner) + t;
    assert s[|inner| + 2] == '}';
    forall k | 2 <= k < |inner| + 2 ensures s[k] != '}' { assert s[k] == inner[k - 2]; }
    assert Inner(s, |inner| + 3) == inner && s[|inner| + 3..] == t;
  }

  /** A written reference is expanded whatever follows it. */
  lemma WrittenExpands(inner: string, t: string, value: string -> string)
    requires inner != "" && '}' !in inner
    ensures Expand(NegatedClass, Written(inner) + t, value) == value(inner) + Expand(NegatedClass, t, value)
  {
    WrittenMatches(inner, t);
    hide Match;
    var s := Written(inner) + t;
    assert Inner(s, |inner| + 3) == inner && s[|inner| + 3..] == t;
  }

  /** Text without a dollar sign stays as it is. */
  lemma NoDollarExpands(t: string, value: string -> string)
    requires '$' !in t
    ensures Expand(NegatedClass, t, value) == t
  {
    NoDollar(t, "");
    assert t + "" == t;
    SelfReplacement(NegatedClass, t, value);
  }

  /** A dollar sign before a reference is plain text. */
  lemma DollarBefore(inner: string, t: string, value: string -> string)
    requires inner != "" && '}' !in inner
    ensures Expand(NegatedClass, "$" + Written(inner) + t, value) == "$" + value(inner) + Expand(NegatedClass, t, value)
  {
    var s := "$" + Written(inner) + t;
    assert s[1] == '$' && s[1..] == Written(inner) + t;
    WrittenExpands(inner, t, value);
    assert Match(NegatedClass, s).None?;
    hide Match;
  }

  lemma InnerHasNoBrace(s: string, n: nat)
    requires Match(NegatedClass, s) == Some(n)
    ensures Inner(s, n) != "" && '}' !in Inner(s, n)
  {
    hide FirstFrom;
  }

  /** A clean value opens with a brace only to close it. */
  lemma CleanHead(v: string, t: string)
    requires Clean(v)
    ensures v != "" && ((v + t)[0] == '{' ==> |v + t| > 1 && (v + t)[1] == '}')
  {
    var w := "$" + v;
    if v != "" && v[0] == '{' { assert w[0] == '$' && w[1] == '{'; assert w[2] == '}'; }
  }

  lemma {:induction false} ReferencesProper(s: string)
    ensures forall inner :: inner in References(NegatedClass, s) ==> inner != "" && '}' !in inner
  {
    if s != "" {
      hide Match, Inner;
      match Match(NegatedClass, s)
      case Some(n) =>
        InnerHasNoBrace(s, n);
        ReferencesProper(s[n..]);
      case None => ReferencesProper(s[1..]);
    }
  }

  /** What the expansion of `s` starts with. */
  lemma ExpandHead(s: string, value: string -> string)
    requires s != "" && Tame(s, value)
    ensures Expand(NegatedClass, s, value) != ""
    ensures Match(NegatedClass, s).None? ==> Expand(NegatedClass, s, value)[0] == s[0]
    ensures s[0] != '{' ==> var out := Expand(NegatedClass, s, value); out[0] == '{' ==> |out| > 1 && out[1] == '}'
  {
    match Match(NegatedClass, s)
    case Some(n) =>
      var v, rest := value(Inner(s, n)), Expand(NegatedClass, s[n..], value);
      assert Inner(s, n) in References(NegatedClass, s);
      if Clean(v) { CleanHead(v, rest); }
    case None =>
  }

  lemma TameTail(s: string, value: string -> string)
    requires s != "" && Tame(s, value)
    ensures match Match(NegatedClass, s) case Some(n) => Tame(s[n..], value) case None => Tame(s[1..], value)
  {
    hide Match;
  }

  /** An unmatched first character stays unmatched after the rest has been expanded. */
  lemma NoNewMatch(s: string, value: string -> string)
    requires s != "" && Match(NegatedClass, s).None? && Tame(s, value)
    ensures Match(NegatedClass, [s[0]] + Expand(NegatedClass, s[1..], value)).None?
  {
    hide FirstFrom;
    var t := s[1..];
    TameTail(s, value);
    if s[0] == '$' && t != "" {
      ExpandHead(t, value);
      var out := [s[0]] + Expand(NegatedClass, t, value);
      if t[0] != '{' {
        assert out[1] == '{' ==> out[2] == '}';
      } else {
        var u := t[1..];
        assert Match(NegatedClass, t).None?;
        TameTail(t, value);
        assert s == "${" + u;
        assert Expand(NegatedClass, t, value) == "{" + Expand(NegatedClass, u, value);
        assert [s[0]] + Expand(NegatedClass, t, value) == "${" + Expand(NegatedClass, u, value);
        if u != "" { AfterBrace(s, u, value); }
      }
    }
  }

  /** The case of an opening brace after the dollar sign. */
  lemma AfterBrace(s: string, u: string, value: string -> string)
    requires u != "" && s == "${" + u && Match(NegatedClass, s).None? && Tame(u, value)
    ensures Match(NegatedClass, "${" + Expand(NegatedClass, u, value)).None?
  {
    hide FirstFrom;
    if u[0] == '}' {
      ExpandHead(u, value);
      assert ("${" + Expand(NegatedClass, u, value))[2] == '}';
    } else {
      forall k | 0 <= k < |u| ensures u[k] != '}' { assert s[k + 2] == u[k]; }
      NoBrace(u);
      SelfReplacement(NegatedClass, u, value);
    }
  }

  /** After expansion only references that stand for themselves are left. */
  lemma {:induction false} OnlyUnknownRemain(s: string, value: string -> string, inner: string)
    requires Tame(s, value) && inner in References(NegatedClass, Expand(NegatedClass, s, value))
    ensures inner in References(NegatedClass, s) && value(inner) == Written(inner)
    decreases |s|
  {
    TameTail(s, value);
    match Match(NegatedClass, s)
    case Some(n) =>
      var ref, rest := Inner(s, n), Expand(NegatedClass, s[n..], value);
      assert ref in References(NegatedClass, s);
      if Clean(value(ref)) {
        CleanSkipped(value(ref), rest);
      } else {
        InnerHasNoBrace(s, n);
        WrittenMatches(ref, rest);
      }
      if inner in References(NegatedClass, rest) { OnlyUnknownRemain(s[n..], value, inner); }
    case None =>
      NoNewMatch(s, value);
      var rest := Expand(NegatedClass, s[1..], value);
      assert ([s[0]] + rest)[1..] == rest;
      OnlyUnknownRemain(s[1..], value, inner);
  }

  /** A text with one reference, whose value `v` is not clean, that ends up with another reference. */
  function Revealing(ref: string, v: string): string {
    "$" + Written(ref) + if Shut("$" + v) then "{x}" else "x}"
  }

  /** Behind a dollar sign, and before the right brace, an unclean value begins a reference. */
  lemma UncleanOpens(v: string)
    requires !Clean(v)
    ensures References(NegatedClass, "$" + v + if Shut("$" + v) then "{x}" else "x}") != []
  {
    var w := "$" + v;
    if Shut(w) {
      assert w + "{x}" == w[..|w| - 1] + "${" + "x}";
      OpenedReference(w[..|w| - 1], "x}");
    } else {
      var i :| 0 <= i < |w| - 1 && w[i] == '$' && w[i + 1] == '{' && !(i + 2 < |w| && w[i + 2] == '}');
      var q := w[i + 2..] + "x}";
      assert w + "x}" == w[..i] + "${" + q;
      assert q[|q| - 1] == '}';
      OpenedReference(w[..i], q);
    }
  }

  lemma OnlyReference(ref: string, tail: string)
    requires ref != "" && '}' !in ref && '$' !in tail
    ensures References(NegatedClass, "$" + Written(ref) + tail) == [ref]
  {
    var s := "$" + Written(ref) + tail;
    assert s[1..] == Written(ref) + tail && s[1] == '$';
    WrittenMatches(ref, tail);
    NoDollar(tail, "");
    assert tail + "" == tail;
  }

  lemma UncleanReveals(ref: string, value: string -> string)
    requires ref != "" && '}' !in ref && !Clean(value(ref))
    ensures References(NegatedClass, Revealing(ref, value(ref))) == [ref]
    ensures References(NegatedClass, Expand(NegatedClass, Revealing(ref, value(ref)), value)) != []
  {
    var v := value(ref);
    var tail := if Shut("$" + v) then "{x}" else "x}";
    assert '$' !in tail && Revealing(ref, v) == "$" + Written(ref) + tail;
    hide *;
    OnlyReference(ref, tail);
    DollarBefore(ref, tail, value);
    NoDollarExpands(tail, value);
    UncleanOpens(v);
  }

  /** The clean values are exactly those that never create a reference by being put in. */
  lemma CleanIff(ref: string, value: string -> string)
    requires ref != "" && '}' !in ref
    ensures Clean(value(ref))
       <==> forall s :: References(NegatedClass, s) == [ref] ==> References(NegatedClass, Expand(NegatedClass, s, value)) == []
  {
    if Clean(value(ref)) {
      forall s | References(NegatedClass, s) == [ref] ensures References(NegatedClass, Expand(NegatedClass, s, value)) == [] {
        var left := References(NegatedClass, Expand(NegatedClass, s, value));
        if left != [] {
          OnlyUnknownRemain(s, value, left[0]);
          assert value(ref) == Written(ref);
          WrittenNotClean(ref);
        }
      }
    } else {
      UncleanReveals(ref, value);
    }
  }

  // ---------------------------------------------------------------------
  // The two patterns compared

  /** At the start of `s` the patterns part company only over `${}` or a newline. */
  lemma PatternsDifferIff(s: string)
    ensures Match(NegatedClass, s) != Match(LazyDot, s)
       <==> || (HasPrefix(s, "${}") && Match(LazyDot, s).Some?)
            || (Match(NegatedClass, s).Some? && '\n' in Inner(s, Match(NegatedClass, s).value))
  {
    hide FirstFrom;
    if Opens(s) && s[2] == '}' {
      assert HasPrefix(s, "${}");
      assert FirstFrom(s, '}', 2) == 2;
    } else if Opens(s) {
      assert FirstFrom(s, '}', 2) == FirstFrom(s, '}', 3);
    }
  }

  /** No reference of either pattern holds a character that the other one excludes. */
  ghost predicate Alike(s: string) {
    && (forall r :: r in References(LazyDot, s) ==> '}' !in r)
    && (forall r :: r in References(NegatedClass, s) ==> '\n' !in r)
  }

  lemma AlikeHead(s: string)
    requires Alike(s) && s != ""
    ensures Match(NegatedClass, s) == Match(LazyDot, s)
  {
    hide FirstFrom;
    match Match(LazyDot, s) {
      case Some(n) =>
        assert Inner(s, n) in References(LazyDot, s);
        assert s[2] == Inner(s, n)[0];
      case None =>
    }
    match Match(NegatedClass, s) {
      case Some(n) => assert Inner(s, n) in References(NegatedClass, s);
      case None =>
    }
    PatternsDifferIff(s);
  }

  /** On such texts both patterns find the same references. */
  lemma {:induction false} PatternsAgree(s: string, value: string -> string)
    requires Alike(s)
    ensures References(NegatedClass, s) == References(LazyDot, s)
    ensures Expand(NegatedClass, s, value) == Expand(LazyDot, s, value)
    decreases |s|
  {
    if s == "" {
    } else {
      AlikeHead(s);
      hide Match;
      match Match(NegatedClass, s)
      case Some(n) => PatternsAgree(s[n..], value);
      case None => PatternsAgree(s[1..], value);
    }
  }

  /** A lazy match stays on its line. */
  lemma {:induction false} LazyProper(s: string)
    ensures forall r :: r in References(LazyDot, s) ==> '\n' !in r
    decreases |s|
  {
    hide FirstFrom;
    if s == "" {
    } else {
      match Match(LazyDot, s)
      case Some(n) => LazyProper(s[n..]);
      case None => LazyProper(s[1..]);
    }
  }

  /** A value that shows whether `ref` is among the references of a text. */
  function Telltale(ref: string, s: string): string -> string {
    inner => if inner == ref then s + "x" else ""
  }

  lemma {:induction false} TelltaleLength(p: Pattern, s: string, ref: string, t: string)
    ensures ref in References(p, s) ==> |Expand(p, s, Telltale(ref, t))| > |t|
    ensures ref !in References(p, s) ==> |Expand(p, s, Telltale(ref, t))| <= |s|
    decreases |s|
  {
    if s == "" {
    } else {
      hide Match;
      match Match(p, s)
      case Some(n) => TelltaleLength(p, s[n..], ref, t);
      case None => TelltaleLength(p, s[1..], ref, t);
    }
  }

  /** A reference that only one pattern finds is betrayed by some value. */
  lemma OnlyOneFinds(s: string, ref: string)
    requires ref in References(NegatedClass, s) <==> ref !in References(LazyDot, s)
    ensures Expand(NegatedClass, s, Telltale(ref, s)) != Expand(LazyDot, s, Telltale(ref, s))
  {
    TelltaleLength(NegatedClass, s, ref, s);
    TelltaleLength(LazyDot, s, ref, s);
    hide *;
  }

  /** The patterns expand a text alike, whatever the values, exactly when it is alike for them. */
  lemma PatternsAgreeIff(s: string)
    ensures Alike(s) <==> forall value :: Expand(NegatedClass, s, value) == Expand(LazyDot, s, value)
    ensures Alike(s) <==> References(NegatedClass, s) == References(LazyDot, s)
  {
    ReferencesProper(s);
    LazyProper(s);
    if Alike(s) {
      PatternsAgree(s, Telltale("", s));
      forall value { PatternsAgree(s, value); }
    } else {
      hide Expand, References;
      var ref := Witness(s);
      OnlyOneFinds(s, ref);
    }
  }

  /** A reference that only one of the patterns finds. */
  lemma Witness(s: string) returns (ref: string)
    requires !Alike(s)
    ensures ref in References(NegatedClass, s) <==> ref !in References(LazyDot, s)
  {
    ReferencesProper(s);
    LazyProper(s);
    hide References;
    if r :| r in References(LazyDot, s) && '}' in r {
      ref := r;
    } else {
      ref :| ref in References(NegatedClass, s) && '\n' in ref;
    }
  }

  ghost predicate HasEmptyReference(s: string) {
    exists i :: 0 <= i < |s| && HasPrefix(s[i..], "${}")
  }

  /** In particular texts without newlines and `${}` are alike. */
  lemma {:induction false} PlainTextAlike(s: string)
    requires '\n' !in s && !HasEmptyReference(s)
    ensures Alike(s)
    decreases |s|
  {
    if s == "" {
    } else {
      PatternsDifferIff(s);
      assert s[0..] == s;
      match Match(NegatedClass, s)
      case Some(n) =>
        assert forall c :: c in Inner(s, n) ==> c in s;
        InnerHasNoBrace(s, n);
        SuffixPlain(s, n);
        PlainTextAlike(s[n..]);
      case None =>
        SuffixPlain(s, 1);
        PlainTextAlike(s[1..]);
    }
  }

  lemma SuffixPlain(s: string, n: nat)
    requires n <= |s| && '\n' !in s && !HasEmptyReference(s)
    ensures '\n' !in s[n..] && !HasEmptyReference(s[n..])
  {
    forall i | 0 <= i < |s[n..]| ensures !HasPrefix(s[n..][i..], "${}") {
      assert s[n..][i..] == s[n + i..];
    }
  }

  /** Only the values of the references that occur matter. */
  lemma {:induction false} ExpandCong(p: Pattern, s: string, a: string -> string, b: string -> string)
    requires forall inner :: inner in References(p, s) ==> a(inner) == b(inner)
    ensures Expand(p, s, a) == Expand(p, s, b)
    decreases |s|
  {
    if s != "" {
      match Match(p, s)
      case Some(n) =>
        assert Inner(s, n) in References(p, s);
        ExpandCong(p, s[n..], a, b);
      case None => ExpandCong(p, s[1..], a, b);
    }
  }
}
