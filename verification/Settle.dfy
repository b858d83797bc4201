/**
 When an expanded text stays as it is in every later pass: which values leave no
 known reference behind, wherever they are put in, even though they may contain
 dollar signs, braces and unknown references.
 */
module Settle {
  import opened Wrappers
  import opened Text
  import opened Scan

  // ---------------------------------------------------------------------
  // Scanning a text in two parts

  /** A text that ends within what may become a reference. */
  predicate Pending(w: string) {
    w == "$" || (|w| >= 2 && w[0] == '$' && w[1] == '{' && '}' !in w[2..])
  }

  /** What is still pending when the scan has reached the end of `w`. */
  function Rest(w: string): (r: string)
    ensures r == "" || Pending(r)
    decreases |w|
  {
    if w == "" then ""
    else
      match Match(NegatedClass, w)
      case Some(n) => Rest(w[n..])
      case None => if Pending(w) then w else Rest(w[1..])
  }

  /** A match does not depend on what follows it, and what is not pending stays unmatched. */
  lemma MatchOfPrefix(w: string, t: string)
    requires w != ""
    ensures Match(NegatedClass, w).Some? ==> Match(NegatedClass, w + t) == Match(NegatedClass, w)
    ensures Match(NegatedClass, w).None? && !Pending(w) ==> Match(NegatedClass, w + t).None?
  {
    hide FirstFrom;
    var s := w + t;
    assert forall k :: 0 <= k < |w| ==> s[k] == w[k];
    if Match(NegatedClass, w).None? && !Pending(w) && |w| >= 2 && w[0] == '$' && w[1] == '{' {
      assert s[2] == w[2] == '}' by {
        var k :| 0 <= k < |w[2..]| && w[2..][k] == '}';
        assert w[k + 2] == '}';
      }
    }
  }

  lemma PendingHasNone(w: string)
    requires Pending(w)
    ensures References(NegatedClass, w) == [] && Match(NegatedClass, w).None?
  {
    hide FirstFrom;
    assert forall k :: 2 <= k < |w| ==> w[k] == w[2..][k - 2];
    NoBrace(w);
  }

  /** The references of a text put together: those of the first part, then those of what it leaves pending. */
  lemma {:induction false} ScanInParts(w: string, t: string)
    ensures References(NegatedClass, w + t) == References(NegatedClass, w) + References(NegatedClass, Rest(w) + t)
    ensures Rest(w + t) == Rest(Rest(w) + t)
    decreases |w|
  {
    hide *;
    if w == "" {
      assert w + t == t;
      NothingScanned();
    } else {
      MatchOfPrefix(w, t);
      match Match(NegatedClass, w)
      case Some(n) =>
        InParts(w, t, n);
        ScanMatched(w, n);
        ScanMatched(w + t, n);
        ScanInParts(w[n..], t);
      case None =>
        if Pending(w) {
          PendingHasNone(w);
          ScanSkipped(w);
        } else {
          assert (w + t)[1..] == w[1..] + t;
          NotPendingMore(w, t);
          ScanSkipped(w);
          ScanSkipped(w + t);
          ScanInParts(w[1..], t);
        }
    }
  }

  lemma NothingScanned()
    ensures References(NegatedClass, "") == [] && Rest("") == ""
  {
  }

  lemma ScanMatched(w: string, n: nat)
    requires w != "" && Match(NegatedClass, w) == Some(n)
    ensures References(NegatedClass, w) == [Inner(w, n)] + References(NegatedClass, w[n..]) && Rest(w) == Rest(w[n..])
  {
    hide Match;
  }

  lemma ScanSkipped(w: string)
    requires w != "" && Match(NegatedClass, w).None?
    ensures References(NegatedClass, w) == References(NegatedClass, w[1..])
    ensures Rest(w) == if Pending(w) then w else Rest(w[1..])
  {
    hide Match, Pending;
  }

  lemma InParts(w: string, t: string, n: nat)
    requires 4 <= n <= |w|
    ensures Inner(w + t, n) == Inner(w, n) && (w + t)[n..] == w[n..] + t
  {
  }

  lemma NotPendingMore(w: string, t: string)
    requires w != "" && !Pending(w) && Match(NegatedClass, w).None?
    ensures !Pending(w + t)
  {
    hide FirstFrom;
    if |w| >= 2 && w[0] == '$' && w[1] == '{' {
      var k :| 0 <= k < |w[2..]| && w[2..][k] == '}';
      assert (w + t)[2..][k] == '}';
    }
  }

  // ---------------------------------------------------------------------
  // Settled values

  /** The names that can stand between the braces of a reference. */
  predicate Proper(inner: string) {
    inner != "" && '}' !in inner
  }

  /** No reference to a known name begins with `p`. */
  ghost predicate Dead(p: string, known: string -> bool) {
    forall x :: Proper(x) && known(x) ==> !HasPrefix(Written(x), p)
  }

  ghost predicate NoneKnown(refs: seq<string>, known: string -> bool) {
    forall x :: x in refs ==> !known(x)
  }

  /** `w` holds no reference to a known name, and what it leaves pending cannot become one. */
  ghost predicate Quiet(w: string, known: string -> bool) {
    NoneKnown(References(NegatedClass, w), known) && (Rest(w) == "" || Dead(Rest(w), known))
  }

  /** A value that is quiet by itself and behind a dollar sign. */
  ghost predicate Settled(v: string, known: string -> bool) {
    Quiet(v, known) && Quiet("$" + v, known)
  }

  lemma QuietThen(w: string, t: string, known: string -> bool)
    requires NoneKnown(References(NegatedClass, w), known) && NoneKnown(References(NegatedClass, Rest(w) + t), known)
    ensures NoneKnown(References(NegatedClass, w + t), known)
  {
    ScanInParts(w, t);
    hide References;
  }

  /** Behind the first closing brace a text scans as it would on its own. */
  lemma {:induction false} AfterFirstBrace(v: string, k: nat)
    requires k < |v| && v[k] == '}' && '}' !in v[..k]
    ensures Rest(v[k + 1..]) == Rest(v)
    ensures forall x :: x in References(NegatedClass, v[k + 1..]) ==> x in References(NegatedClass, v)
    decreases k
  {
    assert forall i :: 0 <= i < k ==> v[i] == v[..k][i];
    hide FirstFrom;
    if k == 0 {
    } else {
      BraceCloses(v, k);
      match Match(NegatedClass, v)
      case Some(n) =>
      case None =>
        assert v[1..][k - 1] == '}' && v[1..][..k - 1] == v[..k][1..] && v[1..][k - 1 + 1..] == v[k + 1..];
        AfterFirstBrace(v[1..], k - 1);
    }
  }

  lemma BraceCloses(v: string, k: nat)
    requires 0 < k < |v| && v[k] == '}' && '}' !in v[..k]
    ensures !Pending(v) && (Match(NegatedClass, v).Some? ==> Match(NegatedClass, v) == Some(k + 1))
  {
    hide FirstFrom;
    assert forall i :: 0 <= i < k ==> v[i] == v[..k][i];
    if k >= 2 { assert v[2..][k - 2] == '}'; }
  }

  lemma WrittenScan(inner: string)
    requires Proper(inner)
    ensures References(NegatedClass, Written(inner)) == [inner] && Rest(Written(inner)) == ""
  {
    var w := Written(inner);
    assert w + "" == w;
    WrittenMatches(inner, "");
    assert w[|inner| + 3..] == "";
    hide FirstFrom, Match;
  }

  /** Only an opening brace makes a difference behind a dollar sign. */
  lemma DollarScan(v: string)
    requires v != "" && v[0] != '{'
    ensures References(NegatedClass, "$" + v) == References(NegatedClass, v) && Rest("$" + v) == Rest(v)
  {
    var s := "$" + v;
    assert s[1] == v[0] && s[1..] == v;
  }

  /** A reference to an unknown name is quiet, also behind a dollar sign. */
  lemma WrittenQuiet(inner: string, known: string -> bool)
    requires Proper(inner) && !known(inner)
    ensures Settled(Written(inner), known)
  {
    WrittenScan(inner);
    DollarScan(Written(inner));
  }

  /** Pending text that no known name can complete, followed by a quiet value or by text without a closing brace. */
  lemma DeadThen(p: string, v: string, known: string -> bool)
    requires Pending(p) && Dead(p, known)
    requires '}' in v ==> Quiet(v, known)
    ensures Quiet(p + v, known)
  {
    if x :| Proper(x) && known(x) {
      assert !HasPrefix(Written(x), p);
      DeadOpens(p, x);
      if '}' in v {
        var k := IndexOf(v, '}');
        DeadCloses(p, v, k, known);
      } else {
        StillDead(p, v, known);
      }
    } else {
      ReferencesProper(p + v);
    }
  }

  /** Other than a dollar sign or an opening alone. */
  lemma DeadOpens(p: string, x: string)
    requires Pending(p) && !HasPrefix(Written(x), p)
    ensures |p| > 2
  {
    assert Written(x)[0] == '$' && Written(x)[1] == '{';
  }

  lemma StillDead(p: string, v: string, known: string -> bool)
    requires Pending(p) && |p| > 2 && Dead(p, known) && '}' !in v
    ensures Quiet(p + v, known)
  {
    var w := p + v;
    assert w[2..] == p[2..] + v;
    assert Pending(w);
    PendingHasNone(w);
    assert Rest(w) == w;
    forall x | Proper(x) && known(x) ensures !HasPrefix(Written(x), w) {
      assert !HasPrefix(Written(x), p);
      assert forall i :: 0 <= i < |p| ==> w[i] == p[i];
    }
  }

  lemma DeadCloses(p: string, v: string, k: nat, known: string -> bool)
    requires Pending(p) && |p| > 2 && Dead(p, known) && Quiet(v, known)
    requires k < |v| && v[k] == '}' && '}' !in v[..k]
    ensures Quiet(p + v, known)
  {
    var x, u := p[2..] + v[..k], v[k + 1..];
    assert p + v == Written(x) + u;
    assert Proper(x) && HasPrefix(Written(x), p);
    AfterFirstBrace(v, k);
    WrittenThen(x, u);
    hide Rest, References, Pending, Written;
  }

  lemma WrittenThen(x: string, u: string)
    requires Proper(x)
    ensures References(NegatedClass, Written(x) + u) == [x] + References(NegatedClass, u)
    ensures Rest(Written(x) + u) == Rest(u)
  {
    WrittenScan(x);
    ScanInParts(Written(x), u);
    assert "" + u == u;
    hide Rest, References, Written;
  }

  // ---------------------------------------------------------------------
  // Texts whose known references have settled values

  /** Known references have settled values, unknown ones stand for themselves. */
  ghost predicate SettledText(s: string, value: string -> string, known: string -> bool) {
    forall r :: r in References(NegatedClass, s) ==> if known(r) then Settled(value(r), known) else value(r) == Written(r)
  }

  lemma SettledTail(s: string, value: string -> string, known: string -> bool)
    requires s != "" && SettledText(s, value, known)
    ensures match Match(NegatedClass, s) case Some(n) => SettledText(s[n..], value, known) case None => SettledText(s[1..], value, known)
    ensures match Match(NegatedClass, s) case Some(n) => Settled(value(Inner(s, n)), known) case None => true
  {
    hide Match, Settled;
    match Match(NegatedClass, s)
    case Some(n) =>
      var r := Inner(s, n);
      assert r in References(NegatedClass, s);
      ReferencesProper(s);
      if !known(r) { WrittenQuiet(r, known); }
    case None =>
  }

  /** Pending text before an expanded text: nothing, or something that no known name can complete. */
  ghost predicate Idle(p: string, known: string -> bool) {
    p == "" || (Pending(p) && Dead(p, known))
  }

  lemma QuietIsIdle(w: string, known: string -> bool)
    requires Quiet(w, known)
    ensures Idle(Rest(w), known) && NoneKnown(References(NegatedClass, w), known)
  {
    hide Dead, Pending, References;
  }

  /** Behind pending text, the expansion of a settled text holds no known reference. */
  lemma {:induction false} NoneKnownRemain(p: string, s: string, value: string -> string, known: string -> bool)
    requires Idle(p, known) && SettledText(s, value, known)
    ensures NoneKnown(References(NegatedClass, p + Expand(NegatedClass, s, value)), known)
    decreases |s|, 1
  {
    hide *;
    var out := Expand(NegatedClass, s, value);
    if s == "" {
      IdleAlone(p, value, known);
    } else if Match(NegatedClass, s).Some? {
      var n := Match(NegatedClass, s).value;
      var v := value(Inner(s, n));
      SettledTail(s, value, known);
      IdleThen(p, v, known);
      NoneKnownRemain(Rest(p + v), s[n..], value, known);
      ExpandMatched(s, n, value);
      QuietThen(p + v, Expand(NegatedClass, s[n..], value), known);
      assert p + out == (p + v) + Expand(NegatedClass, s[n..], value);
    } else {
      SettledTail(s, value, known);
      ExpandUnmatched(s, value);
      if p != "" || s[0] != '$' {
        PlainThen(p, s[0], known);
        NoneKnownRemain(Rest(p + [s[0]]), s[1..], value, known);
        QuietThen(p + [s[0]], Expand(NegatedClass, s[1..], value), known);
        assert p + out == (p + [s[0]]) + Expand(NegatedClass, s[1..], value);
      } else {
        DollarRemain(s, value, known);
        assert p + out == out;
      }
    }
  }

  /** The case of an unmatched dollar sign behind nothing. */
  lemma {:induction false} DollarRemain(s: string, value: string -> string, known: string -> bool)
    requires s != "" && s[0] == '$' && Match(NegatedClass, s).None? && SettledText(s, value, known)
    ensures NoneKnown(References(NegatedClass, Expand(NegatedClass, s, value)), known)
    decreases |s|, 0
  {
    hide *;
    var t := s[1..];
    SettledTail(s, value, known);
    ExpandUnmatched(s, value);
    if t == "" {
      ExpandUnmatched(s, value);
      LoneDollar(value, known);
    } else if Match(NegatedClass, t).Some? {
      var n := Match(NegatedClass, t).value;
      var w := "$" + value(Inner(t, n));
      SettledTail(t, value, known);
      SettledBoth(value(Inner(t, n)), known);
      QuietIsIdle(w, known);
      NoneKnownRemain(Rest(w), t[n..], value, known);
      ExpandMatched(t, n, value);
      QuietThen(w, Expand(NegatedClass, t[n..], value), known);
      assert Expand(NegatedClass, s, value) == w + Expand(NegatedClass, t[n..], value);
    } else {
      ExpandUnmatched(t, value);
      if t[0] != '{' {
        DollarScan(Expand(NegatedClass, t, value));
        IdleNothing(known);
        NoneKnownRemain("", t, value, known);
        assert "" + Expand(NegatedClass, t, value) == Expand(NegatedClass, t, value);
      } else {
        OpenRemain(s, t[1..], value, known);
      }
    }
  }

  /** The case of an opening that no brace closes, or that is closed at once. */
  lemma {:induction false} OpenRemain(s: string, u: string, value: string -> string, known: string -> bool)
    requires s == "${" + u && Match(NegatedClass, s).None? && SettledText(s, value, known)
    ensures NoneKnown(References(NegatedClass, Expand(NegatedClass, s, value)), known)
    decreases |u|, 2
  {
    if '}' !in u {
      NoBrace(s);
      SelfReplacement(NegatedClass, s, value);
    } else {
      EmptyReference(s, u, value, known);
      hide *;
      IdleNothing(known);
      NoneKnownRemain("", u[1..], value, known);
      QuietThen("${}", Expand(NegatedClass, u[1..], value), known);
      assert "" + Expand(NegatedClass, u[1..], value) == Expand(NegatedClass, u[1..], value);
    }
  }

  lemma EmptyReference(s: string, u: string, value: string -> string, known: string -> bool)
    requires s == "${" + u && '}' in u && Match(NegatedClass, s).None? && SettledText(s, value, known)
    ensures u[0] == '}' && Expand(NegatedClass, s, value) == "${}" + Expand(NegatedClass, u[1..], value)
    ensures SettledText(u[1..], value, known)
    ensures NoneKnown(References(NegatedClass, "${}"), known) && Rest("${}") == ""
  {
    EmptyCloses(s, u);
    assert s[1..] == "{" + u && s[1..][1..] == u;
    assert Match(NegatedClass, "{" + u).None? && Match(NegatedClass, u).None?;
    SettledTail(s, value, known);
    SettledTail("{" + u, value, known);
    SettledTail(u, value, known);
    assert ("{" + u)[1..] == u;
    hide SettledText, Match;
    ExpandUnmatched(s, value);
    ExpandUnmatched("{" + u, value);
    ExpandUnmatched(u, value);
    EmptyScan();
  }

  lemma EmptyCloses(s: string, u: string)
    requires s == "${" + u && '}' in u && Match(NegatedClass, s).None?
    ensures u[0] == '}'
  {
    hide FirstFrom;
    var k :| 0 <= k < |u| && u[k] == '}';
    assert s[k + 2] == '}';
  }

  lemma EmptyScan()
    ensures References(NegatedClass, "${}") == [] && Rest("${}") == ""
  {
    var w := "${}";
    assert w[1..] == "{}" && w[1..][1..] == "}" && w[1..][1..][1..] == "";
    assert w[2..][0] == '}';
    assert !Pending(w) && !Pending("{}") && !Pending("}");
  }

  lemma IdleNothing(known: string -> bool)
    ensures Idle("", known)
  {
  }

  lemma LoneDollar(value: string -> string, known: string -> bool)
    ensures NoneKnown(References(NegatedClass, ['$'] + Expand(NegatedClass, "", value)), known)
  {
    assert ['$'] + "" == "$";
    PendingHasNone("$");
  }

  lemma SettledBoth(v: string, known: string -> bool)
    requires Settled(v, known)
    ensures Quiet(v, known) && Quiet("$" + v, known)
  {
  }

  lemma IdleAlone(p: string, value: string -> string, known: string -> bool)
    requires Idle(p, known)
    ensures NoneKnown(References(NegatedClass, p + Expand(NegatedClass, "", value)), known)
  {
    assert p + "" == p;
    if p != "" { PendingHasNone(p); }
  }

  lemma ExpandMatched(s: string, n: nat, value: string -> string)
    requires s != "" && Match(NegatedClass, s) == Some(n)
    ensures Expand(NegatedClass, s, value) == value(Inner(s, n)) + Expand(NegatedClass, s[n..], value)
  {
    hide Match;
  }

  lemma ExpandUnmatched(s: string, value: string -> string)
    requires s != "" && Match(NegatedClass, s).None?
    ensures Expand(NegatedClass, s, value) == [s[0]] + Expand(NegatedClass, s[1..], value)
  {
    hide Match;
  }

  /** A settled value behind idle text. */
  lemma IdleThen(p: string, v: string, known: string -> bool)
    requires Idle(p, known) && Settled(v, known)
    ensures Idle(Rest(p + v), known) && NoneKnown(References(NegatedClass, p + v), known)
  {
    if p == "" { assert p + v == v; } else { DeadThen(p, v, known); }
    hide Dead, Pending, References, Rest;
    QuietIsIdle(p + v, known);
  }

  lemma PlainQuiet(c: char, known: string -> bool)
    requires c != '$'
    ensures Quiet([c], known)
  {
    var v := [c];
    assert v[1..] == "" && Match(NegatedClass, v).None? && !Pending(v);
    assert References(NegatedClass, v) == References(NegatedClass, v[1..]) && Rest(v) == Rest(v[1..]);
    assert References(NegatedClass, "") == [] && Rest("") == "";
  }

  /** A single character behind idle text, unless it is a dollar sign behind nothing. */
  lemma PlainThen(p: string, c: char, known: string -> bool)
    requires Idle(p, known) && (p != "" || c != '$')
    ensures Idle(Rest(p + [c]), known) && NoneKnown(References(NegatedClass, p + [c]), known)
  {
    var v := [c];
    if c != '$' { PlainQuiet(c, known); }
    if p == "" { assert p + v == v; } else { DeadThen(p, v, known); }
    hide Dead, Pending, References, Rest;
    QuietIsIdle(p + v, known);
  }

  /** After one pass no known reference is left, so a later pass changes nothing, whatever the known values are by then. */
  lemma SettledStays(s: string, value: string -> string, later: string -> string, known: string -> bool)
    requires SettledText(s, value, known)
    requires forall inner :: !known(inner) ==> later(inner) == Written(inner)
    ensures Expand(NegatedClass, Expand(NegatedClass, s, value), later) == Expand(NegatedClass, s, value)
  {
    var out := Expand(NegatedClass, s, value);
    IdleNothing(known);
    NoneKnownRemain("", s, value, known);
    assert "" + out == out;
    SelfReplacement(NegatedClass, out, later);
  }

  /** Clean values are settled. */
  lemma CleanIsSettled(v: string, known: string -> bool)
    requires Clean(v)
    ensures Settled(v, known)
  {
    var w := "$" + v;
    assert w[1..] == v;
    ShutTail(w);
    hide Clean;
    ShutRest(w);
    ShutRest(v);
  }

  /** Nothing is pending at the end of a text that opens no reference and does not end in a dollar sign. */
  lemma {:induction false} ShutRest(w: string)
    requires Shut(w) && (w == "" || w[|w| - 1] != '$')
    ensures References(NegatedClass, w) == [] && Rest(w) == ""
  {
    if w == "" {
    } else {
      ShutHead(w, "");
      assert w + "" == w;
      assert !Pending(w);
      hide Shut, Match;
      ShutRest(w[1..]);
    }
  }

  // ---------------------------------------------------------------------
  // Values that are not settled

  /** Behind `p`, the text `b` completes a reference to a known name, without a dollar sign of its own. */
  ghost predicate Completes(p: string, b: string, known: string -> bool) {
    '$' !in b && exists y :: Proper(y) && known(y) && p + b == Written(y)
  }

  /** Whatever can become a known reference can do so without another dollar sign. */
  ghost predicate GrowsPlainly(known: string -> bool) {
    forall p :: Pending(p) && !Dead(p, known) ==> exists b :: Completes(p, b, known)
  }

  /** `ref`, behind a dollar sign if wanted, and before text without one. */
  function Around(ref: string, dollar: bool, b: string): string {
    (if dollar then "$" else "") + Written(ref) + b
  }

  lemma AroundScan(ref: string, dollar: bool, b: string, value: string -> string)
    requires Proper(ref) && '$' !in b
    ensures References(NegatedClass, Around(ref, dollar, b)) == [ref]
    ensures Expand(NegatedClass, Around(ref, dollar, b), value) == (if dollar then "$" else "") + value(ref) + b
  {
    assert Around(ref, dollar, b) == (if dollar then "$" else "") + Written(ref) + b;
    hide *;
    NoDollarExpands(b, value);
    if dollar {
      OnlyReference(ref, b);
      DollarBefore(ref, b, value);
    } else {
      WrittenMatches(ref, b);
      NoDollar(b, "");
      NothingScanned();
      assert b + "" == b && "" + Written(ref) + b == Written(ref) + b && "" + value(ref) + b == value(ref) + b;
      WrittenExpands(ref, b, value);
    }
  }

  /** A value that is not settled leaves a known reference in some surroundings. */
  lemma UnsettledShows(ref: string, value: string -> string, known: string -> bool) returns (s: string, x: string)
    requires Proper(ref) && !Settled(value(ref), known) && GrowsPlainly(known)
    ensures References(NegatedClass, s) == [ref]
    ensures x in References(NegatedClass, Expand(NegatedClass, s, value)) && Proper(x) && known(x)
  {
    var dollar := Quiet(value(ref), known);
    var w := (if dollar then "$" else "") + value(ref);
    assert !Quiet(w, known) by { assert "" + value(ref) == value(ref); }
    var b;
    b, x := NotQuietShows(w, known);
    s := Around(ref, dollar, b);
    AroundScan(ref, dollar, b, value);
    hide Quiet, References, Expand, Around;
  }

  lemma NotQuietShows(w: string, known: string -> bool) returns (b: string, x: string)
    requires !Quiet(w, known) && GrowsPlainly(known)
    ensures '$' !in b && x in References(NegatedClass, w + b) && Proper(x) && known(x)
  {
    hide Dead, Pending, References, Rest;
    if y :| y in References(NegatedClass, w) && known(y) {
      b, x := "", y;
      ReferencesProper(w);
      assert w + b == w;
    } else {
      var p := Rest(w);
      b :| Completes(p, b, known);
      x :| Proper(x) && known(x) && p + b == Written(x);
      ScanInParts(w, b);
      WrittenScan(x);
    }
  }

  /** A reference between texts without a dollar sign is the only one, and is replaced. */
  lemma {:induction false} BetweenPlain(a: string, x: string, b: string, value: string -> string)
    requires Proper(x) && '$' !in a && '$' !in b
    ensures References(NegatedClass, a + Written(x) + b) == [x]
    ensures Expand(NegatedClass, a + Written(x) + b, value) == a + value(x) + b
  {
    var s := a + Written(x) + b;
    if a == "" {
      assert s == Written(x) + b;
      AroundScan(x, false, b, value);
      hide Written, Match, References, Expand;
      assert Around(x, false, b) == s && "" + value(x) + b == a + value(x) + b;
    } else {
      assert s[0] != '$' && s[1..] == a[1..] + Written(x) + b;
      BetweenPlain(a[1..], x, b, value);
      hide Written, Match;
      assert a == [a[0]] + a[1..];
    }
  }

  /** A text is as long as each reference written in it, and longer unless it is that reference. */
  lemma {:induction false} ReferenceFits(s: string, ref: string)
    requires ref in References(NegatedClass, s)
    ensures |s| >= |Written(ref)| && (|s| == |Written(ref)| ==> s == Written(ref))
    decreases |s|
  {
    match Match(NegatedClass, s)
    case Some(n) =>
      MatchText(NegatedClass, s, n);
      hide Match, FirstFrom;
      if ref == Inner(s, n) {
        assert n == |Written(ref)| && (|s| == n ==> s == s[..n]);
      } else {
        ReferenceFits(s[n..], ref);
      }
    case None =>
      hide Match, FirstFrom;
      ReferenceFits(s[1..], ref);
  }

  /** When no value is shorter than its reference, a text grows at least by what the value of one reference is longer. */
  lemma {:induction false} ExpandGrows(s: string, value: string -> string, ref: string)
    requires forall r :: r in References(NegatedClass, s) ==> |value(r)| >= |Written(r)|
    ensures |Expand(NegatedClass, s, value)| >= |s|
    ensures ref in References(NegatedClass, s) ==> |Expand(NegatedClass, s, value)| >= |s| + |value(ref)| - |Written(ref)|
    decreases |s|
  {
    if s == "" {
    } else {
      match Match(NegatedClass, s)
      case Some(n) =>
        MatchText(NegatedClass, s, n);
        hide Match, FirstFrom;
        assert Inner(s, n) in References(NegatedClass, s) && n == |Written(Inner(s, n))|;
        ExpandGrows(s[n..], value, ref);
      case None =>
        hide Match, FirstFrom;
        ExpandGrows(s[1..], value, ref);
    }
  }

  /** When no value is longer than its reference, a text shrinks if one is shorter. */
  lemma {:induction false} ExpandShrinks(s: string, value: string -> string, ref: string)
    requires forall r :: r in References(NegatedClass, s) ==> |value(r)| <= |Written(r)|
    requires |value(ref)| < |Written(ref)|
    ensures |Expand(NegatedClass, s, value)| <= |s|
    ensures ref in References(NegatedClass, s) ==> |Expand(NegatedClass, s, value)| < |s|
    decreases |s|
  {
    if s == "" {
    } else {
      match Match(NegatedClass, s)
      case Some(n) =>
        MatchText(NegatedClass, s, n);
        hide Match, FirstFrom;
        assert Inner(s, n) in References(NegatedClass, s) && n == |Written(Inner(s, n))|;
        ExpandShrinks(s[n..], value, ref);
      case None =>
        hide Match, FirstFrom;
        ExpandShrinks(s[1..], value, ref);
    }
  }
}
