/**
 Text as sequences of Unicode code points, with the few functions of Go's
 `strings` and `sort` packages that dcx relies on.  Comparing code points gives
 the same order as comparing the UTF-8 bytes, which is what `sort.Strings` does.
 */
module Text {
  import opened Collections

  /** `strings.Index` for a single character: first position, or -1. */
  function IndexOf(s: string, c: char): (i: int)
    ensures -1 <= i < |s|
    ensures i == -1 <==> c !in s
    ensures i >= 0 ==> s[i] == c && forall k :: 0 <= k < i ==> s[k] != c
  {
    FirstFrom(s, c, 0)
  }

  function FirstFrom(s: string, c: char, n: nat): (i: int)
    requires n <= |s|
    ensures i == -1 || n <= i < |s|
    ensures i == -1 ==> forall k :: n <= k < |s| ==> s[k] != c
    ensures i >= 0 ==> s[i] == c && forall k :: n <= k < i ==> s[k] != c
    decreases |s| - n
  {
    if n == |s| then -1 else if s[n] == c then n else FirstFrom(s, c, n + 1)
  }

  /** `strings.LastIndex` for a single character: last position, or -1. */
  function LastIndexOf(s: string, c: char): (i: int)
    ensures -1 <= i < |s|
    ensures i == -1 <==> c !in s
    ensures i >= 0 ==> s[i] == c
    ensures forall k :: i < k < |s| ==> s[k] != c
  {
    LastBefore(s, c, |s|)
  }

  function LastBefore(s: string, c: char, n: nat): (i: int)
    requires n <= |s|
    ensures -1 <= i < n
    ensures i >= 0 ==> s[i] == c
    ensures forall k :: i < k < n ==> s[k] != c
  {
    if n == 0 then -1 else if s[n - 1] == c then n - 1 else LastBefore(s, c, n - 1)
  }

  /** `strings.HasPrefix`. */
  predicate HasPrefix(s: string, p: string) {
    |p| <= |s| && forall i :: 0 <= i < |p| ==> s[i] == p[i]
  }

  /** `strings.ToLower`, restricted to the ASCII letters. */
  function LowerChar(c: char): (r: char)
    ensures if 'A' <= c <= 'Z' then r as int == c as int + 32 && 'a' <= r <= 'z' else r == c
  {
    if 'A' <= c <= 'Z' then c - 'A' + 'a' else c
  }

  function ToLower(s: string): (r: string)
    ensures |r| == |s|
    ensures forall i :: 0 <= i < |s| ==> r[i] == LowerChar(s[i])
  {
    seq(|s|, i requires 0 <= i < |s| => LowerChar(s[i]))
  }

  // ---------------------------------------------------------------------
  // The order of sort.Strings

  predicate StrLeq(a: string, b: string) {
    a == "" || (b != "" && (a[0] < b[0] || (a[0] == b[0] && StrLeq(a[1..], b[1..]))))
  }

  lemma {:induction false} StrLeqReflexive(a: string)
    ensures StrLeq(a, a)
  {
    if a != "" { StrLeqReflexive(a[1..]); }
  }

  lemma {:induction false} StrLeqTotal(a: string, b: string)
    ensures StrLeq(a, b) || StrLeq(b, a)
  {
    if a != "" && b != "" && a[0] == b[0] { StrLeqTotal(a[1..], b[1..]); }
  }

  lemma {:induction false} StrLeqAntisymmetric(a: string, b: string)
    requires StrLeq(a, b) && StrLeq(b, a)
    ensures a == b
  {
    if a != "" && b != "" {
      StrLeqAntisymmetric(a[1..], b[1..]);
      assert a == [a[0]] + a[1..] && b == [b[0]] + b[1..];
    }
  }

  lemma {:induction false} StrLeqTransitive(a: string, b: string, c: string)
    requires StrLeq(a, b) && StrLeq(b, c)
    ensures StrLeq(a, c)
  {
    if a != "" && b != "" && c != "" && a[0] == b[0] && b[0] == c[0] {
      StrLeqTransitive(a[1..], b[1..], c[1..]);
    }
  }

  /**
   The order of strings in code points: a prefix comes first, and otherwise the
   characters at the first difference decide.
   */
  lemma {:induction false} StrLeqMeans(a: string, b: string)
    ensures StrLeq(a, b)
       <==> HasPrefix(b, a) || exists p: nat :: p < |a| && p < |b| && a[..p] == b[..p] && a[p] < b[p]
  {
    if a == "" || b == "" {
    } else {
      StrLeqMeans(a[1..], b[1..]);
      TailPrefix(a, b);
      if p: nat :| p < |a| && p < |b| && a[..p] == b[..p] && a[p] < b[p] {
        if p > 0 {
          assert a[0] == a[..p][0] == b[0];
          assert a[1..][..p - 1] == a[..p][1..] == b[..p][1..] == b[1..][..p - 1];
          assert a[1..][p - 1] < b[1..][p - 1];
        }
      }
      if a[0] < b[0] {
        assert a[..0] == b[..0];
      } else if a[0] == b[0] {
        if q: nat :| q < |a[1..]| && q < |b[1..]| && a[1..][..q] == b[1..][..q] && a[1..][q] < b[1..][q] {
          assert a[..q + 1] == [a[0]] + a[1..][..q] == b[..q + 1];
          assert a[q + 1] < b[q + 1];
        }
      }
    }
  }

  /** `a` comes strictly before `b` in code points. */
  ghost predicate CodePointsBefore(a: string, b: string) {
    && a != b
    && (HasPrefix(b, a) || exists p: nat :: p < |a| && p < |b| && a[..p] == b[..p] && a[p] < b[p])
  }

  lemma BeforeIsOneWay(a: string, b: string)
    requires CodePointsBefore(a, b)
    ensures !CodePointsBefore(b, a)
  {
    StrLeqMeans(a, b);
    StrLeqMeans(b, a);
    hide StrLeq, HasPrefix;
    if CodePointsBefore(b, a) { StrLeqAntisymmetric(a, b); }
  }

  lemma TailPrefix(a: string, b: string)
    requires a != "" && b != ""
    ensures HasPrefix(b, a) <==> a[0] == b[0] && HasPrefix(b[1..], a[1..])
  {
    if a[0] == b[0] && HasPrefix(b[1..], a[1..]) {
      forall i | 0 <= i < |a| ensures b[i] == a[i] {
        if i > 0 { assert b[1..][i - 1] == a[1..][i - 1]; }
      }
    }
  }

  /** A prefix is what a text begins with. */
  lemma PrefixMeans(s: string, p: string)
    ensures HasPrefix(s, p) <==> exists t :: s == p + t
  {
    if HasPrefix(s, p) { assert s == p + s[|p|..]; }
  }

  ghost predicate Sorted(s: seq<string>) {
    forall i, j :: 0 <= i < j < |s| ==> StrLeq(s[i], s[j])
  }

  function InsertSorted(x: string, s: seq<string>): (r: seq<string>)
    requires Sorted(s)
    ensures Sorted(r) && multiset(r) == multiset(s) + multiset{x}
  {
    if s == [] then [x]
    else if StrLeq(x, s[0]) then
      assert forall j :: 0 <= j < |s| ==> StrLeq(x, s[j]) by {
        forall j | 0 < j < |s| ensures StrLeq(x, s[j]) { StrLeqTransitive(x, s[0], s[j]); }
      }
      [x] + s
    else
      var t := InsertSorted(x, s[1..]);
      assert s == [s[0]] + s[1..];
      assert forall j :: 0 <= j < |t| ==> StrLeq(s[0], t[j]) by {
        StrLeqTotal(x, s[0]);
        forall j | 0 <= j < |t| ensures StrLeq(s[0], t[j]) {
          assert t[j] in multiset(t);
          assert t[j] == x || t[j] in s[1..];
        }
      }
      [s[0]] + t
  }

  /** `sort.Strings`. */
  function SortStrings(s: seq<string>): (r: seq<string>)
    ensures Sorted(r) && multiset(r) == multiset(s) && |r| == |s|
  {
    if s == [] then []
    else
      assert s == [s[0]] + s[1..];
      var r := InsertSorted(s[0], SortStrings(s[1..]));
      assert |multiset(r)| == |multiset(s)|;
      r
  }

  /** A sorted list is determined by its elements. */
  lemma {:induction false} SortedUnique(a: seq<string>, b: seq<string>)
    requires Sorted(a) && Sorted(b) && multiset(a) == multiset(b)
    ensures a == b
  {
    SameSetOf(a, b);
    if a != [] {
      SameHead(a, b);
      WithoutAt(a, 0);
      WithoutAt(b, 0);
      MultisetCancel(multiset(a[1..]), multiset(b[1..]), a[0]);
      SortedUnique(a[1..], b[1..]);
    }
  }

  lemma SameHead(a: seq<string>, b: seq<string>)
    requires Sorted(a) && Sorted(b) && a != [] && b != [] && SetOf(a) == SetOf(b)
    ensures a[0] == b[0] && a[..0] + a[1..] == a[1..] && b[..0] + b[1..] == b[1..]
  {
    hide StrLeq;
    assert a[0] in SetOf(b) && b[0] in SetOf(a);
    StrLeqReflexive(a[0]);
    StrLeqAntisymmetric(a[0], b[0]);
  }

  // ---------------------------------------------------------------------
  // The keys of a Go map, sorted

  ghost function ListOf(s: set<string>): (r: seq<string>)
    ensures Distinct(r) && SetOf(r) == s
  {
    if s == {} then []
    else
      var x :| x in s;
      var rest := ListOf(s - {x});
      assert SetOf(rest + [x]) == SetOf(rest) + {x};
      rest + [x]
  }

  ghost function SortedList(s: set<string>): seq<string> {
    SortStrings(ListOf(s))
  }

  /** There is one sorted list of a set. */
  lemma SortedListIs(s: set<string>, r: seq<string>)
    ensures r == SortedList(s) <==> Sorted(r) && Distinct(r) && SetOf(r) == s
  {
    var list := ListOf(s);
    DistinctPermutation(list, SortedList(s));
    SameSetOf(list, SortedList(s));
    if Sorted(r) && Distinct(r) && SetOf(r) == s {
      SameSetPermutes(r, list);
      SortedUnique(r, SortedList(s));
    }
  }
}
