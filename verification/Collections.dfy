/** Lists, sets and permutations. */
module Collections {

  ghost function SetOf<T>(s: seq<T>): set<T> {
    set x | x in s
  }

  ghost predicate Distinct<T>(s: seq<T>) {
    forall i, j :: 0 <= i < j < |s| ==> s[i] != s[j]
  }

  lemma {:induction false} DistinctCardinality<T>(s: seq<T>)
    requires Distinct(s)
    ensures |SetOf(s)| == |s|
  {
    if s != [] {
      var n := |s| - 1;
      DistinctCardinality(s[..n]);
      assert SetOf(s) == SetOf(s[..n]) + {s[n]};
      assert s[n] !in SetOf(s[..n]);
    }
  }

  lemma {:induction false} SetOfBound<T>(s: seq<T>)
    ensures |SetOf(s)| <= |s|
  {
    if s != [] {
      var n := |s| - 1;
      SetOfBound(s[..n]);
      assert SetOf(s) == SetOf(s[..n]) + {s[n]};
    }
  }

  /** A list as long as its set of elements repeats nothing. */
  lemma {:induction false} FullCardinalityDistinct<T>(s: seq<T>)
    requires |SetOf(s)| == |s|
    ensures Distinct(s)
  {
    if s != [] {
      var n := |s| - 1;
      assert SetOf(s) == SetOf(s[..n]) + {s[n]};
      SetOfBound(s[..n]);
      FullCardinalityDistinct(s[..n]);
      assert s[n] !in SetOf(s[..n]);
      forall i, j | 0 <= i < j < |s| ensures s[i] != s[j] {
        assert s[i] == s[..n][i];
        if j < n { assert s[j] == s[..n][j]; } else { assert s[i] in SetOf(s[..n]); }
      }
    }
  }

  lemma SameSetOf<T>(a: seq<T>, b: seq<T>)
    requires multiset(a) == multiset(b)
    ensures |a| == |b| && SetOf(a) == SetOf(b)
  {
    assert |multiset(a)| == |a| && |multiset(b)| == |b|;
    forall x ensures x in a <==> x in b {
      assert x in multiset(a) <==> x in a;
      assert x in multiset(b) <==> x in b;
    }
  }

  /** A list without repetitions has each of its elements once. */
  lemma {:induction false} DistinctCount<T>(s: seq<T>, x: T)
    requires Distinct(s)
    ensures multiset(s)[x] == if x in s then 1 else 0
  {
    if s != [] {
      assert s == [s[0]] + s[1..];
      DistinctCount(s[1..], x);
    }
  }

  lemma SubsetSize<T>(a: set<T>, b: set<T>)
    requires a <= b
    ensures |a| <= |b|
  {
    assert b == a + (b - a) && |b| == |a| + |b - a|;
  }

  lemma WithoutAt<T>(s: seq<T>, k: nat)
    requires k < |s|
    ensures multiset(s) == multiset(s[..k] + s[k + 1..]) + multiset{s[k]}
  {
    assert s == s[..k] + [s[k]] + s[k + 1..];
  }

  lemma SameLength<T>(a: seq<T>, b: seq<T>)
    requires multiset(a) == multiset(b)
    ensures |a| == |b|
  {
    assert |multiset(a)| == |a| && |multiset(b)| == |b|;
  }

  /** Where the head of a list is in a permutation of it, and what remains. */
  lemma FindHead<T>(a: seq<T>, b: seq<T>) returns (k: nat)
    requires multiset(a) == multiset(b) && a != []
    ensures k < |b| && b[k] == a[0]
    ensures multiset(a[1..]) == multiset(b[..k] + b[k + 1..])
  {
    assert a[0] in multiset(b);
    k :| 0 <= k < |b| && b[k] == a[0];
    WithoutAt(a, 0);
    assert a[..0] + a[1..] == a[1..];
    WithoutAt(b, k);
    MultisetCancel(multiset(a[1..]), multiset(b[..k] + b[k + 1..]), a[0]);
  }

  lemma MultisetCancel<T>(a: multiset<T>, b: multiset<T>, x: T)
    requires a + multiset{x} == b + multiset{x}
    ensures a == b
  {
    assert a == (a + multiset{x}) - multiset{x} && b == (b + multiset{x}) - multiset{x};
  }

  lemma DistinctPermutation<T>(a: seq<T>, b: seq<T>)
    requires multiset(a) == multiset(b) && Distinct(a)
    ensures Distinct(b) && forall x :: x in a <==> x in b
  {
    SameSetOf(a, b);
    DistinctCardinality(a);
    FullCardinalityDistinct(b);
    forall x ensures x in a <==> x in b { assert x in SetOf(a) <==> x in SetOf(b); }
  }

  /** Lists without repetitions over the same set are permutations. */
  lemma SameSetPermutes<T>(a: seq<T>, b: seq<T>)
    requires Distinct(a) && Distinct(b) && SetOf(a) == SetOf(b)
    ensures multiset(a) == multiset(b)
  {
    forall x ensures multiset(a)[x] == multiset(b)[x] {
      DistinctCount(a, x);
      DistinctCount(b, x);
      assert x in SetOf(a) <==> x in SetOf(b);
    }
  }

  // ---------------------------------------------------------------------
  // Selecting elements by position

  ghost predicate Increasing(at: seq<nat>) {
    forall m, n :: 0 <= m < n < |at| ==> at[m] < at[n]
  }

  /** `at` lists, in order, exactly the positions of the elements of `src` that are kept. */
  ghost predicate Picks<T>(src: seq<T>, keep: T -> bool, at: seq<nat>) {
    && Increasing(at)
    && (forall n :: 0 <= n < |at| ==> at[n] < |src| && keep(src[at[n]]))
    && (forall i :: 0 <= i < |src| && keep(src[i]) ==> i in at)
  }

  lemma PicksNone<T>(keep: T -> bool)
    ensures Picks([], keep, [])
  {
  }

  lemma PicksMore<T>(src: seq<T>, keep: T -> bool, at: seq<nat>, x: T)
    requires Picks(src, keep, at)
    ensures Picks(src + [x], keep, if keep(x) then at + [|src|] else at)
  {
    var more := if keep(x) then at + [|src|] else at;
    forall i | 0 <= i < |src + [x]| && keep((src + [x])[i]) ensures i in more {
      if i == |src| { assert more[|at|] == i; } else { assert i in at; }
    }
  }

  lemma PicksWithin<T>(src: seq<T>, keep: T -> bool, at: seq<nat>)
    requires Picks(src, keep, at)
    ensures forall n :: 0 <= n < |at| ==> at[n] < |src|
  {
  }

  // ---------------------------------------------------------------------
  // Lists put together from parts

  /** `list` is made of the elements of all parts, part by part: `at` tells where each comes from. */
  ghost predicate Flattens<T(!new)>(parts: seq<seq<T>>, list: seq<T>, at: seq<(nat, nat)>) {
    && |at| == |list|
    && (forall m, n :: 0 <= m < n < |at| ==> at[m].0 < at[n].0 || (at[m].0 == at[n].0 && at[m].1 < at[n].1))
    && (forall n :: 0 <= n < |at| ==>
          at[n].0 < |parts| && at[n].1 < |parts[at[n].0]| && list[n] == parts[at[n].0][at[n].1])
    && (forall i: nat, j: nat :: i < |parts| && j < |parts[i]| ==> (i, j) in at)
  }

  lemma FlattensNothing<T(!new)>()
    ensures Flattens<T>([], [], [])
  {
  }

  lemma FlattensMore<T(!new)>(parts: seq<seq<T>>, list: seq<T>, at: seq<(nat, nat)>, part: seq<T>)
    returns (more: seq<(nat, nat)>)
    requires Flattens(parts, list, at)
    ensures Flattens(parts + [part], list + part, more)
  {
    var added := seq(|part|, j requires 0 <= j < |part| => (|parts|, j));
    more := at + added;
    var all := parts + [part];
    forall i: nat, j: nat | i < |all| && j < |all[i]| ensures (i, j) in more {
      if i == |parts| {
        assert more[|at| + j] == (i, j);
      } else {
        assert (i, j) in at;
      }
    }
  }
}
