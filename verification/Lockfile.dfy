/**
 The feature lockfile: what an upgrade records (features/build.go) and what a
 later lookup finds (features/lockfile.go).
 */
module Lockfile {
  import opened Text
  import opened Collections
  import opened FeatureData
  import opened FeatureIds

  datatype LockEntry = LockEntry(version: string, resolved: string, integrity: string, dependsOn: seq<string>)

  type Lock = map<string, LockEntry>

  const MARKER := "@sha256:"

  /** Only OCI features with a digest are recorded. */
  predicate Recorded(f: ResolvedFeature) {
    f.ref.source == SourceOCI && f.digest != ""
  }

  ghost function EntryFor(f: ResolvedFeature): LockEntry {
    var location := Joined(f.ref.registry, f.ref.namespace, f.ref.id);
    LockEntry(f.meta.version, location + "@" + f.digest, f.digest, SortedList(f.meta.dependsOn.Keys))
  }

  /** `dependsOnKeys`; the keys of a Go map come in any order. */
  method DependsOnKeys(m: map<string, Json>) returns (keys: seq<string>)
    ensures Sorted(keys) && Distinct(keys) && SetOf(keys) == m.Keys
  {
    keys := [];
    var rest := m.Keys;
    while rest != {}
      invariant rest <= m.Keys && Distinct(keys) && SetOf(keys) == m.Keys - rest
      decreases |rest|
    {
      var k :| k in rest;
      assert k !in SetOf(keys);
      ghost var before := keys;
      keys := keys + [k];
      assert SetOf(keys) == SetOf(before) + {k};
      rest := rest - {k};
    }
    ghost var listed := keys;
    keys := SortStrings(keys);
    DistinctPermutation(listed, keys);
    SameSetOf(listed, keys);
  }

  /** The lockfile content for a list of features; later entries overwrite earlier ones. */
  ghost function LockOf(fs: seq<ResolvedFeature>): Lock {
    if fs == [] then map[]
    else
      var f := fs[|fs| - 1];
      var lock := LockOf(fs[..|fs| - 1]);
      if Recorded(f) then lock[ToLower(f.ref.rawID) := EntryFor(f)] else lock
  }

  method WriteEntry(rf: ResolvedFeature) returns (entry: LockEntry)
    ensures entry == EntryFor(rf)
  {
    var keys := DependsOnKeys(rf.meta.dependsOn);
    SortedListIs(rf.meta.dependsOn.Keys, keys);
    entry := LockEntry(rf.meta.version, Joined(rf.ref.registry, rf.ref.namespace, rf.ref.id) + "@" + rf.digest, rf.digest, keys);
  }

  /** The lockfile loop of `BuildFeatureImage`. */
  method BuildLockfile(resolved: seq<ResolvedFeature>) returns (lock: Lock)
    ensures lock == LockOf(resolved)
  {
    lock := map[];
    for i := 0 to |resolved|
      invariant lock == LockOf(resolved[..i])
    {
      assert resolved[..i + 1][..i] == resolved[..i];
      hide ToLower, EntryFor;
      var rf := resolved[i];
      if rf.ref.source != SourceOCI || rf.digest == "" {
        continue;
      }
      var entry := WriteEntry(rf);
      lock := lock[ToLower(rf.ref.rawID) := entry];
    }
    assert resolved[..|resolved|] == resolved;
  }

  // ---------------------------------------------------------------------
  // Finding a digest

  predicate OccursAt(s: string, p: string, i: int) {
    0 <= i <= |s| - |p| && forall k :: 0 <= k < |p| ==> s[i + k] == p[k]
  }

  ghost predicate Occurs(s: string, p: string) {
    exists i :: OccursAt(s, p, i)
  }

  /** `strings.LastIndex`: the last position not after `n`, or -1. */
  function LastOccurrence(s: string, p: string, n: int): (i: int)
    requires -1 <= n
    ensures i == -1 || (0 <= i <= n && OccursAt(s, p, i))
    ensures forall j :: i < j <= n ==> !OccursAt(s, p, j)
  {
    if n == -1 then -1 else if OccursAt(s, p, n) then n else LastOccurrence(s, p, n - 1)
  }

  /** What follows the last marker of a location, as a digest. */
  function DigestIn(resolved: string): string {
    var idx := LastOccurrence(resolved, MARKER, |resolved|);
    if idx < 0 then "" else "sha256:" + resolved[idx + |MARKER|..]
  }

  /** `ResolveDigest`. */
  function ResolveDigest(lock: Lock, rawID: string): string {
    var key := ToLower(rawID);
    if key !in lock then ""
    else
      DigestIn(lock[key].resolved)
  }

  /** A SHA-256 digest whose hexadecimal part does not itself contain the marker. */
  ghost predicate PlainDigest(digest: string) {
    HasPrefix(digest, "sha256:") && !Occurs(digest[7..], MARKER)
  }

  /** The recorded entry of the last feature with a raw ID is the one that is found. */
  lemma {:induction false} LockFound(fs: seq<ResolvedFeature>, i: nat)
    requires i < |fs| && Recorded(fs[i])
    requires forall j :: i < j < |fs| && Recorded(fs[j]) ==> ToLower(fs[j].ref.rawID) != ToLower(fs[i].ref.rawID)
    ensures ToLower(fs[i].ref.rawID) in LockOf(fs)
    ensures LockOf(fs)[ToLower(fs[i].ref.rawID)] == EntryFor(fs[i])
  {
    hide ToLower, EntryFor;
    if i < |fs| - 1 { LockFound(fs[..|fs| - 1], i); }
  }

  lemma {:induction false} LockKey(fs: seq<ResolvedFeature>, key: string) returns (i: nat)
    requires key in LockOf(fs)
    ensures i < |fs| && Recorded(fs[i]) && ToLower(fs[i].ref.rawID) == key
    ensures forall j :: i < j < |fs| && Recorded(fs[j]) ==> ToLower(fs[j].ref.rawID) != key
  {
    hide ToLower, EntryFor;
    var last := fs[|fs| - 1];
    if Recorded(last) && ToLower(last.ref.rawID) == key {
      i := |fs| - 1;
    } else {
      i := LockKey(fs[..|fs| - 1], key);
    }
  }

  /** An entry of the lockfile, field by field: it is that of the last OCI feature with a digest and the key as raw ID. */
  lemma LockMeans(fs: seq<ResolvedFeature>, key: string)
    ensures key in LockOf(fs) <==>
              exists i :: 0 <= i < |fs| && fs[i].ref.source == SourceOCI && fs[i].digest != "" && ToLower(fs[i].ref.rawID) == key
    ensures key in LockOf(fs) ==>
              exists i :: 0 <= i < |fs| && fs[i].ref.source == SourceOCI && fs[i].digest != "" && ToLower(fs[i].ref.rawID) == key
                          && (forall j :: i < j < |fs| && fs[j].ref.source == SourceOCI && fs[j].digest != "" ==>
                                ToLower(fs[j].ref.rawID) != key)
                          && EntryMeans(LockOf(fs)[key], fs[i])
  {
    hide ToLower, LockOf, EntryMeans;
    if key in LockOf(fs) {
      var i := LockKey(fs, key);
      LockFound(fs, i);
      EntryForMeans(fs[i]);
    }
    if i :| 0 <= i < |fs| && fs[i].ref.source == SourceOCI && fs[i].digest != "" && ToLower(fs[i].ref.rawID) == key {
      LockHas(fs, i);
    }
  }

  ghost predicate EntryMeans(e: LockEntry, f: ResolvedFeature) {
    && e.version == f.meta.version && e.integrity == f.digest
    && e.resolved == f.ref.registry + "/" + f.ref.namespace + "/" + f.ref.id + "@" + f.digest
    && Sorted(e.dependsOn) && Distinct(e.dependsOn)
    && forall k :: k in e.dependsOn <==> k in f.meta.dependsOn
  }

  lemma EntryForMeans(f: ResolvedFeature)
    ensures EntryMeans(EntryFor(f), f)
  {
    var keys := SortedList(f.meta.dependsOn.Keys);
    SortedListIs(f.meta.dependsOn.Keys, keys);
    hide SortedList, Sorted, Distinct;
    forall k ensures k in keys <==> k in f.meta.dependsOn { assert k in SetOf(keys) <==> k in keys; }
  }

  lemma {:induction false} LockHas(fs: seq<ResolvedFeature>, i: nat)
    requires i < |fs| && Recorded(fs[i])
    ensures ToLower(fs[i].ref.rawID) in LockOf(fs)
  {
    hide ToLower, EntryFor;
    if i < |fs| - 1 { LockHas(fs[..|fs| - 1], i); }
  }

  /** What a lookup finds: the text behind the last marker of the entry's location. */
  lemma LookupMeans(lock: Lock, rawID: string, a: string, b: string)
    ensures ToLower(rawID) !in lock ==> ResolveDigest(lock, rawID) == ""
    ensures ToLower(rawID) in lock && (forall x, y :: lock[ToLower(rawID)].resolved != x + "@sha256:" + y) ==>
              ResolveDigest(lock, rawID) == ""
    ensures ToLower(rawID) in lock && lock[ToLower(rawID)].resolved == a + "@sha256:" + b
            && (forall x, y :: lock[ToLower(rawID)].resolved == x + "@sha256:" + y ==> |x| <= |a|) ==>
              ResolveDigest(lock, rawID) == "sha256:" + b
  {
    hide ToLower;
    if ToLower(rawID) in lock {
      var resolved := lock[ToLower(rawID)].resolved;
      var idx := LastOccurrence(resolved, MARKER, |resolved|);
      if idx >= 0 {
        OccursSplits(resolved, idx);
      }
      hide LastOccurrence, OccursAt;
      if resolved == a + "@sha256:" + b && forall x, y :: resolved == x + "@sha256:" + y ==> |x| <= |a| {
        MarkerOccurs(a, b);
        assert idx == |a|;
        assert resolved[idx + |MARKER|..] == b;
      }
    }
  }

  lemma OccursSplits(s: string, i: int)
    requires OccursAt(s, MARKER, i)
    ensures s == s[..i] + "@sha256:" + s[i + |MARKER|..]
  {
    assert s[i..i + |MARKER|] == MARKER;
  }

  lemma MarkerOccurs(a: string, b: string)
    ensures OccursAt(a + "@sha256:" + b, MARKER, |a|)
  {
  }

  /** The marker cannot start inside the marker. */
  lemma MarkerAfter(resolved: string, at: nat, j: int)
    requires OccursAt(resolved, MARKER, at) && OccursAt(resolved, MARKER, j) && j > at
    ensures j >= at + |MARKER|
  {
    assert resolved[j + 0] == MARKER[0] == '@';
    forall p | at < p < at + |MARKER| ensures resolved[p] != '@' {
      assert resolved[at + (p - at)] == MARKER[p - at];
    }
  }

  lemma PrefixedDigest(location: string, digest: string)
    requires HasPrefix(digest, "sha256:")
    ensures OccursAt(location + "@" + digest, MARKER, |location|)
  {
    var resolved := location + "@" + digest;
    forall k | 0 <= k < |MARKER| ensures resolved[|location| + k] == MARKER[k] {
      if k > 0 { assert resolved[|location| + k] == digest[k - 1] == "sha256:"[k - 1]; }
    }
  }

  /** Later markers lie in the part after `sha256:`. */
  lemma LaterMarkers(location: string, digest: string)
    requires HasPrefix(digest, "sha256:")
    ensures Occurs(digest[7..], MARKER) <==> exists j :: j > |location| && OccursAt(location + "@" + digest, MARKER, j)
  {
    var resolved := location + "@" + digest;
    PrefixedDigest(location, digest);
    if j :| j > |location| && OccursAt(resolved, MARKER, j) {
      MarkerAfter(resolved, |location|, j);
      var i := j - |location| - 8;
      forall k | 0 <= k < |MARKER| ensures digest[7..][i + k] == MARKER[k] {
        assert resolved[j + k] == digest[7..][i + k];
      }
      assert OccursAt(digest[7..], MARKER, i);
    }
    if i :| OccursAt(digest[7..], MARKER, i) {
      var j := |location| + 8 + i;
      forall k | 0 <= k < |MARKER| ensures resolved[j + k] == MARKER[k] {
        assert resolved[j + k] == digest[7..][i + k];
      }
      assert OccursAt(resolved, MARKER, j);
    }
  }

  /** The digest extracted from a recorded location is the recorded one exactly for plain digests. */
  lemma ExtractIff(location: string, digest: string)
    requires digest != ""
    ensures DigestIn(location + "@" + digest) == digest <==> PlainDigest(digest)
  {
    var resolved := location + "@" + digest;
    var idx := LastOccurrence(resolved, MARKER, |resolved|);
    if HasPrefix(digest, "sha256:") {
      PrefixedDigest(location, digest);
      LaterMarkers(location, digest);
      assert |"sha256:" + resolved[idx + |MARKER|..]| == |resolved| - idx - 1;
      assert |digest| == |resolved| - |location| - 1;
      assert digest == "sha256:" + digest[7..];
      assert resolved[|location| + 8..] == digest[7..];
    } else if idx >= 0 {
      assert HasPrefix("sha256:" + resolved[idx + |MARKER|..], "sha256:");
    }
  }

  /**
   After an upgrade, looking up a recorded feature gives its digest exactly when
   the digest is a plain SHA-256 one; `i` is the last feature with its raw ID.
   */
  lemma LockfileReadsBackIff(fs: seq<ResolvedFeature>, i: nat)
    requires i < |fs| && Recorded(fs[i])
    requires forall j :: i < j < |fs| && Recorded(fs[j]) ==> ToLower(fs[j].ref.rawID) != ToLower(fs[i].ref.rawID)
    ensures ResolveDigest(LockOf(fs), fs[i].ref.rawID) == fs[i].digest <==> PlainDigest(fs[i].digest)
  {
    LockFound(fs, i);
    ExtractIff(Joined(fs[i].ref.registry, fs[i].ref.namespace, fs[i].ref.id), fs[i].digest);
    hide ToLower, PlainDigest, DigestIn, LockOf, Joined, SortedList;
  }
}
