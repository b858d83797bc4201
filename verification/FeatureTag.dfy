/**
 The bytes hashed into the tag of a feature image (features/build.go).  JSON
 encoding of options is a parameter, and the digest function itself is not needed.
 */
module FeatureTag {
  import opened Wrappers
  import opened Text
  import opened Collections
  import opened FeatureData
  import opened FeatureIds

  type Encoder = map<string, Json> -> string

  function Keys(fs: seq<ResolvedFeature>): (keys: seq<string>)
    ensures |keys| == |fs| && forall i :: 0 <= i < |fs| ==> keys[i] == fs[i].ref.Print()
  {
    seq(|fs|, i requires 0 <= i < |fs| => fs[i].ref.Print())
  }

  /** What one feature contributes to the hash. */
  function Block(f: ResolvedFeature, enc: Encoder): string {
    f.ref.Print() + f.meta.version + enc(f.ref.options) + f.digest
  }

  /** The contribution of the first feature printed as `key`. */
  function BlockFor(fs: seq<ResolvedFeature>, key: string, enc: Encoder): string {
    if fs == [] then ""
    else if fs[0].ref.Print() == key then Block(fs[0], enc)
    else BlockFor(fs[1..], key, enc)
  }

  function Blocks(keys: seq<string>, block: string -> string): string {
    if keys == [] then "" else Blocks(keys[..|keys| - 1], block) + block(keys[|keys| - 1])
  }

  function BlockOf(fs: seq<ResolvedFeature>, enc: Encoder): string -> string {
    key => BlockFor(fs, key, enc)
  }

  /** Everything written to the hash. */
  function HashInput(baseDigest: string, fs: seq<ResolvedFeature>, enc: Encoder): string {
    baseDigest + Blocks(SortStrings(Keys(fs)), BlockOf(fs, enc))
  }

  lemma {:induction false} BlockForAt(fs: seq<ResolvedFeature>, key: string, enc: Encoder, i: nat)
    requires i < |fs| && fs[i].ref.Print() == key
    requires forall k :: 0 <= k < i ==> fs[k].ref.Print() != key
    ensures BlockFor(fs, key, enc) == Block(fs[i], enc)
  {
    hide FeatureRef.Print, Block;
    if i > 0 { BlockForAt(fs[1..], key, enc, i - 1); }
  }

  lemma KeysOfSorted(fs: seq<ResolvedFeature>, keys: seq<string>)
    requires multiset(keys) == multiset(Keys(fs))
    ensures forall i :: 0 <= i < |keys| ==> keys[i] in Keys(fs)
  {
    SameSetOf(keys, Keys(fs));
    hide FeatureRef.Print;
    forall i | 0 <= i < |keys| ensures keys[i] in Keys(fs) { assert keys[i] in SetOf(keys); }
  }

  lemma BlocksMore(keys: seq<string>, i: nat, block: string -> string)
    requires i < |keys|
    ensures Blocks(keys[..i + 1], block) == Blocks(keys[..i], block) + block(keys[i])
  {
    assert keys[..i + 1][..i] == keys[..i];
  }

  /** The outer hashing loop of `stableFeatureTag`, over the sorted keys. */
  method WriteKeys(keys: seq<string>, features: seq<ResolvedFeature>, enc: Encoder) returns (written: string)
    requires forall i :: 0 <= i < |keys| ==> keys[i] in Keys(features)
    ensures written == Blocks(keys, BlockOf(features, enc))
  {
    written := "";
    for i := 0 to |keys|
      invariant written == Blocks(keys[..i], BlockOf(features, enc))
    {
      BlocksMore(keys, i, BlockOf(features, enc));
      hide BlockFor, Blocks, Keys, FeatureRef.Print;
      written := WriteFirst(written, features, keys[i], enc);
    }
    assert keys[..|keys|] == keys;
  }

  /** What `stableFeatureTag` writes to the hash. */
  method WriteHash(baseDigest: string, features: seq<ResolvedFeature>, enc: Encoder) returns (written: string)
    ensures written == HashInput(baseDigest, features, enc)
  {
    var keys := SortStrings(Keys(features));
    KeysOfSorted(features, keys);
    var rest := WriteKeys(keys, features, enc);
    written := baseDigest + rest;
  }

  /** The feature that counts for a key: the first one printed so. */
  ghost predicate FirstPrinted(fs: seq<ResolvedFeature>, key: string, i: nat) {
    i < |fs| && fs[i].ref.Print() == key && forall k :: 0 <= k < i ==> fs[k].ref.Print() != key
  }

  /** `piece` is what is hashed for a key: ID, version, encoded options and digest of that feature. */
  ghost predicate PieceFor(fs: seq<ResolvedFeature>, enc: Encoder, key: string, piece: string) {
    exists i: nat :: FirstPrinted(fs, key, i) && piece == key + fs[i].meta.version + enc(fs[i].ref.options) + fs[i].digest
  }

  lemma FindFirst(fs: seq<ResolvedFeature>, key: string) returns (i: nat)
    requires key in Keys(fs)
    ensures FirstPrinted(fs, key, i)
  {
    hide FeatureRef.Print;
    i := 0;
    while fs[i].ref.Print() != key
      invariant i < |fs|
      invariant forall k :: 0 <= k < i ==> fs[k].ref.Print() != key
      decreases |fs| - i
    {
      if i == |fs| - 1 { assert forall k :: 0 <= k < |fs| ==> Keys(fs)[k] != key; }
      i := i + 1;
    }
  }

  lemma {:induction false} BlocksFlatten(keys: seq<string>, fs: seq<ResolvedFeature>, enc: Encoder)
    returns (pieces: seq<string>, at: seq<(nat, nat)>)
    requires forall k :: k in keys ==> k in Keys(fs)
    ensures |pieces| == |keys| && forall n :: 0 <= n < |keys| ==> PieceFor(fs, enc, keys[n], pieces[n])
    ensures Flattens(pieces, Blocks(keys, BlockOf(fs, enc)), at)
  {
    hide FeatureRef.Print, FirstPrinted, PieceFor, Block, Flattens, Keys;
    if keys == [] {
      pieces, at := [], [];
      FlattensNothing<char>();
    } else {
      var n := |keys| - 1;
      assert keys == keys[..n] + [keys[n]];
      pieces, at := BlocksFlatten(keys[..n], fs, enc);
      var piece := BlockFor(fs, keys[n], enc);
      assert Blocks(keys, BlockOf(fs, enc)) == Blocks(keys[..n], BlockOf(fs, enc)) + piece;
      IsPiece(fs, keys[n], enc);
      hide *;
      at := FlattensMore(pieces, Blocks(keys[..n], BlockOf(fs, enc)), at, piece);
      pieces := pieces + [piece];
    }
  }

  lemma IsPiece(fs: seq<ResolvedFeature>, key: string, enc: Encoder)
    requires key in Keys(fs)
    ensures PieceFor(fs, enc, key, BlockFor(fs, key, enc))
  {
    hide FeatureRef.Print, Keys;
    var i := FindFirst(fs, key);
    FirstBlock(fs, key, enc, i);
    hide BlockFor;
  }

  lemma FirstBlock(fs: seq<ResolvedFeature>, key: string, enc: Encoder, i: nat)
    requires FirstPrinted(fs, key, i)
    ensures i < |fs| && BlockFor(fs, key, enc) == Block(fs[i], enc)
  {
    BlockForAt(fs, key, enc, i);
  }

  /**
   The bytes that are hashed: the base, then for the printed IDs in sorted order the ID, version,
   encoded options and digest of the first feature printed so.
   */
  lemma HashMeans(base: string, fs: seq<ResolvedFeature>, enc: Encoder)
    returns (keys: seq<string>, pieces: seq<string>, rest: string, at: seq<(nat, nat)>)
    ensures Sorted(keys) && multiset(keys) == multiset(seq(|fs|, i requires 0 <= i < |fs| => fs[i].ref.Print()))
    ensures |pieces| == |keys| && forall n :: 0 <= n < |keys| ==> PieceFor(fs, enc, keys[n], pieces[n])
    ensures HashInput(base, fs, enc) == base + rest && Flattens(pieces, rest, at)
  {
    keys := SortStrings(Keys(fs));
    KeysOfSorted(fs, keys);
    rest := Blocks(keys, BlockOf(fs, enc));
    pieces, at := BlocksFlatten(keys, fs, enc);
    hide FeatureRef.Print, PieceFor, Blocks, BlockOf, Flattens;
    assert Keys(fs) == seq(|fs|, i requires 0 <= i < |fs| => fs[i].ref.Print());
  }

  /** The inner loop: the first feature with the key is written, then the loop is left. */
  method WriteFirst(written: string, features: seq<ResolvedFeature>, k: string, enc: Encoder) returns (r: string)
    requires k in Keys(features)
    ensures r == written + BlockFor(features, k, enc)
  {
    r := written;
    for j := 0 to |features|
      invariant r == written
      invariant forall i :: 0 <= i < j ==> features[i].ref.Print() != k
    {
      var f := features[j];
      if f.ref.Print() == k {
        BlockForAt(features, k, enc, j);
        r := r + f.ref.Print();
        r := r + f.meta.version;
        r := r + enc(f.ref.options);
        r := r + f.digest;
        assert r == written + Block(f, enc);
        return;
      }
    }
    assert false;
  }

  // ---------------------------------------------------------------------
  // Independence of the order of the features

  /** Features printed alike contribute alike. */
  ghost predicate KeysDetermine(fs: seq<ResolvedFeature>, enc: Encoder) {
    forall f, g :: f in fs && g in fs && f.ref.Print() == g.ref.Print() ==> Block(f, enc) == Block(g, enc)
  }

  lemma {:induction false} KeysPermuted(fs: seq<ResolvedFeature>, gs: seq<ResolvedFeature>)
    requires multiset(fs) == multiset(gs)
    ensures multiset(Keys(fs)) == multiset(Keys(gs))
  {
    SameLength(fs, gs);
    hide Keys, FeatureRef.Print;
    if fs != [] {
      var k := FindHead(fs, gs);
      var rest := gs[..k] + gs[k + 1..];
      KeysPermuted(fs[1..], rest);
      KeysTail(fs);
      KeysWithout(gs, k);
    }
  }

  lemma KeysTail(fs: seq<ResolvedFeature>)
    requires fs != []
    ensures multiset(Keys(fs)) == multiset(Keys(fs[1..])) + multiset{fs[0].ref.Print()}
  {
    hide FeatureRef.Print;
    assert Keys(fs) == [fs[0].ref.Print()] + Keys(fs[1..]);
  }

  lemma KeysWithout(fs: seq<ResolvedFeature>, k: nat)
    requires k < |fs|
    ensures multiset(Keys(fs)) == multiset(Keys(fs[..k] + fs[k + 1..])) + multiset{fs[k].ref.Print()}
  {
    hide FeatureRef.Print;
    WithoutAt(Keys(fs), k);
    assert Keys(fs)[..k] + Keys(fs)[k + 1..] == Keys(fs[..k] + fs[k + 1..]);
  }

  lemma SortedKeysPermuted(fs: seq<ResolvedFeature>, gs: seq<ResolvedFeature>)
    requires multiset(fs) == multiset(gs)
    ensures SortStrings(Keys(fs)) == SortStrings(Keys(gs))
  {
    KeysPermuted(fs, gs);
    SortedUnique(SortStrings(Keys(fs)), SortStrings(Keys(gs)));
  }

  lemma {:induction false} BlockForAny(fs: seq<ResolvedFeature>, key: string, enc: Encoder) returns (f: ResolvedFeature)
    requires key in Keys(fs)
    ensures f in fs && f.ref.Print() == key && BlockFor(fs, key, enc) == Block(f, enc)
  {
    hide FeatureRef.Print, Block;
    if fs[0].ref.Print() == key {
      f := fs[0];
    } else {
      var k :| 0 <= k < |fs| && Keys(fs)[k] == key;
      assert Keys(fs[1..])[k - 1] == key;
      f := BlockForAny(fs[1..], key, enc);
    }
  }

  lemma {:induction false} BlocksAgree(keys: seq<string>, a: string -> string, b: string -> string)
    requires forall k :: k in keys ==> a(k) == b(k)
    ensures Blocks(keys, a) == Blocks(keys, b)
  {
    if keys != [] {
      var front, last := keys[..|keys| - 1], keys[|keys| - 1];
      assert keys == front + [last];
      BlocksAgree(front, a, b);
    }
  }

  lemma DeterminedInvariant(base: string, fs: seq<ResolvedFeature>, gs: seq<ResolvedFeature>, enc: Encoder)
    requires KeysDetermine(fs, enc) && multiset(fs) == multiset(gs)
    ensures HashInput(base, fs, enc) == HashInput(base, gs, enc)
  {
    SortedKeysPermuted(fs, gs);
    KeysPermuted(fs, gs);
    SameSetOf(fs, gs);
    var keys := SortStrings(Keys(fs));
    SameSetOf(keys, Keys(fs));
    SameSetOf(Keys(fs), Keys(gs));
    hide FeatureRef.Print, Block;
    forall k | k in keys ensures BlockFor(fs, k, enc) == BlockFor(gs, k, enc) {
      assert k in SetOf(keys);
      assert k in SetOf(Keys(fs)) && k in SetOf(Keys(gs));
      var f := BlockForAny(fs, k, enc);
      var g := BlockForAny(gs, k, enc);
      assert g in SetOf(gs);
      assert g in fs;
    }
    BlocksAgree(keys, BlockOf(fs, enc), BlockOf(gs, enc));
  }

  /** A longer block somewhere makes the whole longer. */
  lemma {:induction false} BlocksLonger(keys: seq<string>, key: string, a: string -> string, b: string -> string)
    requires forall k :: k in keys && k != key ==> a(k) == b(k)
    requires |a(key)| > |b(key)|
    ensures |Blocks(keys, a)| >= |Blocks(keys, b)|
    ensures key in keys ==> |Blocks(keys, a)| > |Blocks(keys, b)|
  {
    if keys != [] {
      var front, last := keys[..|keys| - 1], keys[|keys| - 1];
      assert keys == front + [last];
      BlocksLonger(front, key, a, b);
    }
  }

  /** Blocks of the same lengths can be told apart in the whole. */
  lemma {:induction false} BlocksInjective(keys: seq<string>, key: string, a: string -> string, b: string -> string)
    requires forall k :: k in keys ==> |a(k)| == |b(k)|
    requires key in keys && Blocks(keys, a) == Blocks(keys, b)
    ensures a(key) == b(key)
  {
    var front, last := keys[..|keys| - 1], keys[|keys| - 1];
    assert keys == front + [last];
    var wa, wb := Blocks(keys, a), Blocks(keys, b);
    assert wa[|wa| - |a(last)|..] == a(last) && wb[|wb| - |b(last)|..] == b(last);
    assert wa[..|wa| - |a(last)|] == Blocks(front, a) && wb[..|wb| - |b(last)|] == Blocks(front, b);
    if key != last { BlocksInjective(front, key, a, b); }
  }

  lemma BlocksDiffer(keys: seq<string>, key: string, a: string -> string, b: string -> string)
    requires forall k :: k in keys && k != key ==> a(k) == b(k)
    requires key in keys && a(key) != b(key)
    ensures Blocks(keys, a) != Blocks(keys, b)
  {
    if |a(key)| > |b(key)| { BlocksLonger(keys, key, a, b); }
    else if |a(key)| < |b(key)| { BlocksLonger(keys, key, b, a); }
    else if Blocks(keys, a) == Blocks(keys, b) { BlocksInjective(keys, key, a, b); }
  }

  /** Features printed otherwise do not matter for a key. */
  lemma {:induction false} BlockForSkips(a: seq<ResolvedFeature>, f: ResolvedFeature, b: seq<ResolvedFeature>, key: string, enc: Encoder)
    requires f.ref.Print() != key
    ensures BlockFor(a + [f] + b, key, enc) == BlockFor(a + b, key, enc)
  {
    hide FeatureRef.Print, Block;
    if a == [] {
      assert a + [f] + b == [f] + b && a + b == b;
    } else {
      assert (a + [f] + b)[1..] == a[1..] + [f] + b && (a + b)[1..] == a[1..] + b;
      BlockForSkips(a[1..], f, b, key, enc);
    }
  }

  /** `fs` with its feature at `i` moved to the front. */
  function ToFront(fs: seq<ResolvedFeature>, i: nat): seq<ResolvedFeature>
    requires i < |fs|
  {
    [fs[i]] + (fs[..i] + fs[i + 1..])
  }

  lemma ToFrontFacts(fs: seq<ResolvedFeature>, i: nat, enc: Encoder)
    requires i < |fs|
    ensures multiset(ToFront(fs, i)) == multiset(fs)
    ensures BlockFor(ToFront(fs, i), fs[i].ref.Print(), enc) == Block(fs[i], enc)
    ensures forall key :: key != fs[i].ref.Print() ==> BlockFor(ToFront(fs, i), key, enc) == BlockFor(fs, key, enc)
  {
    hide FeatureRef.Print, Block;
    ToFrontPermutes(fs, i);
    ToFrontFirst(fs, i, enc);
    assert fs == fs[..i] + [fs[i]] + fs[i + 1..];
    hide *;
    forall key | key != fs[i].ref.Print() ensures BlockFor(ToFront(fs, i), key, enc) == BlockFor(fs, key, enc) {
      BlockForSkips(fs[..i], fs[i], fs[i + 1..], key, enc);
    }
  }

  lemma ToFrontPermutes(fs: seq<ResolvedFeature>, i: nat)
    requires i < |fs|
    ensures multiset(ToFront(fs, i)) == multiset(fs)
  {
    WithoutAt(fs, i);
  }

  lemma ToFrontFirst(fs: seq<ResolvedFeature>, i: nat, enc: Encoder)
    requires i < |fs|
    ensures BlockFor(ToFront(fs, i), fs[i].ref.Print(), enc) == Block(fs[i], enc)
    ensures forall key :: key != fs[i].ref.Print() ==> BlockFor(ToFront(fs, i), key, enc) == BlockFor(fs[..i] + fs[i + 1..], key, enc)
  {
    hide FeatureRef.Print, Block;
    assert ToFront(fs, i)[1..] == fs[..i] + fs[i + 1..];
  }

  lemma UndeterminedVaries(base: string, fs: seq<ResolvedFeature>, enc: Encoder, i: nat, j: nat)
    requires i < |fs| && j < |fs| && fs[i].ref.Print() == fs[j].ref.Print() && Block(fs[i], enc) != Block(fs[j], enc)
    ensures HashInput(base, ToFront(fs, i), enc) != HashInput(base, ToFront(fs, j), enc)
  {
    ToFrontFacts(fs, i, enc);
    ToFrontFacts(fs, j, enc);
    SortedKeysPermuted(ToFront(fs, i), ToFront(fs, j));
    hide FeatureRef.Print, Block, ToFront;
    var gs, hs, key := ToFront(fs, i), ToFront(fs, j), fs[i].ref.Print();
    var keys := SortStrings(Keys(gs));
    assert key in keys by {
      KeysPermuted(fs, gs);
      assert Keys(fs)[i] == key;
      assert key in multiset(keys);
    }
    BlocksDiffer(keys, key, BlockOf(gs, enc), BlockOf(hs, enc));
    var x, y := Blocks(keys, BlockOf(gs, enc)), Blocks(keys, BlockOf(hs, enc));
    assert (base + x)[|base|..] == x && (base + y)[|base|..] == y;
  }

  /** The hashed bytes ignore the order of the features exactly when equal printed IDs mean equal contributions. */
  lemma HashOrderIrrelevantIff(base: string, fs: seq<ResolvedFeature>, enc: Encoder)
    ensures KeysDetermine(fs, enc)
       <==> forall gs :: multiset(gs) == multiset(fs) ==> HashInput(base, gs, enc) == HashInput(base, fs, enc)
  {
    if KeysDetermine(fs, enc) {
      forall gs | multiset(gs) == multiset(fs) ensures HashInput(base, gs, enc) == HashInput(base, fs, enc) {
        DeterminedInvariant(base, fs, gs, enc);
      }
    } else {
      hide FeatureRef.Print, Block;
      var f, g :| f in fs && g in fs && f.ref.Print() == g.ref.Print() && Block(f, enc) != Block(g, enc);
      var i :| 0 <= i < |fs| && fs[i] == f;
      var j :| 0 <= j < |fs| && fs[j] == g;
      UndeterminedVaries(base, fs, enc, i, j);
      ToFrontFacts(fs, i, enc);
      ToFrontFacts(fs, j, enc);
    }
  }

  /** The contributions of a list of features, in its order. */
  function Contributions(fs: seq<ResolvedFeature>, enc: Encoder): string {
    if fs == [] then "" else Contributions(fs[..|fs| - 1], enc) + Block(fs[|fs| - 1], enc)
  }

  lemma {:induction false} InKeyOrder(fs: seq<ResolvedFeature>, keys: seq<string>, enc: Encoder) returns (order: seq<ResolvedFeature>)
    requires Distinct(Keys(fs)) && forall k :: k in keys ==> k in Keys(fs)
    ensures Keys(order) == keys && (forall f :: f in order ==> f in fs)
    ensures Contributions(order, enc) == Blocks(keys, BlockOf(fs, enc))
  {
    hide FeatureRef.Print, Block;
    if keys == [] {
      order := [];
    } else {
      var front, last := keys[..|keys| - 1], keys[|keys| - 1];
      assert keys == front + [last];
      var rest := InKeyOrder(fs, front, enc);
      var f := BlockForAny(fs, last, enc);
      order := rest + [f];
      assert order[..|order| - 1] == rest;
    }
  }

  /** With distinct printed IDs, each feature is hashed exactly once, sorted by printed ID. */
  lemma HashIsSortedConcatenation(base: string, fs: seq<ResolvedFeature>, enc: Encoder) returns (order: seq<ResolvedFeature>)
    requires Distinct(Keys(fs))
    ensures multiset(order) == multiset(fs) && Sorted(Keys(order))
    ensures HashInput(base, fs, enc) == base + Contributions(order, enc)
  {
    var keys := SortStrings(Keys(fs));
    SameSetOf(keys, Keys(fs));
    hide FeatureRef.Print, Block;
    forall k | k in keys ensures k in Keys(fs) { assert k in SetOf(keys); }
    order := InKeyOrder(fs, keys, enc);
    SameByKey(fs, order);
  }

  lemma DistinctByKey(fs: seq<ResolvedFeature>)
    requires Distinct(Keys(fs))
    ensures Distinct(fs)
  {
    hide FeatureRef.Print;
    forall i, j | 0 <= i < j < |fs| ensures fs[i] != fs[j] {
      assert Keys(fs)[i] != Keys(fs)[j];
    }
  }

  lemma SameByKey(fs: seq<ResolvedFeature>, gs: seq<ResolvedFeature>)
    requires Distinct(Keys(fs)) && multiset(Keys(fs)) == multiset(Keys(gs)) && forall g :: g in gs ==> g in fs
    ensures multiset(gs) == multiset(fs)
  {
    SameSetOf(Keys(fs), Keys(gs));
    DistinctCardinality(Keys(fs));
    FullCardinalityDistinct(Keys(gs));
    hide FeatureRef.Print;
    DistinctByKey(fs);
    DistinctByKey(gs);
    forall f ensures multiset(fs)[f] == multiset(gs)[f] {
      DistinctCount(fs, f);
      DistinctCount(gs, f);
      if f in fs { FoundByKey(fs, gs, f); }
    }
  }

  lemma FoundByKey(fs: seq<ResolvedFeature>, gs: seq<ResolvedFeature>, f: ResolvedFeature)
    requires Distinct(Keys(fs)) && SetOf(Keys(fs)) == SetOf(Keys(gs)) && (forall g :: g in gs ==> g in fs) && f in fs
    ensures f in gs
  {
    hide FeatureRef.Print;
    var i :| 0 <= i < |fs| && fs[i] == f;
    assert Keys(fs)[i] in SetOf(Keys(gs));
    var j :| 0 <= j < |gs| && Keys(gs)[j] == Keys(fs)[i];
    assert gs[j] in fs;
    var k :| 0 <= k < |fs| && fs[k] == gs[j];
    assert Keys(fs)[k] == Keys(fs)[i];
  }

  /** A local feature without a version override prints as its version tag alone. */
  lemma LocalPrints(raw: string, ref: FeatureRef)
    requires Parsed(raw, None) == Success(ref) && ref.source == SourceLocal
    ensures ref.Print() == ":latest"
  {
    assert ref.registry == ref.namespace == ref.id == "" && ref.version == "latest" by {
      hide DetectSource, ToLower, StripVersion, Filled;
    }
    hide Parsed;
    assert ref.Print() == "" + "" + "" + (":" + "latest");
  }

  /** So two local features that contribute differently break the condition. */
  lemma LocalsUndetermined(rawA: string, rawB: string, a: ResolvedFeature, b: ResolvedFeature, fs: seq<ResolvedFeature>, enc: Encoder)
    requires Parsed(rawA, None) == Success(a.ref) && Parsed(rawB, None) == Success(b.ref)
    requires a.ref.source == SourceLocal && b.ref.source == SourceLocal
    requires a in fs && b in fs && Block(a, enc) != Block(b, enc)
    ensures !KeysDetermine(fs, enc)
  {
    LocalPrints(rawA, a.ref);
    LocalPrints(rawB, b.ref);
    hide Parsed, FeatureRef.Print, Block;
  }
}
