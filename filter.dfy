/**
 * The manifest filter: keep the packages whose display name mentions a wanted
 * package name, and narrow each kept package's sources to the wanted names and
 * locales.
 */
module ManifestFilter {
  import opened Text
  import opened Manifest

  /** The two allow-lists the filter reads: wanted package names and wanted locale codes. */
  datatype AllowLists = AllowLists(wantedPackages: seq<string>, wantedLangs: seq<string>)

  /** The compiled-in allow-lists of the program: MangaDex, Brazilian Portuguese. */
  const Original := AllowLists(["MangaDex"], ["pt-BR"])

  /** A package is kept when its name contains, case-sensitively, some wanted package name. */
  predicate KeepPackage(p: Package, allow: AllowLists)
  {
    exists w :: w in allow.wantedPackages && Contains(p.name, w)
  }

  /** A source is kept when its locale is wanted and its name equals a wanted package name exactly. */
  predicate KeepSource(s: Source, allow: AllowLists)
  {
    s.lang in allow.wantedLangs && s.name in allow.wantedPackages
  }

  /** The order-preserving filter of `sources` by `KeepSource`, i.e. what `retain` leaves. */
  function NarrowSources(sources: seq<Source>, allow: AllowLists): (r: seq<Source>)
    ensures |r| <= |sources|
    ensures forall s :: s in r ==> s in sources && KeepSource(s, allow)
    decreases |sources|
  {
    if sources == [] then []
    else
      var last := sources[|sources| - 1];
      NarrowSources(sources[..|sources| - 1], allow) + (if KeepSource(last, allow) then [last] else [])
  }

  /** A kept package as it appears in the output: a copy whose sources are narrowed. */
  function NarrowPackage(p: Package, allow: AllowLists): Package
  {
    p.(sources := NarrowSources(p.sources, allow))
  }

  /** The whole filter over a decoded manifest. */
  function FilterManifest(manifest: seq<Package>, allow: AllowLists): (r: seq<Package>)
    ensures |r| <= |manifest|
    ensures forall q :: q in r ==> KeepPackage(q, allow)
    decreases |manifest|
  {
    if manifest == [] then []
    else
      var last := manifest[|manifest| - 1];
      FilterManifest(manifest[..|manifest| - 1], allow)
        + (if KeepPackage(last, allow) then [NarrowPackage(last, allow)] else [])
  }

  /** Reference definition: the positions of `manifest`, in increasing order, whose package is kept. */
  function KeptIndices(manifest: seq<Package>, allow: AllowLists): seq<nat>
    decreases |manifest|
  {
    if manifest == [] then []
    else
      KeptIndices(manifest[..|manifest| - 1], allow)
        + (if KeepPackage(manifest[|manifest| - 1], allow) then [|manifest| - 1] else [])
  }

  /** `sub` is `s` with some elements removed and the rest left in their order. */
  predicate IsSubsequence<T(==)>(sub: seq<T>, s: seq<T>)
    decreases |s|
  {
    if sub == [] then true
    else if s == [] then false
    else if sub[|sub| - 1] == s[|s| - 1] then IsSubsequence(sub[..|sub| - 1], s[..|s| - 1])
    else IsSubsequence(sub, s[..|s| - 1])
  }

  /** Counts the sources that `KeepSource` accepts. */
  function CountKept(sources: seq<Source>, allow: AllowLists): nat
    decreases |sources|
  {
    if sources == [] then 0
    else CountKept(sources[..|sources| - 1], allow) + (if KeepSource(sources[|sources| - 1], allow) then 1 else 0)
  }

  // ---------------------------------------------------------------------------
  // Subsequences
  // ---------------------------------------------------------------------------

  /** Appending to the longer sequence keeps a subsequence a subsequence. */
  lemma {:induction false} SubsequenceExtend<T>(sub: seq<T>, s: seq<T>, x: T)
    requires IsSubsequence(sub, s)
    ensures IsSubsequence(sub, s + [x])
    ensures IsSubsequence(sub + [x], s + [x])
    decreases |s|, 1
  {
    assert (s + [x])[..|s|] == s;
    assert (sub + [x])[..|sub|] == sub;
    if sub != [] && sub[|sub| - 1] == x {
      SubsequenceDropLast(sub, s);
    }
  }

  /** Dropping the last element of a subsequence leaves a subsequence. */
  lemma {:induction false} SubsequenceDropLast<T>(sub: seq<T>, s: seq<T>)
    requires sub != [] && IsSubsequence(sub, s)
    ensures IsSubsequence(sub[..|sub| - 1], s)
    decreases |s|, 0
  {
    var sub0, init := sub[..|sub| - 1], s[..|s| - 1];
    assert s == init + [s[|s| - 1]];
    if sub[|sub| - 1] == s[|s| - 1] {
      if sub0 != [] {
        SubsequenceExtend(sub0, init, s[|s| - 1]);
      }
    } else {
      SubsequenceDropLast(sub, init);
      SubsequenceExtend(sub0, init, s[|s| - 1]);
    }
  }

  // ---------------------------------------------------------------------------
  // Sources: what `retain` keeps
  // ---------------------------------------------------------------------------

  /** A source is in the narrowed sequence exactly when it was in the input and is accepted. */
  lemma {:induction false} NarrowSourcesMembers(sources: seq<Source>, allow: AllowLists)
    ensures forall s :: s in NarrowSources(sources, allow) <==> s in sources && KeepSource(s, allow)
    decreases |sources|
  {
    if sources != [] {
      var init, last := sources[..|sources| - 1], sources[|sources| - 1];
      assert sources == init + [last];
      NarrowSourcesMembers(init, allow);
    }
  }

  /** Each accepted source keeps its number of occurrences; every other source has none. */
  lemma {:induction false} NarrowSourcesMultiplicity(sources: seq<Source>, allow: AllowLists, s: Source)
    ensures multiset(NarrowSources(sources, allow))[s] == if KeepSource(s, allow) then multiset(sources)[s] else 0
    decreases |sources|
  {
    if sources != [] {
      var init, last := sources[..|sources| - 1], sources[|sources| - 1];
      assert sources == init + [last];
      NarrowSourcesMultiplicity(init, allow, s);
    }
  }

  /** The narrowed sequence keeps the relative order of the input. */
  lemma {:induction false} NarrowSourcesOrdered(sources: seq<Source>, allow: AllowLists)
    ensures IsSubsequence(NarrowSources(sources, allow), sources)
    decreases |sources|
  {
    if sources != [] {
      var init, last := sources[..|sources| - 1], sources[|sources| - 1];
      assert sources == init + [last];
      NarrowSourcesOrdered(init, allow);
      SubsequenceExtend(NarrowSources(init, allow), init, last);
      if KeepSource(last, allow) {
        assert NarrowSources(sources, allow) == NarrowSources(init, allow) + [last];
      } else {
        assert NarrowSources(sources, allow) == NarrowSources(init, allow);
      }
    }
  }

  lemma {:induction false} NarrowSourcesAppend(a: seq<Source>, b: seq<Source>, allow: AllowLists)
    ensures NarrowSources(a + b, allow) == NarrowSources(a, allow) + NarrowSources(b, allow)
    decreases |b|
  {
    if b == [] {
      assert a + b == a;
    } else {
      var init := b[..|b| - 1];
      assert (a + b)[..|a + b| - 1] == a + init;
      assert (a + b)[|a + b| - 1] == b[|b| - 1];
      NarrowSourcesAppend(a, init, allow);
    }
  }

  /** Narrowing twice is narrowing once. */
  lemma {:induction false} NarrowSourcesIdempotent(sources: seq<Source>, allow: AllowLists)
    ensures NarrowSources(NarrowSources(sources, allow), allow) == NarrowSources(sources, allow)
    decreases |sources|
  {
    if sources != [] {
      var init, last := sources[..|sources| - 1], sources[|sources| - 1];
      var r0 := NarrowSources(init, allow);
      NarrowSourcesIdempotent(init, allow);
      if KeepSource(last, allow) {
        NarrowSourcesAppend(r0, [last], allow);
        assert [last][..0] == [];
        assert NarrowSources([last], allow) == [last];
      } else {
        assert NarrowSources(sources, allow) == r0;
      }
    }
  }

  // ---------------------------------------------------------------------------
  // Packages: what the pipeline keeps
  // ---------------------------------------------------------------------------

  /** Kept indices are positions of the manifest, strictly increasing (order is preserved). */
  lemma {:induction false} KeptIndicesIncreasing(manifest: seq<Package>, allow: AllowLists)
    ensures forall k :: 0 <= k < |KeptIndices(manifest, allow)| ==> KeptIndices(manifest, allow)[k] < |manifest|
    ensures forall k, l :: 0 <= k < l < |KeptIndices(manifest, allow)| ==>
              KeptIndices(manifest, allow)[k] < KeptIndices(manifest, allow)[l]
    decreases |manifest|
  {
    if manifest != [] {
      KeptIndicesIncreasing(manifest[..|manifest| - 1], allow);
    }
  }

  /**
   * Position by position, the output is the narrowed copy of the kept input
   * package at the matching kept index.
   */
  lemma {:induction false} FilterManifestAtKeptIndices(manifest: seq<Package>, allow: AllowLists)
    ensures |KeptIndices(manifest, allow)| == |FilterManifest(manifest, allow)|
    ensures forall k :: 0 <= k < |KeptIndices(manifest, allow)| ==>
              KeptIndices(manifest, allow)[k] < |manifest|
              && KeepPackage(manifest[KeptIndices(manifest, allow)[k]], allow)
              && FilterManifest(manifest, allow)[k] == NarrowPackage(manifest[KeptIndices(manifest, allow)[k]], allow)
    decreases |manifest|
  {
    if manifest != [] {
      var n := |manifest|;
      var init := manifest[..n - 1];
      FilterManifestAtKeptIndices(init, allow);
      var idx0, out0 := KeptIndices(init, allow), FilterManifest(init, allow);
      var idx, out := KeptIndices(manifest, allow), FilterManifest(manifest, allow);
      forall k | 0 <= k < |idx|
        ensures idx[k] < n && KeepPackage(manifest[idx[k]], allow) && out[k] == NarrowPackage(manifest[idx[k]], allow)
      {
        if k < |idx0| {
          assert idx[k] == idx0[k] && out[k] == out0[k];
          assert manifest[idx0[k]] == init[idx0[k]];
        }
      }
    }
  }

  /** Every kept package of the input has its index among the kept indices, whatever its sources are. */
  lemma {:induction false} KeptIndicesComplete(manifest: seq<Package>, allow: AllowLists, i: nat)
    requires i < |manifest| && KeepPackage(manifest[i], allow)
    ensures i in KeptIndices(manifest, allow)
    decreases |manifest|
  {
    var n := |manifest|;
    if i < n - 1 {
      var init := manifest[..n - 1];
      assert init[i] == manifest[i];
      KeptIndicesComplete(init, allow, i);
    }
  }

  /** Every field of a kept package other than `sources` is copied unchanged. */
  lemma FilterManifestKeepsFields(manifest: seq<Package>, allow: AllowLists, k: nat)
    requires k < |FilterManifest(manifest, allow)|
    ensures k < |KeptIndices(manifest, allow)|
    ensures var i, q := KeptIndices(manifest, allow)[k], FilterManifest(manifest, allow)[k];
            && i < |manifest|
            && q.name == manifest[i].name && q.pkg == manifest[i].pkg && q.apk == manifest[i].apk
            && q.lang == manifest[i].lang && q.code == manifest[i].code
            && q.version == manifest[i].version && q.nsfw == manifest[i].nsfw
            && q.sources == NarrowSources(manifest[i].sources, allow)
  {
    FilterManifestAtKeptIndices(manifest, allow);
  }

  /** Every source left in an output package has a wanted locale and a wanted name. */
  lemma OutputSourcesWanted(manifest: seq<Package>, allow: AllowLists)
    ensures forall q, s :: q in FilterManifest(manifest, allow) && s in q.sources ==>
              s.lang in allow.wantedLangs && s.name in allow.wantedPackages
  {
    FilterManifestAtKeptIndices(manifest, allow);
    forall q, s | q in FilterManifest(manifest, allow) && s in q.sources
      ensures s.lang in allow.wantedLangs && s.name in allow.wantedPackages
    {
      var k :| 0 <= k < |FilterManifest(manifest, allow)| && FilterManifest(manifest, allow)[k] == q;
      assert s in NarrowSources(manifest[KeptIndices(manifest, allow)[k]].sources, allow);
    }
  }

  /**
   * Kept packages are in the output, narrowed, even when no source survives;
   * a package whose name contains no wanted name shares its name with no output package.
   */
  lemma KeptPackagesAppear(manifest: seq<Package>, allow: AllowLists, i: nat)
    requires i < |manifest|
    ensures KeepPackage(manifest[i], allow) ==> NarrowPackage(manifest[i], allow) in FilterManifest(manifest, allow)
    ensures !KeepPackage(manifest[i], allow) ==>
              forall q :: q in FilterManifest(manifest, allow) ==> q.name != manifest[i].name
  {
    FilterManifestAtKeptIndices(manifest, allow);
    if KeepPackage(manifest[i], allow) {
      KeptIndicesComplete(manifest, allow, i);
      var k :| 0 <= k < |KeptIndices(manifest, allow)| && KeptIndices(manifest, allow)[k] == i;
      assert FilterManifest(manifest, allow)[k] == NarrowPackage(manifest[i], allow);
    }
  }

  /** The output is empty exactly when no input package name contains a wanted name. */
  lemma EmptyOutputIff(manifest: seq<Package>, allow: AllowLists)
    ensures FilterManifest(manifest, allow) == [] <==> forall i :: 0 <= i < |manifest| ==> !KeepPackage(manifest[i], allow)
  {
    var idx, out := KeptIndices(manifest, allow), FilterManifest(manifest, allow);
    FilterManifestAtKeptIndices(manifest, allow);
    if out != [] {
      assert 0 < |idx| && KeepPackage(manifest[idx[0]], allow);
    } else {
      forall i | 0 <= i < |manifest|
        ensures !KeepPackage(manifest[i], allow)
      {
        if KeepPackage(manifest[i], allow) {
          KeptIndicesComplete(manifest, allow, i);
        }
      }
    }
  }

  lemma {:induction false} FilterManifestAppend(a: seq<Package>, b: seq<Package>, allow: AllowLists)
    ensures FilterManifest(a + b, allow) == FilterManifest(a, allow) + FilterManifest(b, allow)
    decreases |b|
  {
    if b == [] {
      assert a + b == a;
    } else {
      var init := b[..|b| - 1];
      assert (a + b)[..|a + b| - 1] == a + init;
      FilterManifestAppend(a, init, allow);
    }
  }

  /** Filtering an already filtered manifest with the same allow-lists changes nothing. */
  lemma {:induction false} FilterManifestIdempotent(manifest: seq<Package>, allow: AllowLists)
    ensures FilterManifest(FilterManifest(manifest, allow), allow) == FilterManifest(manifest, allow)
    decreases |manifest|
  {
    if manifest != [] {
      var init, last := manifest[..|manifest| - 1], manifest[|manifest| - 1];
      var out0 := FilterManifest(init, allow);
      FilterManifestIdempotent(init, allow);
      if KeepPackage(last, allow) {
        var q := NarrowPackage(last, allow);
        assert FilterManifest(manifest, allow) == out0 + [q];
        FilterManifestAppend(out0, [q], allow);
        assert [q][..0] == [];
        assert KeepPackage(q, allow);
        NarrowSourcesIdempotent(last.sources, allow);
        assert NarrowPackage(q, allow) == q;
        assert FilterManifest([q], allow) == [q];
      } else {
        assert FilterManifest(manifest, allow) == out0;
      }
    }
  }

  // ---------------------------------------------------------------------------
  // The imperative steps: in-place `retain`, clone-and-retain, `collect`
  // ---------------------------------------------------------------------------

  /**
   * `Vec::retain` on a buffer of sources: moves the accepted sources, in order,
   * to the front of `a` and returns how many there are; `a[..len]` is the vector afterwards.
   */
  method Retain(a: array<Source>, allow: AllowLists) returns (len: nat)
    modifies a
    ensures len <= a.Length
    ensures a[..len] == NarrowSources(old(a[..]), allow)
  {
    ghost var s := a[..];
    var i, j := 0, 0;
    while i < a.Length
      invariant 0 <= j <= i <= a.Length
      invariant a[..j] == NarrowSources(s[..i], allow)
      invariant a[i..] == s[i..]
    {
      var x := a[i];
      assert x == s[i];
      assert s[..i + 1][..i] == s[..i];
      if KeepSource(x, allow) {
        a[j] := x;
        j := j + 1;
      }
      assert a[i + 1..] == s[i + 1..];
      i := i + 1;
    }
    assert s[..a.Length] == s;
    len := j;
  }

  /** The `map` step: clone a package and `retain` the wanted sources of the clone. */
  method CloneAndRetain(p: Package, allow: AllowLists) returns (q: Package)
    ensures q == NarrowPackage(p, allow)
  {
    var buffer := new Source[|p.sources|](i requires 0 <= i < |p.sources| => p.sources[i]);
    assert buffer[..] == p.sources;
    var len := Retain(buffer, allow);
    q := p.(sources := buffer[..len]);
  }

  /** The pipeline `filter(..).map(..).collect()` over the decoded manifest. */
  method SelectPackages(manifest: seq<Package>, allow: AllowLists) returns (packages: seq<Package>)
    ensures packages == FilterManifest(manifest, allow)
  {
    packages := [];
    for i := 0 to |manifest|
      invariant packages == FilterManifest(manifest[..i], allow)
    {
      assert manifest[..i + 1][..i] == manifest[..i];
      var p := manifest[i];
      if KeepPackage(p, allow) {
        var q := CloneAndRetain(p, allow);
        packages := packages + [q];
      }
    }
    assert manifest[..|manifest|] == manifest;
  }
}
