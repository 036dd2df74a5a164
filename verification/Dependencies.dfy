/** Recursive retrieval: expanding a list of packages to everything they depend on, with every
    dependency resolved to the newest listed version that satisfies it. */
module Dependencies {
  import opened CatalogParts
  import opened NestedLists
  import opened VersionLists
  import opened Wrappers

  /** A dependency: a package stem, a publisher if one is named, and a version unless any will do. */
  datatype Dependency = Dependency(pub: Option<Publisher>, stem: string, version: Option<string>)

  /** The source catalog's base part and the order in which its dictionary lists publishers.  Whether a
      version satisfies a constraint is not part of this model, but that the build release, like the
      rest of what the key leaves out, has no part in it. */
  datatype Source = Source(data: Entries, pubs: seq<Publisher>, key: VersionKey, isSuccessor: (real, string) -> bool)

  ghost predicate Valid(src: Source) {
    && (forall p :: p in src.pubs <==> p in src.data)
    && forall i, j :: 0 <= i < j < |src.pubs| ==> src.pubs[i] != src.pubs[j]
  }

  predicate Satisfies(src: Source, d: Dependency, version: string) {
    d.version.None? || src.isSuccessor(src.key(version), d.version.value)
  }

  // ----- Listing the versions of a stem

  /** The versions of a stem, publisher by publisher. */
  function Listed(src: Source, stem: string, n: nat): seq<Fmri>
    requires n <= |src.pubs|
  {
    if n == 0 then []
    else Listed(src, stem, n - 1) + OfPublisher(src.pubs[n - 1], stem, ListAt(src.data, src.pubs[n - 1], stem))
  }

  function OfPublisher(pub: Publisher, stem: string, l: seq<Entry>): seq<Fmri> {
    if l == [] then [] else OfPublisher(pub, stem, l[..|l| - 1]) + [Fmri(pub, stem, l[|l| - 1].version)]
  }

  function JustVersion(version: string): Entry {
    Entry(version, map[], map[], [])
  }

  /** The different version strings, in the order of their first appearance. */
  function Versions(fs: seq<Fmri>): seq<Entry> {
    if fs == [] then []
    else
      var vs, v := Versions(fs[..|fs| - 1]), fs[|fs| - 1].version;
      if Has(vs, v) then vs else vs + [JustVersion(v)]
  }

  function WithVersion(fs: seq<Fmri>, version: string): seq<Fmri> {
    if fs == [] then []
    else WithVersion(fs[..|fs| - 1], version) + if fs[|fs| - 1].version == version then [fs[|fs| - 1]] else []
  }

  function SortedVersions(src: Source, stem: string): seq<Entry> {
    StableSort(src.key, Versions(Listed(src, stem, |src.pubs|)))
  }

  lemma {:induction false} OfPublisherLists(pub: Publisher, stem: string, l: seq<Entry>, f: Fmri)
    ensures f in OfPublisher(pub, stem, l) <==> f.pub == pub && f.stem == stem && Has(l, f.version)
  {
    if l != [] {
      var init, last := l[..|l| - 1], l[|l| - 1];
      assert l == init + [last];
      OfPublisherLists(pub, stem, init, f);
      HasAppend(init, last, f.version);
    }
  }

  lemma {:induction false} ListedLists(src: Source, stem: string, n: nat, f: Fmri)
    requires n <= |src.pubs|
    ensures f in Listed(src, stem, n) <==> f.pub in src.pubs[..n] && f.stem == stem && Contains(src.data, f)
  {
    if n > 0 {
      var pub := src.pubs[n - 1];
      ListedLists(src, stem, n - 1, f);
      OfPublisherLists(pub, stem, ListAt(src.data, pub, stem), f);
      assert src.pubs[..n] == src.pubs[..n - 1] + [pub];
    }
  }

  /** All versions of the stem that the part lists, and no others. */
  lemma ListedIsContained(src: Source, stem: string, f: Fmri)
    requires Valid(src)
    ensures f in Listed(src, stem, |src.pubs|) <==> f.stem == stem && Contains(src.data, f)
  {
    ListedLists(src, stem, |src.pubs|, f);
    assert src.pubs[..|src.pubs|] == src.pubs;
  }

  lemma {:induction false} VersionsHave(fs: seq<Fmri>, v: string)
    ensures Has(Versions(fs), v) <==> WithVersion(fs, v) != []
    ensures forall f :: f in WithVersion(fs, v) <==> f in fs && f.version == v
  {
    if fs != [] {
      var init := fs[..|fs| - 1];
      assert fs == init + [fs[|fs| - 1]];
      VersionsHave(init, v);
      HasAppend(Versions(init), JustVersion(fs[|fs| - 1].version), v);
    }
  }

  /** The versions of a stem in ascending order, each with the packages of that version. */
  method FmrisByVersion(src: Source, stem: string) returns (r: seq<(string, seq<Fmri>)>)
    ensures |r| == |SortedVersions(src, stem)|
    ensures forall i :: 0 <= i < |r| ==>
              r[i] == (SortedVersions(src, stem)[i].version,
                       WithVersion(Listed(src, stem, |src.pubs|), SortedVersions(src, stem)[i].version))
  {
    var versions, entries := GroupVersions(src, stem);
    var sorted := StableSort(src.key, versions);
    SortedGrouped(src.key, Listed(src, stem, |src.pubs|), versions, entries);
    r := [];
    for i := 0 to |sorted|
      invariant |r| == i
      invariant forall j :: 0 <= j < i ==>
                  r[j] == (sorted[j].version, WithVersion(Listed(src, stem, |src.pubs|), sorted[j].version))
    {
      r := r + [(sorted[i].version, entries[sorted[i].version])];
    }
  }

  lemma SortedGrouped(key: VersionKey, fs: seq<Fmri>, versions: seq<Entry>, entries: map<string, seq<Fmri>>)
    requires Grouped(fs, versions, entries)
    ensures forall i :: 0 <= i < |StableSort(key, versions)| ==>
              var v := StableSort(key, versions)[i].version; v in entries && entries[v] == WithVersion(fs, v)
  {
    var sorted := StableSort(key, versions);
    forall i | 0 <= i < |sorted|
      ensures sorted[i].version in entries
    {
      HasSort(key, versions, sorted[i].version);
    }
  }

  method GroupVersions(src: Source, stem: string) returns (versions: seq<Entry>, entries: map<string, seq<Fmri>>)
    ensures Grouped(Listed(src, stem, |src.pubs|), versions, entries)
  {
    versions, entries := [], map[];
    for n := 0 to |src.pubs|
      invariant Grouped(Listed(src, stem, n), versions, entries)
    {
      var pub := src.pubs[n];
      var verList := ListAt(src.data, pub, stem);
      ghost var before := Listed(src, stem, n);
      assert before + OfPublisher(pub, stem, verList[..0]) == before;
      for i := 0 to |verList|
        invariant Grouped(before + OfPublisher(pub, stem, verList[..i]), versions, entries)
      {
        versions, entries :=
          GroupOne(Fmri(pub, stem, verList[i].version), before + OfPublisher(pub, stem, verList[..i]),
                                      versions, entries);
        OfPublisherNext(pub, stem, verList, i, before);
      }
      assert verList[..|verList|] == verList;
    }
  }

  method GroupOne(f: Fmri, ghost fs: seq<Fmri>, versions0: seq<Entry>, entries0: map<string, seq<Fmri>>)
    returns (versions: seq<Entry>, entries: map<string, seq<Fmri>>)
    requires Grouped(fs, versions0, entries0)
    ensures Grouped(fs + [f], versions, entries)
  {
    versions, entries := versions0, entries0;
    GroupNext(fs, f, versions, entries);
    if f.version !in entries {
      versions := versions + [JustVersion(f.version)];
      entries := entries[f.version := []];
    }
    entries := entries[f.version := entries[f.version] + [f]];
  }

  lemma OfPublisherNext(pub: Publisher, stem: string, l: seq<Entry>, i: nat, before: seq<Fmri>)
    requires i < |l|
    ensures before + OfPublisher(pub, stem, l[..i + 1])
         == before + OfPublisher(pub, stem, l[..i]) + [Fmri(pub, stem, l[i].version)]
  {
    assert l[..i + 1][..i] == l[..i];
  }

  ghost predicate Grouped(fs: seq<Fmri>, versions: seq<Entry>, entries: map<string, seq<Fmri>>) {
    && versions == Versions(fs)
    && (forall v :: v in entries <==> Has(versions, v))
    && forall v :: v in entries ==> entries[v] == WithVersion(fs, v)
  }

  lemma GroupNext(fs: seq<Fmri>, f: Fmri, versions: seq<Entry>, entries: map<string, seq<Fmri>>)
    requires Grouped(fs, versions, entries)
    ensures f.version in entries ==> Grouped(fs + [f], versions, entries[f.version := entries[f.version] + [f]])
    ensures f.version !in entries ==> Grouped(fs + [f], versions + [JustVersion(f.version)], entries[f.version := [f]])
  {
    assert (fs + [f])[..|fs|] == fs;
    VersionsHave(fs, f.version);
    forall v
      ensures Has(versions + [JustVersion(f.version)], v) <==> Has(versions, v) || v == f.version
    {
      HasAppend(versions, JustVersion(f.version), v);
    }
  }

  // ----- Resolving a dependency

  /** The search from the newest version down. */
  function Search(src: Source, d: Dependency, versions: seq<Entry>, fs: seq<Fmri>): Option<Fmri> {
    if versions == [] then None
    else
      var v := versions[|versions| - 1].version;
      if Satisfies(src, d, v) && WithVersion(fs, v) != [] then Some(WithVersion(fs, v)[0])
      else Search(src, d, versions[..|versions| - 1], fs)
  }

  function Expanded(src: Source, d: Dependency): Option<Fmri> {
    Search(src, d, SortedVersions(src, d.stem), Listed(src, d.stem, |src.pubs|))
  }

  lemma {:induction false} SearchFinds(src: Source, d: Dependency, versions: seq<Entry>, fs: seq<Fmri>)
    requires VersionLists.Sorted(src.key, versions)
    ensures var r := Search(src, d, versions, fs);
            && (r.None? ==> forall f :: f in fs && Has(versions, f.version) ==> !Satisfies(src, d, f.version))
            && (r.Some? ==> r.value in fs && Satisfies(src, d, r.value.version)
                            && forall f :: f in fs && Has(versions, f.version) && Satisfies(src, d, f.version) ==>
                                 src.key(f.version) <= src.key(r.value.version))
  {
    if versions != [] {
      var init, last := versions[..|versions| - 1], versions[|versions| - 1];
      assert versions == init + [last];
      SearchFinds(src, d, init, fs);
      VersionsHave(fs, last.version);
      if Satisfies(src, d, last.version) && WithVersion(fs, last.version) != [] {
        assert WithVersion(fs, last.version)[0] in WithVersion(fs, last.version);
      }
      forall f | f in fs
        ensures Has(versions, f.version) <==> Has(init, f.version) || f.version == last.version
      {
        HasAppend(init, last, f.version);
      }
    }
  }

  /** A dependency resolves to a listed version of its stem that satisfies it and is newest among those,
      from whatever publisher; it resolves to nothing exactly when no listed version satisfies it. */
  lemma ExpandedIsNewest(src: Source, d: Dependency)
    requires Valid(src)
    ensures var r := Expanded(src, d);
            && (r.None? <==> forall f :: Contains(src.data, f) && f.stem == d.stem ==> !Satisfies(src, d, f.version))
            && (r.Some? ==> Contains(src.data, r.value) && r.value.stem == d.stem && Satisfies(src, d, r.value.version)
                            && forall f :: Contains(src.data, f) && f.stem == d.stem && Satisfies(src, d, f.version) ==>
                                 src.key(f.version) <= src.key(r.value.version))
  {
    var fs := Listed(src, d.stem, |src.pubs|);
    StableSortCorrect(src.key, Versions(fs));
    SearchFinds(src, d, SortedVersions(src, d.stem), fs);
    forall f
      ensures f in fs <==> f.stem == d.stem && Contains(src.data, f)
      ensures f in fs ==> Has(SortedVersions(src, d.stem), f.version)
    {
      ListedIsContained(src, d.stem, f);
      VersionsHave(fs, f.version);
      HasSort(src.key, Versions(fs), f.version);
    }
  }

  /** In terms of the constraint: with a version given, the newest listed version that passes the test, and
      nothing exactly when none does; without one the newest version of the stem. */
  lemma ExpandedMeets(src: Source, d: Dependency)
    requires Valid(src)
    ensures Expanded(src, d).Some? ==>
              Contains(src.data, Expanded(src, d).value) && Expanded(src, d).value.stem == d.stem
    ensures d.version.Some? && Expanded(src, d).Some? ==>
              var f := Expanded(src, d).value;
              && src.isSuccessor(src.key(f.version), d.version.value)
              && forall g :: Contains(src.data, g) && g.stem == d.stem
                             && src.isSuccessor(src.key(g.version), d.version.value) ==>
                               src.key(g.version) <= src.key(f.version)
    ensures d.version.None? && Expanded(src, d).Some? ==>
              forall g :: Contains(src.data, g) && g.stem == d.stem ==>
                            src.key(g.version) <= src.key(Expanded(src, d).value.version)
    ensures Expanded(src, d).None? <==>
              forall g :: Contains(src.data, g) && g.stem == d.stem ==>
                            d.version.Some? && !src.isSuccessor(src.key(g.version), d.version.value)
  {
    ExpandedIsNewest(src, d);
  }

  lemma SearchStep(src: Source, d: Dependency, versions: seq<Entry>, i: nat, fs: seq<Fmri>)
    requires i < |versions|
    ensures var v := versions[i].version;
            Search(src, d, versions[..i + 1], fs) ==
            if Satisfies(src, d, v) && WithVersion(fs, v) != [] then Some(WithVersion(fs, v)[0])
               else Search(src, d, versions[..i], fs)
    ensures forall f :: f in WithVersion(fs, versions[i].version) ==> f.version == versions[i].version
  {
    assert versions[..i + 1][..i] == versions[..i];
    VersionsHave(fs, versions[i].version);
  }

  method ExpandFmri(src: Source, d: Dependency) returns (r: Option<Fmri>)
    requires Valid(src)
    ensures r == Expanded(src, d)
    ensures r.Some? ==> Contains(src.data, r.value) && r.value.stem == d.stem
    ensures r.Some? && d.version.Some? ==>
              && src.isSuccessor(src.key(r.value.version), d.version.value)
              && forall f :: Contains(src.data, f) && f.stem == d.stem
                             && src.isSuccessor(src.key(f.version), d.version.value) ==>
                               src.key(f.version) <= src.key(r.value.version)
    ensures r.Some? && d.version.None? ==>
              forall f :: Contains(src.data, f) && f.stem == d.stem ==> src.key(f.version) <= src.key(r.value.version)
    ensures r.None? <==> forall f :: Contains(src.data, f) && f.stem == d.stem ==>
                                       d.version.Some? && !src.isSuccessor(src.key(f.version), d.version.value)
  {
    var versions := FmrisByVersion(src, d.stem);
    ghost var sorted, fs := SortedVersions(src, d.stem), Listed(src, d.stem, |src.pubs|);
    var i := |versions|;
    assert sorted[..i] == sorted;
    r := None;
    while i > 0 && r.None?
      invariant 0 <= i <= |versions|
      invariant Expanded(src, d) == if r.Some? then r else Search(src, d, sorted[..i], fs)
    {
      i := i - 1;
      SearchStep(src, d, sorted, i, fs);
      var fmris := versions[i].1;
      for j := 0 to |fmris|
        invariant r.None? && (j > 0 ==> !Satisfies(src, d, sorted[i].version))
      {
        assert fmris[j] in fmris;
        if d.version.None? || src.isSuccessor(src.key(fmris[j].version), d.version.value) {
          r := Some(fmris[j]);
          break;
        }
      }
    }
    ExpandedMeets(src, d);
  }

  // ----- The publisher named

  lemma {:induction false} SearchIgnoresPublisher(src: Source, d: Dependency, pub: Option<Publisher>,
                                                  versions: seq<Entry>, fs: seq<Fmri>)
    ensures Search(src, d.(pub := pub), versions, fs) == Search(src, d, versions, fs)
  {
    if versions != [] {
      SearchIgnoresPublisher(src, d, pub, versions[..|versions| - 1], fs);
    }
  }

  /** Naming a publisher changes nothing. */
  lemma PublisherIgnored(src: Source, d: Dependency, pub: Option<Publisher>)
    ensures Expanded(src, d.(pub := pub)) == Expanded(src, d)
  {
    SearchIgnoresPublisher(src, d, pub, SortedVersions(src, d.stem), Listed(src, d.stem, |src.pubs|));
  }

  /** The publisher at position k is the first one, in the order of the dictionary, to list the version. */
  ghost predicate FirstToList(src: Source, stem: string, version: string, k: int) {
    && 0 <= k < |src.pubs| && Contains(src.data, Fmri(src.pubs[k], stem, version))
    && forall j :: 0 <= j < k ==> !Contains(src.data, Fmri(src.pubs[j], stem, version))
  }

  lemma {:induction false} WithVersionConcat(fs: seq<Fmri>, gs: seq<Fmri>, version: string)
    ensures WithVersion(fs + gs, version) == WithVersion(fs, version) + WithVersion(gs, version)
  {
    if gs == [] {
      assert fs + gs == fs;
    } else {
      assert (fs + gs)[..|fs + gs| - 1] == fs + gs[..|gs| - 1];
      WithVersionConcat(fs, gs[..|gs| - 1], version);
    }
  }

  lemma NotBefore(src: Source, stem: string, version: string, n: nat, j: nat)
    requires j < n <= |src.pubs| && WithVersion(Listed(src, stem, n), version) == []
    ensures !Contains(src.data, Fmri(src.pubs[j], stem, version))
  {
    var g := Fmri(src.pubs[j], stem, version);
    VersionsHave(Listed(src, stem, n), version);
    assert g !in WithVersion(Listed(src, stem, n), version);
    ListedLists(src, stem, n, g);
    assert src.pubs[..n][j] == src.pubs[j];
  }

  /** The publisher at position n - 1 is the first when no earlier one lists the version. */
  lemma FirstHere(src: Source, stem: string, version: string, n: nat)
    requires 0 < n <= |src.pubs| && WithVersion(Listed(src, stem, n - 1), version) == []
    requires Contains(src.data, Fmri(src.pubs[n - 1], stem, version))
    ensures FirstToList(src, stem, version, n - 1)
  {
    forall j | 0 <= j < n - 1
      ensures !Contains(src.data, Fmri(src.pubs[j], stem, version))
    {
      NotBefore(src, stem, version, n - 1, j);
    }
  }

  /** What one publisher lists of a version. */
  lemma OneVersion(pub: Publisher, stem: string, l: seq<Entry>, version: string)
    ensures var fs := WithVersion(OfPublisher(pub, stem, l), version);
            fs != [] ==> fs[0] == Fmri(pub, stem, version) && Has(l, version)
  {
    var fs := WithVersion(OfPublisher(pub, stem, l), version);
    VersionsHave(OfPublisher(pub, stem, l), version);
    if fs != [] {
      assert fs[0] in fs;
      OfPublisherLists(pub, stem, l, fs[0]);
    }
  }

  lemma {:induction false} FirstWithVersion(src: Source, stem: string, version: string, n: nat) returns (k: int)
    requires n <= |src.pubs| && WithVersion(Listed(src, stem, n), version) != []
    ensures k < n && FirstToList(src, stem, version, k)
    ensures WithVersion(Listed(src, stem, n), version)[0] == Fmri(src.pubs[k], stem, version)
  {
    var l := ListAt(src.data, src.pubs[n - 1], stem);
    WithVersionConcat(Listed(src, stem, n - 1), OfPublisher(src.pubs[n - 1], stem, l), version);
    if WithVersion(Listed(src, stem, n - 1), version) != [] {
      k := FirstWithVersion(src, stem, version, n - 1);
    } else {
      k := n - 1;
      OneVersion(src.pubs[k], stem, l, version);
      FirstHere(src, stem, version, n);
    }
  }

  lemma {:induction false} SearchTakesFirst(src: Source, d: Dependency, versions: seq<Entry>, fs: seq<Fmri>)
    requires Search(src, d, versions, fs).Some?
    ensures var f := Search(src, d, versions, fs).value;
            WithVersion(fs, f.version) != [] && WithVersion(fs, f.version)[0] == f && Satisfies(src, d, f.version)
  {
    var v := versions[|versions| - 1].version;
    if Satisfies(src, d, v) && WithVersion(fs, v) != [] {
      VersionsHave(fs, v);
      assert WithVersion(fs, v)[0] in WithVersion(fs, v);
    } else {
      SearchTakesFirst(src, d, versions[..|versions| - 1], fs);
    }
  }

  /** The version at position i is the last of the ascending list to satisfy the dependency. */
  ghost predicate LastSatisfying(src: Source, d: Dependency, versions: seq<Entry>, i: int) {
    && 0 <= i < |versions| && Satisfies(src, d, versions[i].version)
    && forall j :: i < j < |versions| ==> !Satisfies(src, d, versions[j].version)
  }

  lemma {:induction false} SearchTakesLast(src: Source, d: Dependency, versions: seq<Entry>, fs: seq<Fmri>)
    returns (i: int)
    requires forall k :: 0 <= k < |versions| ==> WithVersion(fs, versions[k].version) != []
    ensures Search(src, d, versions, fs).Some? ==>
              LastSatisfying(src, d, versions, i)
              && Search(src, d, versions, fs) == Some(WithVersion(fs, versions[i].version)[0])
    ensures Search(src, d, versions, fs).None? ==> forall k ::
              0 <= k < |versions| ==> !Satisfies(src, d, versions[k].version)
  {
    i := |versions| - 1;
    if versions != [] && !Satisfies(src, d, versions[i].version) {
      i := SearchTakesLast(src, d, versions[..i], fs);
    }
  }

  /** A dependency resolves to a package of the publisher it names exactly when, of the stem's versions from
      all publishers, the last satisfying one is listed by that publisher first. */
  lemma NamedPublisherExactly(src: Source, d: Dependency)
    requires Valid(src) && d.pub.Some?
    ensures Expanded(src, d).Some? && Expanded(src, d).value.pub == d.pub.value
            <==> exists i, k :: LastSatisfying(src, d, SortedVersions(src, d.stem), i)
                                && FirstToList(src, d.stem, SortedVersions(src, d.stem)[i].version, k)
                                   && src.pubs[k] == d.pub.value
  {
    var versions, fs := SortedVersions(src, d.stem), Listed(src, d.stem, |src.pubs|);
    forall k | 0 <= k < |versions|
      ensures WithVersion(fs, versions[k].version) != []
    {
      HasSort(src.key, Versions(fs), versions[k].version);
      VersionsHave(fs, versions[k].version);
    }
    var i := SearchTakesLast(src, d, versions, fs);
    if Expanded(src, d).Some? {
      var k := FirstWithVersion(src, d.stem, versions[i].version, |src.pubs|);
      forall i', k' | LastSatisfying(src, d, versions, i') && FirstToList(src, d.stem, versions[i'].version, k')
        ensures i' == i && k' == k
      {
      }
    }
  }

  /** So when another publisher lists a satisfying version newer than all of the named one's, the package is
      not the named publisher's. */
  lemma NewerElsewhere(src: Source, d: Dependency, g: Fmri)
    requires Valid(src) && d.pub.Some? && Contains(src.data, g) && g.stem == d.stem && Satisfies(src, d, g.version)
    requires forall f ::
               Contains(src.data, f) && f.stem == d.stem && f.pub == d.pub.value && Satisfies(src, d, f.version) ==>
                           src.key(f.version) < src.key(g.version)
    ensures Expanded(src, d).Some? && Expanded(src, d).value.pub != d.pub.value
  {
    ExpandedIsNewest(src, d);
  }

  // ----- The closure

  /** The depend actions of each manifest, each with its list of dependencies. */
  type Manifests = Fmri -> seq<seq<Dependency>>

  /** What a dependency resolves to is in the set: itself, or up to ties. */
  ghost predicate ResolvedIn(src: Source, d: Dependency, s: set<Fmri>, ties: bool) {
    Expanded(src, d).Some? ==> if ties then Member(src.key, Expanded(src, d).value, s) else Expanded(src, d).value in s
  }

  ghost predicate ListIn(src: Source, ds: seq<Dependency>, n: int, s: set<Fmri>, ties: bool) {
    forall j :: 0 <= j < n && j < |ds| ==> ResolvedIn(src, ds[j], s, ties)
  }

  ghost predicate ActionsIn(src: Source, actions: seq<seq<Dependency>>, n: int, s: set<Fmri>, ties: bool) {
    forall i :: 0 <= i < n && i < |actions| ==> ListIn(src, actions[i], |actions[i]|, s, ties)
  }

  /** All that a package's dependencies resolve to is in the set. */
  ghost predicate DirectIn(src: Source, manifests: Manifests, f: Fmri, s: set<Fmri>, ties: bool) {
    ActionsIn(src, manifests(f), |manifests(f)|, s, ties)
  }

  lemma InMore(src: Source, actions: seq<seq<Dependency>>, n: int, ds: seq<Dependency>, m: int, s: set<Fmri>,
               t: set<Fmri>, ties: bool)
    requires s <= t
    ensures ActionsIn(src, actions, n, s, ties) ==> ActionsIn(src, actions, n, t, ties)
    ensures ListIn(src, ds, m, s, ties) ==> ListIn(src, ds, m, t, ties)
  {
    forall d: Dependency | ResolvedIn(src, d, s, ties)
      ensures ResolvedIn(src, d, t, ties)
    {
    }
    if ActionsIn(src, actions, n, s, ties) {
      forall i | 0 <= i < n && i < |actions|
        ensures ListIn(src, actions[i], |actions[i]|, t, ties)
      {
        assert ListIn(src, actions[i], |actions[i]|, s, ties);
      }
    }
  }

  lemma ListNext(src: Source, ds: seq<Dependency>, j: nat, s: set<Fmri>, ties: bool)
    requires j < |ds| && ListIn(src, ds, j, s, ties) && ResolvedIn(src, ds[j], s, ties)
    ensures ListIn(src, ds, j + 1, s, ties)
  {
  }

  lemma ActionsNext(src: Source, actions: seq<seq<Dependency>>, i: nat, s: set<Fmri>, ties: bool)
    requires i < |actions| && ActionsIn(src, actions, i, s, ties) && ListIn(src, actions[i], |actions[i]|, s, ties)
    ensures ActionsIn(src, actions, i + 1, s, ties)
  {
  }

  lemma DirectInMore(src: Source, manifests: Manifests, f: Fmri, s: set<Fmri>, t: set<Fmri>, ties: bool)
    requires s <= t && DirectIn(src, manifests, f, s, ties)
    ensures DirectIn(src, manifests, f, t, ties)
  {
    InMore(src, manifests(f), |manifests(f)|, [], 0, s, t, ties);
  }

  lemma DirectInOne(src: Source, manifests: Manifests, f: Fmri, i: nat, j: nat, t: set<Fmri>, ties: bool)
    requires DirectIn(src, manifests, f, t, ties) && i < |manifests(f)| && j < |manifests(f)[i]|
    ensures ResolvedIn(src, manifests(f)[i][j], t, ties)
  {
    assert ListIn(src, manifests(f)[i], |manifests(f)[i]|, t, ties);
  }

  ghost predicate Closed(src: Source, manifests: Manifests, s: set<Fmri>) {
    forall f :: f in s ==> DirectIn(src, manifests, f, s, false)
  }

  ghost predicate HasRoots(roots: seq<Fmri>, s: set<Fmri>) {
    forall f :: f in roots ==> f in s
  }

  ghost predicate Least(src: Source, manifests: Manifests, roots: seq<Fmri>, s: set<Fmri>) {
    && HasRoots(roots, s) && Closed(src, manifests, s)
    && forall t :: HasRoots(roots, t) && Closed(src, manifests, t) ==> s <= t
  }

  /** What a retrieval finds, given that its set does not tell tied versions apart: of tied versions one,
      of the roots and their dependencies all up to ties, and nothing that the least closed set lacks. */
  ghost predicate Retrieved(src: Source, manifests: Manifests, roots: seq<Fmri>, s: set<Fmri>) {
    && TieFree(src.key, s)
    && (forall f :: f in roots ==> Member(src.key, f, s) && DirectIn(src, manifests, f, s, true))
    && (forall f :: f in s ==> DirectIn(src, manifests, f, s, true))
    && forall t :: HasRoots(roots, t) && Closed(src, manifests, t) ==> s <= t
  }

  class Retrieval {
    const src: Source
    const manifests: Manifests
    var s: set<Fmri>

    constructor (src: Source, manifests: Manifests)
      ensures this.src == src && this.manifests == manifests && s == {}
    {
      this.src, this.manifests, s := src, manifests, {};
    }

    /** What a visit of pfmri has got done, from the set it found: everything it added has its
        dependencies in the set, and had to be added. */
    ghost predicate Visited(pfmri: Fmri, was: set<Fmri>)
      reads this
    {
      && was <= s && Member(src.key, pfmri, s) && TieFree(src.key, s)
      && (forall f :: f in s - was ==> f != pfmri ==> DirectIn(src, manifests, f, s, true))
      && forall t :: pfmri in t && Closed(src, manifests, t) ==> s <= was + t
    }

    /** Add a package, unless a tied one is there, and, depth first, everything it depends on that is
        not in the set yet.  The universe bounds the set, which is what ends the recursion, cycles
        or not. */
    method GetDependenciesOf(pfmri: Fmri, ghost universe: set<Fmri>)
      requires Valid(src) && s <= universe && pfmri in universe && Fmris(src.data) <= universe && TieFree(src.key, s)
      modifies this
      ensures s <= universe && Visited(pfmri, old(s)) && DirectIn(src, manifests, pfmri, s, true)
      decreases |universe - s|, if Member(src.key, pfmri, s) then 2 else 0
    {
      ghost var was := s;
      if !Member(src.key, pfmri, s) {
        s := s + {pfmri};
      }
      assert Tied(src.key, pfmri, pfmri);
      ghost var left := |universe - s|;
      assert left <= |universe - was| && (s != was ==> left < |universe - was|) by {
        Fewer(universe - s, universe - was);
      }
      var actions := manifests(pfmri);
      for i := 0 to |actions|
        invariant s <= universe && |universe - s| <= left && Visited(pfmri, was)
        invariant ActionsIn(src, actions, i, s, true)
      {
        var fmris := actions[i];
        for j := 0 to |fmris|
          invariant s <= universe && |universe - s| <= left && Visited(pfmri, was)
          invariant ActionsIn(src, actions, i, s, true) && ListIn(src, fmris, j, s, true)
        {
          ghost var before := s;
          Follow(fmris[j], pfmri, i, j, was, universe);
          InMore(src, actions, i, fmris, j, before, s, true);
          ListNext(src, fmris, j, s, true);
        }
        ActionsNext(src, actions, i, s, true);
      }
    }

    /** Visit what one dependency resolves to, if that is not in the set yet. */
    method Follow(d: Dependency, pfmri: Fmri, i: nat, j: nat, ghost was: set<Fmri>, ghost universe: set<Fmri>)
      requires Valid(src) && s <= universe && Fmris(src.data) <= universe && Visited(pfmri, was)
      requires i < |manifests(pfmri)| && j < |manifests(pfmri)[i]| && manifests(pfmri)[i][j] == d
      modifies this
      ensures old(s) <= s <= universe && |universe - s| <= old(|universe - s|)
      ensures Visited(pfmri, was) && ResolvedIn(src, d, s, true)
      decreases |universe - s|, 1
    {
      var new_fmri := ExpandFmri(src, d);
      if new_fmri.Some? && !Member(src.key, new_fmri.value, s) {
        ghost var before := s;
        FmrisContains(src.data, new_fmri.value);
        GetDependenciesOf(new_fmri.value, universe);
        VisitedMore(pfmri, was, before, new_fmri.value, i, j);
        Fewer(universe - s, universe - before);
      }
    }

    /** A visit inside a visit. */
    lemma VisitedMore(pfmri: Fmri, was: set<Fmri>, before: set<Fmri>, next: Fmri, i: nat, j: nat)
      requires was <= before && Member(src.key, pfmri, before)
      requires forall f :: f in before - was ==> f != pfmri ==> DirectIn(src, manifests, f, before, true)
      requires forall t :: pfmri in t && Closed(src, manifests, t) ==> before <= was + t
      requires Visited(next, before) && DirectIn(src, manifests, next, s, true)
      requires i < |manifests(pfmri)| && j < |manifests(pfmri)[i]|
               && Expanded(src, manifests(pfmri)[i][j]) == Some(next)
      ensures Visited(pfmri, was)
    {
      forall f | f in s - was && f != pfmri
        ensures DirectIn(src, manifests, f, s, true)
      {
        if f in before {
          DirectInMore(src, manifests, f, before, s, true);
        }
      }
      forall t | pfmri in t && Closed(src, manifests, t)
        ensures s <= was + t
      {
        DirectInOne(src, manifests, pfmri, i, j, t, false);
      }
    }
  }

  lemma Fewer(a: set<Fmri>, b: set<Fmri>)
    requires a <= b
    ensures |a| <= |b| && (a < b ==> |a| < |b|)
  {
    assert b == a + (b - a);
    if a < b {
      var f :| f in b - a;
      assert |b - a| > 0;
    }
  }

  /** The packages to retrieve for a list of packages. */
  /** Of each root the set has one package that is equal to it: of the same publisher, stem and place in the
      order of versions.  No two packages of the set are equal in this way. */
  ghost predicate EqualOnly(key: VersionKey, roots: seq<Fmri>, s: set<Fmri>) {
    && (forall f :: f in roots ==>
          exists g :: g in s && g.pub == f.pub && g.stem == f.stem && key(g.version) == key(f.version))
    && forall f, g :: f in s && g in s && g.pub == f.pub && g.stem == f.stem && key(g.version) == key(f.version) ==>
                        g == f
  }

  lemma RootsFound(src: Source, manifests: Manifests, roots: seq<Fmri>, s: set<Fmri>)
    requires Retrieved(src, manifests, roots, s)
    ensures EqualOnly(src.key, roots, s)
  {
    forall f | f in roots
      ensures exists g :: g in s && g.pub == f.pub && g.stem == f.stem && src.key(g.version) == src.key(f.version)
    {
      assert Member(src.key, f, s);
    }
    forall f, g | f in s && g in s && g.pub == f.pub && g.stem == f.stem && src.key(g.version) == src.key(f.version)
      ensures g == f
    {
      assert Tied(src.key, f, g);
    }
  }

  /** Of whatever a dependency in the manifest of a root, or of a package of the set, resolves to, the set has
      a package that is equal to it. */
  ghost predicate EqualFollow(src: Source, manifests: Manifests, roots: seq<Fmri>, s: set<Fmri>) {
    forall f, i, j :: (f in roots || f in s) && 0 <= i < |manifests(f)| && 0 <= j < |manifests(f)[i]|
                      && Expanded(src, manifests(f)[i][j]).Some? ==>
                        var d := Expanded(src, manifests(f)[i][j]).value;
                        exists g :: g in s && g.pub == d.pub && g.stem == d.stem
                               && src.key(g.version) == src.key(d.version)
  }

  /** The set has the roots, and whatever a dependency in the manifest of one of its packages resolves to. */
  ghost predicate FollowedBy(src: Source, manifests: Manifests, roots: seq<Fmri>, t: set<Fmri>) {
    && (forall f :: f in roots ==> f in t)
    && forall f, i, j ::
         f in t && 0 <= i < |manifests(f)| && 0 <= j < |manifests(f)[i]| && Expanded(src, manifests(f)[i][j]).Some? ==>
           Expanded(src, manifests(f)[i][j]).value in t
  }

  lemma DependenciesFound(src: Source, manifests: Manifests, roots: seq<Fmri>, s: set<Fmri>)
    requires Retrieved(src, manifests, roots, s)
    ensures EqualFollow(src, manifests, roots, s)
    ensures forall t :: FollowedBy(src, manifests, roots, t) ==> s <= t
  {
    forall f, i, j | (f in roots || f in s) && 0 <= i < |manifests(f)| && 0 <= j < |manifests(f)[i]|
                     && Expanded(src, manifests(f)[i][j]).Some?
      ensures var d := Expanded(src, manifests(f)[i][j]).value;
              exists g :: g in s && g.pub == d.pub && g.stem == d.stem && src.key(g.version) == src.key(d.version)
    {
      assert DirectIn(src, manifests, f, s, true);
      DirectInOne(src, manifests, f, i, j, s, true);
    }
    forall t | FollowedBy(src, manifests, roots, t)
      ensures s <= t
    {
      forall f | f in t
        ensures DirectIn(src, manifests, f, t, false)
      {
        forall i | 0 <= i < |manifests(f)|
          ensures ListIn(src, manifests(f)[i], |manifests(f)[i]|, t, false)
        {
        }
      }
      assert HasRoots(roots, t) && Closed(src, manifests, t);
    }
  }

  method GetDependencies(src: Source, manifests: Manifests, fmriList: seq<Fmri>) returns (r: set<Fmri>)
    requires Valid(src)
    ensures Retrieved(src, manifests, fmriList, r)
    ensures Least(src, manifests, fmriList, r) <==>
            forall all :: Least(src, manifests, fmriList, all) ==> TieFree(src.key, all)
    ensures TieFree(src.key, Fmris(src.data) + set f | f in fmriList) ==> Least(src, manifests, fmriList, r)
    ensures EqualOnly(src.key, fmriList, r) && EqualFollow(src, manifests, fmriList, r)
    ensures forall t :: FollowedBy(src, manifests, fmriList, t) ==> r <= t
  {
    var found := new Retrieval(src, manifests);
    ghost var universe := Fmris(src.data) + set f | f in fmriList;
    for i := 0 to |fmriList|
      invariant found.s <= universe && found.src == src && found.manifests == manifests && TieFree(src.key, found.s)
      invariant forall f :: f in found.s ==> DirectIn(src, manifests, f, found.s, true)
      invariant forall k :: 0 <= k < i ==> RootDone(src, manifests, fmriList[k], found.s)
      invariant forall t :: HasRoots(fmriList, t) && Closed(src, manifests, t) ==> found.s <= t
    {
      ghost var before := found.s;
      found.GetDependenciesOf(fmriList[i], universe);
      MoreRoots(src, manifests, fmriList, i, before, found.s);
    }
    r := found.s;
    RetrievedExactly(src, manifests, fmriList, r);
    RootsFound(src, manifests, fmriList, r);
    DependenciesFound(src, manifests, fmriList, r);
  }

  ghost predicate RootDone(src: Source, manifests: Manifests, f: Fmri, s: set<Fmri>) {
    Member(src.key, f, s) && DirectIn(src, manifests, f, s, true)
  }

  lemma MoreRoots(src: Source, manifests: Manifests, roots: seq<Fmri>, i: nat, before: set<Fmri>, s: set<Fmri>)
    requires before <= s && i < |roots|
    requires forall f :: f in before ==> DirectIn(src, manifests, f, before, true)
    requires forall f :: f in s - before ==> f != roots[i] ==> DirectIn(src, manifests, f, s, true)
    requires forall k :: 0 <= k < i ==> RootDone(src, manifests, roots[k], before)
    requires RootDone(src, manifests, roots[i], s)
    ensures forall f :: f in s ==> DirectIn(src, manifests, f, s, true)
    ensures forall k :: 0 <= k < i + 1 ==> RootDone(src, manifests, roots[k], s)
  {
    forall f | f in s
      ensures DirectIn(src, manifests, f, s, true)
    {
      if f in before {
        DirectInMore(src, manifests, f, before, s, true);
      }
    }
    forall k | 0 <= k < i + 1
      ensures RootDone(src, manifests, roots[k], s)
    {
      if k < i {
        assert RootDone(src, manifests, roots[k], before);
        DirectInMore(src, manifests, roots[k], before, s, true);
      }
    }
  }

  // ----- When it is the least closed set

  ghost function Universe(src: Source, roots: seq<Fmri>): set<Fmri> {
    Fmris(src.data) + set f | f in roots
  }

  /** Resolved dependencies are listed. */
  lemma UniverseClosed(src: Source, manifests: Manifests, roots: seq<Fmri>)
    requires Valid(src)
    ensures HasRoots(roots, Universe(src, roots)) && Closed(src, manifests, Universe(src, roots))
  {
    var u := Universe(src, roots);
    forall d: Dependency
      ensures ResolvedIn(src, d, u, false)
    {
      ExpandedIsNewest(src, d);
      if Expanded(src, d).Some? {
        FmrisContains(src.data, Expanded(src, d).value);
      }
    }
    forall f | f in u
      ensures DirectIn(src, manifests, f, u, false)
    {
      forall i | 0 <= i < |manifests(f)|
        ensures ListIn(src, manifests(f)[i], |manifests(f)[i]|, u, false)
      {
      }
    }
  }

  /** There is a least closed set. */
  lemma LeastExists(src: Source, manifests: Manifests, roots: seq<Fmri>) returns (all: set<Fmri>)
    requires Valid(src)
    ensures Least(src, manifests, roots, all)
  {
    UniverseClosed(src, manifests, roots);
    var u := Universe(src, roots);
    all := set f | f in u && forall t :: HasRoots(roots, t) && Closed(src, manifests, t) ==> f in t;
    forall f | f in all
      ensures DirectIn(src, manifests, f, all, false)
    {
      forall i | 0 <= i < |manifests(f)|
        ensures ListIn(src, manifests(f)[i], |manifests(f)[i]|, all, false)
      {
        forall j | 0 <= j < |manifests(f)[i]|
          ensures ResolvedIn(src, manifests(f)[i][j], all, false)
        {
          DirectInOne(src, manifests, f, i, j, u, false);
          forall t | HasRoots(roots, t) && Closed(src, manifests, t)
            ensures ResolvedIn(src, manifests(f)[i][j], t, false)
          {
            DirectInOne(src, manifests, f, i, j, t, false);
          }
        }
      }
    }
  }

  lemma {:induction false} SubsetTieFree(key: VersionKey, s: set<Fmri>, t: set<Fmri>)
    requires s <= t && TieFree(key, t)
    ensures TieFree(key, s)
  {
    forall f, g | f in s && g in s && Tied(key, f, g)
      ensures f == g
    {
      assert f in t && g in t;
    }
  }

  /** In a set without ties, being there up to ties is being there. */
  lemma MemberIsIn(key: VersionKey, f: Fmri, s: set<Fmri>, t: set<Fmri>)
    requires s <= t && TieFree(key, t) && f in t && Member(key, f, s)
    ensures f in s
  {
    var g :| g in s && Tied(key, f, g);
    assert g in t;
  }

  lemma RetrievedCloses(src: Source, manifests: Manifests, roots: seq<Fmri>, s: set<Fmri>, all: set<Fmri>)
    requires Retrieved(src, manifests, roots, s) && Least(src, manifests, roots, all) && TieFree(src.key, all)
    ensures HasRoots(roots, s) && Closed(src, manifests, s)
  {
    assert s <= all;
    forall f | f in roots
      ensures f in s
    {
      MemberIsIn(src.key, f, s, all);
    }
    forall f | f in s
      ensures DirectIn(src, manifests, f, s, false)
    {
      forall i | 0 <= i < |manifests(f)|
        ensures ListIn(src, manifests(f)[i], |manifests(f)[i]|, s, false)
      {
        forall j | 0 <= j < |manifests(f)[i]|
          ensures ResolvedIn(src, manifests(f)[i][j], s, false)
        {
          DirectInOne(src, manifests, f, i, j, s, true);
          DirectInOne(src, manifests, f, i, j, all, false);
          if Expanded(src, manifests(f)[i][j]).Some? {
            MemberIsIn(src.key, Expanded(src, manifests(f)[i][j]).value, s, all);
          }
        }
      }
    }
  }

  /** What is retrieved is the least closed set exactly when that set has no ties, so in particular when
      no two listed versions or packages asked for are tied. */
  lemma RetrievedExactly(src: Source, manifests: Manifests, roots: seq<Fmri>, r: set<Fmri>)
    requires Valid(src) && Retrieved(src, manifests, roots, r)
    ensures Least(src, manifests, roots, r) <==>
            forall all :: Least(src, manifests, roots, all) ==> TieFree(src.key, all)
    ensures TieFree(src.key, Universe(src, roots)) ==> Least(src, manifests, roots, r)
  {
    var all := LeastExists(src, manifests, roots);
    UniverseClosed(src, manifests, roots);
    if TieFree(src.key, Universe(src, roots)) {
      SubsetTieFree(src.key, all, Universe(src, roots));
    }
    if TieFree(src.key, all) {
      RetrievedCloses(src, manifests, roots, r, all);
    }
    forall other | Least(src, manifests, roots, other)
      ensures other == all
    {
      assert other <= all && all <= other;
    }
  }

  // ----- The roots for which it is, whatever the manifests

  ghost predicate Resolvable(src: Source, g: Fmri) {
    exists d: Dependency :: Expanded(src, d) == Some(g)
  }

  /** No package asked for is tied to a different one that is asked for too or that some dependency
      resolves to. */
  ghost predicate RootsClear(src: Source, roots: seq<Fmri>) {
    forall f, g :: f in roots && (g in roots || Resolvable(src, g)) && Tied(src.key, f, g) ==> f == g
  }

  /** Of tied versions, dependencies only ever resolve to one. */
  lemma {:induction false} SearchAgrees(src: Source, d: Dependency, e: Dependency, versions: seq<Entry>, fs: seq<Fmri>)
    requires Search(src, d, versions, fs).Some? && Search(src, e, versions, fs).Some?
    requires src.key(Search(src, d, versions, fs).value.version) == src.key(Search(src, e, versions, fs).value.version)
    ensures Search(src, d, versions, fs) == Search(src, e, versions, fs)
  {
    var v := versions[|versions| - 1].version;
    VersionsHave(fs, v);
    SearchTakesFirst(src, d, versions, fs);
    SearchTakesFirst(src, e, versions, fs);
    if WithVersion(fs, v) != [] && (Satisfies(src, d, v) || Satisfies(src, e, v)) {
      assert WithVersion(fs, v)[0] in WithVersion(fs, v);
    } else {
      SearchAgrees(src, d, e, versions[..|versions| - 1], fs);
    }
  }

  lemma ResolvableOnce(src: Source, f: Fmri, g: Fmri)
    requires Valid(src) && Resolvable(src, f) && Resolvable(src, g) && Tied(src.key, f, g)
    ensures f == g
  {
    var d: Dependency :| Expanded(src, d) == Some(f);
    var e: Dependency :| Expanded(src, e) == Some(g);
    ExpandedIsNewest(src, d);
    ExpandedIsNewest(src, e);
    SearchAgrees(src, d, e, SortedVersions(src, d.stem), Listed(src, d.stem, |src.pubs|));
  }

  lemma RootsOrResolvable(src: Source, manifests: Manifests, roots: seq<Fmri>, all: set<Fmri>)
    requires Least(src, manifests, roots, all)
    ensures forall f :: f in all ==> f in roots || Resolvable(src, f)
  {
    var t := set f | f in all && (f in roots || Resolvable(src, f));
    forall f | f in t
      ensures DirectIn(src, manifests, f, t, false)
    {
      forall i | 0 <= i < |manifests(f)|
        ensures ListIn(src, manifests(f)[i], |manifests(f)[i]|, t, false)
      {
        forall j | 0 <= j < |manifests(f)[i]|
          ensures ResolvedIn(src, manifests(f)[i][j], t, false)
        {
          DirectInOne(src, manifests, f, i, j, all, false);
        }
      }
    }
    assert all <= t;
  }

  /** A package asked for and a different one, tied to it, that is asked for too or that the dependency d
      resolves to: when d is every package's only dependency, the least closed set has both. */
  lemma TiedRoot(src: Source, roots: seq<Fmri>, f: Fmri, g: Fmri, d: Dependency, all: set<Fmri>)
    requires Valid(src) && f in roots && Tied(src.key, f, g) && f != g && (g in roots || Expanded(src, d) == Some(g))
    requires Least(src, _ => [[d]], roots, all)
    ensures !TieFree(src.key, all)
  {
    DirectInOne(src, _ => [[d]], f, 0, 0, all, false);
    assert f in all && g in all;
  }

  /** The least closed set has no ties whatever the manifests, and so is what is retrieved, exactly when the
      packages asked for are clear of ties. */
  lemma TieFreeExactly(src: Source, roots: seq<Fmri>)
    requires Valid(src)
    ensures RootsClear(src, roots)
            <==> forall manifests: Manifests, all :: Least(src, manifests, roots, all) ==> TieFree(src.key, all)
  {
    if RootsClear(src, roots) {
      forall manifests: Manifests, all | Least(src, manifests, roots, all)
        ensures TieFree(src.key, all)
      {
        RootsOrResolvable(src, manifests, roots, all);
        forall f, g | f in all && g in all && Tied(src.key, f, g)
          ensures f == g
        {
          if f !in roots && g !in roots {
            ResolvableOnce(src, f, g);
          } else if f !in roots {
            assert Tied(src.key, g, f);
          }
        }
      }
    } else {
      var f, g :| f in roots && (g in roots || Resolvable(src, g)) && Tied(src.key, f, g) && f != g;
      var d: Dependency :| g in roots || Expanded(src, d) == Some(g);
      var all := LeastExists(src, _ => [[d]], roots);
      TiedRoot(src, roots, f, g, d, all);
    }
  }

  lemma NewestOfTied(src: Source, pub: Publisher, a: string, b: string, d: Dependency)
    requires a != b && src.key(a) == src.key(b) && src.pubs == [pub] && d.stem == "x" && d.version == None
    requires src.data == map[pub := map["x" := [JustVersion(a), JustVersion(b)]]]
    ensures Expanded(src, d) == Some(Fmri(pub, "x", b))
  {
    var l := [JustVersion(a), JustVersion(b)];
    var f, g := Fmri(pub, "x", a), Fmri(pub, "x", b);
    TiedListed(src, pub, a, b);
    TiedVersions(src.key, f, g);
    assert SortedVersions(src, "x") == l;
  }

  lemma TiedListed(src: Source, pub: Publisher, a: string, b: string)
    requires src.pubs == [pub] && src.data == map[pub := map["x" := [JustVersion(a), JustVersion(b)]]]
    ensures Listed(src, "x", 1) == [Fmri(pub, "x", a), Fmri(pub, "x", b)]
  {
    var l := [JustVersion(a), JustVersion(b)];
    assert l[..1] == [l[0]];
    assert OfPublisher(pub, "x", [l[0]]) == [Fmri(pub, "x", a)];
    assert OfPublisher(pub, "x", l) == [Fmri(pub, "x", a), Fmri(pub, "x", b)];
  }

  lemma TiedVersions(key: VersionKey, f: Fmri, g: Fmri)
    requires f.version != g.version && key(f.version) == key(g.version)
    ensures var l := [JustVersion(f.version), JustVersion(g.version)];
            Versions([f, g]) == l && StableSort(key, l) == l && WithVersion([f, g], g.version) == [g]
  {
    var l := [JustVersion(f.version), JustVersion(g.version)];
    assert [f, g][..1] == [f] && l[..1] == [l[0]];
    assert Versions([f]) == [l[0]];
    assert StableSort(key, [l[0]]) == [l[0]];
    assert WithVersion([f], g.version) == [];
  }

  /** Two versions that differ in the build release alone, say: asked for the first, whose only dependency is
      on the stem, the retrieval finds one of the two where the least closed set has both. */
  lemma TiedVersionsMissed(src: Source, pub: Publisher, a: string, b: string, d: Dependency, r: set<Fmri>)
    requires a != b && src.key(a) == src.key(b) && src.pubs == [pub] && d.stem == "x" && d.version == None
    requires src.data == map[pub := map["x" := [JustVersion(a), JustVersion(b)]]]
    requires Retrieved(src, _ => [[d]], [Fmri(pub, "x", a)], r)
    ensures |r| == 1
    ensures Least(src, _ => [[d]], [Fmri(pub, "x", a)], {Fmri(pub, "x", a), Fmri(pub, "x", b)})
  {
    var f, g := Fmri(pub, "x", a), Fmri(pub, "x", b);
    NewestOfTied(src, pub, a, b, d);
    var both := {f, g};
    forall t: set<Fmri>, h | g in t && h in t
      ensures DirectIn(src, _ => [[d]], h, t, false)
    {
      assert ResolvedIn(src, d, t, false);
    }
    forall t | HasRoots([f], t) && Closed(src, _ => [[d]], t)
      ensures both <= t
    {
      DirectInOne(src, _ => [[d]], f, 0, 0, t, false);
    }
    assert f in [f];
    assert HasRoots([f], both) && Closed(src, _ => [[d]], both);
    assert r <= both;
    var h :| h in r;
    assert r == {h} by {
      forall x | x in r
        ensures x == h
      {
        assert Tied(src.key, x, h);
      }
    }
  }
}
