/** One part of a catalog: the entries of every package version of one kind and locale. */
module CatalogParts {
  import opened NestedLists
  import opened VersionLists
  import opened Wrappers

  /** The parts a catalog is made of.  Base and dependency data have the locale "C". */
  datatype PartName = Base | Dependency | Summary(locale: string)

  function LocaleOf(name: PartName): string {
    if name.Summary? then name.locale else "C"
  }

  datatype CatalogError =
    | DuplicateCatalogEntry(fmri: Fmri)
    | UnknownCatalogEntry(fmri: Fmri)
    | UnrecognizedCatalogPart(part: PartName)
    | MissingPartFile(part: PartName)
    | BadCatalogUpdateIdentity
    | ObsoleteCatalogUpdate
    | BadCatalogSignatures(part: PartName)

  type Entries = Nested<Entry>

  // ----- Meaning of the stored data

  ghost function Packages(d: Entries): set<(Publisher, string)> {
    set p, s | p in d && s in d[p] :: (p, s)
  }

  /** One slot for every entry of every list. */
  ghost function Slots(d: Entries): set<(Publisher, string, int)> {
    set p, s, i | p in d && s in d[p] && 0 <= i < |d[p][s]| :: (p, s, i)
  }

  /** The package versions a part lists. */
  ghost function Fmris(d: Entries): set<Fmri> {
    set p, s, i | p in d && s in d[p] && 0 <= i < |d[p][s]| :: Fmri(p, s, d[p][s][i].version)
  }

  ghost predicate Contains(d: Entries, f: Fmri) {
    Has(ListAt(d, f.pub, f.stem), f.version)
  }

  /** The first entry of a version. */
  function EntryOf(l: seq<Entry>, version: string): Option<Entry> {
    if l == [] then None else if l[0].version == version then Some(l[0]) else EntryOf(l[1..], version)
  }

  lemma {:induction false} EntryOfFirst(l: seq<Entry>, i: nat, version: string)
    requires i <= |l| && (forall j :: 0 <= j < i ==> l[j].version != version) && (i < |l| ==> l[i].version == version)
    ensures EntryOf(l, version) == if i < |l| then Some(l[i]) else None
  {
    if 0 < i {
      EntryOfFirst(l[1..], i - 1, version);
    }
  }

  lemma {:induction false} EntryOfIs(l: seq<Entry>, version: string)
    ensures EntryOf(l, version).Some? <==> Has(l, version)
    ensures EntryOf(l, version).Some? ==> EntryOf(l, version).value in l && EntryOf(l, version).value.version == version
  {
    if l != [] && l[0].version != version {
      EntryOfIs(l[1..], version);
      if Has(l, version) {
        var i :| 0 <= i < |l| && l[i].version == version;
        assert l[1..][i - 1].version == version;
      }
    }
  }

  /** Two package versions that are equal as version objects: their strings may still differ, in the build
      release, which version comparison leaves out. */
  predicate Tied(key: VersionKey, f: Fmri, g: Fmri) {
    f.pub == g.pub && f.stem == g.stem && key(f.version) == key(g.version)
  }

  /** Whether a set of such objects has the given one. */
  predicate Member(key: VersionKey, f: Fmri, s: set<Fmri>) {
    exists g :: g in s && Tied(key, f, g)
  }

  /** No two different package versions of the set are equal as objects. */
  ghost predicate TieFree(key: VersionKey, s: set<Fmri>) {
    forall f, g :: f in s && g in s && Tied(key, f, g) ==> f == g
  }

  ghost predicate AllDistinct(d: Entries) {
    forall p: Publisher, s: string :: Distinct(ListAt(d, p, s))
  }

  ghost predicate AllSorted(key: VersionKey, d: Entries) {
    forall p: Publisher, s: string :: Sorted(key, ListAt(d, p, s))
  }

  function SortStemLists(key: VersionKey, m: map<string, seq<Entry>>): map<string, seq<Entry>> {
    map s | s in m :: StableSort(key, m[s])
  }

  /** Every list of the given publishers sorted. */
  function SortPubs(key: VersionKey, d: Entries, pubs: set<Publisher>): Entries {
    map p | p in d :: if p in pubs then SortStemLists(key, d[p]) else d[p]
  }

  ghost function StemsIn(fs: set<Fmri>): set<(Publisher, string)> {
    set f | f in fs :: (f.pub, f.stem)
  }

  function SortListsAt(key: VersionKey, m: map<string, seq<Entry>>, at: set<string>): map<string, seq<Entry>> {
    map s | s in m :: if s in at then StableSort(key, m[s]) else m[s]
  }

  ghost function StemsOf(at: set<(Publisher, string)>, p: Publisher): set<string> {
    set t | t in at && t.0 == p :: t.1
  }

  /** The lists of the given stems sorted. */
  ghost function SortAt(key: VersionKey, d: Entries, at: set<(Publisher, string)>): Entries {
    map p | p in d :: SortListsAt(key, d[p], StemsOf(at, p))
  }

  lemma SortAtNone(key: VersionKey, d: Entries)
    ensures SortAt(key, d, {}) == d
  {
    forall p | p in d
      ensures SortListsAt(key, d[p], StemsOf({}, p)) == d[p]
    {
      assert StemsOf({}, p) == {};
    }
  }

  lemma SortListsOneMore(key: VersionKey, m: map<string, seq<Entry>>, at: set<string>, stem: string)
    requires stem !in at
    ensures SortListsAt(key, m, at + {stem})
         == if stem in m then SortListsAt(key, m, at)[stem := StableSort(key, m[stem])] else SortListsAt(key, m, at)
  {
  }

  lemma SortAtOneMore(key: VersionKey, d: Entries, at: set<(Publisher, string)>, pub: Publisher, stem: string)
    requires (pub, stem) !in at
    ensures var e := SortAt(key, d, at);
            SortAt(key, d, at + {(pub, stem)})
            == if pub in e && stem in e[pub] then e[pub := e[pub][stem := StableSort(key, e[pub][stem])]] else e
  {
    forall p | p in d && p != pub
      ensures StemsOf(at + {(pub, stem)}, p) == StemsOf(at, p)
    {
    }
    if pub in d {
      assert stem !in StemsOf(at, pub);
      assert StemsOf(at + {(pub, stem)}, pub) == StemsOf(at, pub) + {stem};
      SortListsOneMore(key, d[pub], StemsOf(at, pub), stem);
    }
  }

  /** Every list sorted. */
  function SortAll(key: VersionKey, d: Entries): Entries {
    SortPubs(key, d, d.Keys)
  }

  lemma SortPubsLists(key: VersionKey, d: Entries, pubs: set<Publisher>)
    requires NoEmpty(d)
    ensures NoEmpty(SortPubs(key, d, pubs))
    ensures forall p: Publisher, s: string ::
              ListAt(SortPubs(key, d, pubs), p, s)
                == if p in pubs then StableSort(key, ListAt(d, p, s)) else ListAt(d, p, s)
  {
    var e := SortPubs(key, d, pubs);
    forall p | p in e
      ensures e[p] != map[] && forall s :: s in e[p] ==> e[p][s] != []
    {
      assert e[p].Keys == d[p].Keys;
      forall s | s in e[p] ensures e[p][s] != [] {
        StableSortCorrect(key, d[p][s]);
      }
    }
  }

  lemma SortAllLists(key: VersionKey, d: Entries)
    requires NoEmpty(d)
    ensures NoEmpty(SortAll(key, d))
    ensures forall p: Publisher, s: string :: ListAt(SortAll(key, d), p, s) == StableSort(key, ListAt(d, p, s))
    ensures AllSorted(key, SortAll(key, d))
  {
    SortPubsLists(key, d, d.Keys);
    forall p: Publisher, s: string
      ensures ListAt(SortAll(key, d), p, s) == StableSort(key, ListAt(d, p, s))
      ensures Sorted(key, ListAt(SortAll(key, d), p, s))
    {
      StableSortCorrect(key, ListAt(d, p, s));
    }
  }

  lemma SortedStays(key: VersionKey, d: Entries)
    requires NoEmpty(d) && AllSorted(key, d)
    ensures SortAll(key, d) == d
  {
    SortAllLists(key, d);
    forall p: Publisher, s: string
      ensures ListAt(SortAll(key, d), p, s) == ListAt(d, p, s)
    {
      SortOfSorted(key, ListAt(d, p, s));
    }
    Extensional(SortAll(key, d), d);
  }

  lemma FmrisContains(d: Entries, f: Fmri)
    ensures f in Fmris(d) <==> Contains(d, f)
  {
    var l := ListAt(d, f.pub, f.stem);
    if Contains(d, f) {
      var i :| 0 <= i < |l| && l[i].version == f.version;
      assert f.pub in d && f.stem in d[f.pub] && d[f.pub][f.stem][i].version == f.version;
    }
  }

  /** The number of entries is the number of package versions. */
  lemma SlotsAreFmris(d: Entries)
    requires AllDistinct(d)
    ensures |Slots(d)| == |Fmris(d)|
  {
    SlotCount(d, Slots(d));
    assert Fmris(d) == set t | t in Slots(d) :: FmriOf(d, t) by {
      forall f | f in Fmris(d)
        ensures f in (set t | t in Slots(d) :: FmriOf(d, t))
      {
        var p, s, i :| p in d && s in d[p] && 0 <= i < |d[p][s]| && f == Fmri(p, s, d[p][s][i].version);
        assert (p, s, i) in Slots(d) && FmriOf(d, (p, s, i)) == f;
      }
    }
  }

  ghost function FmriOf(d: Entries, t: (Publisher, string, int)): Fmri {
    var l := ListAt(d, t.0, t.1);
    Fmri(t.0, t.1, if 0 <= t.2 < |l| then l[t.2].version else "")
  }

  lemma {:induction false} SlotCount(d: Entries, ts: set<(Publisher, string, int)>)
    requires AllDistinct(d) && ts <= Slots(d)
    ensures |set t | t in ts :: FmriOf(d, t)| == |ts|
    decreases ts
  {
    if ts != {} {
      var t :| t in ts;
      var rest := ts - {t};
      SlotCount(d, rest);
      var a, b := set u | u in ts :: FmriOf(d, u), set u | u in rest :: FmriOf(d, u);
      assert a == b + {FmriOf(d, t)};
      if FmriOf(d, t) in b {
        var u :| u in rest && FmriOf(d, u) == FmriOf(d, t);
        FmriOfInjective(d, t, u);
      }
    }
  }

  lemma FmriOfInjective(d: Entries, t: (Publisher, string, int), u: (Publisher, string, int))
    requires AllDistinct(d) && t in Slots(d) && u in Slots(d)
    requires FmriOf(d, t) == FmriOf(d, u)
    ensures t == u
  {
    assert Distinct(ListAt(d, t.0, t.1));
  }

  // ----- The mutable part

  class CatalogPart {
    const name: PartName
    const key: VersionKey
    var data: Entries
    var ordered: bool
    var lastModified: int

    constructor (name: PartName, key: VersionKey, ordered: bool, data: Entries, lastModified: int)
      ensures this.name == name && this.key == key && this.ordered == ordered
      ensures this.data == data && this.lastModified == lastModified
    {
      this.name, this.key, this.ordered := name, key, ordered;
      this.data, this.lastModified := data, lastModified;
    }

    /** Add an entry for f; with checkDuplicate, a version string that is already listed is an error. */
    method Add(f: Fmri, metadata: Entry, opTime: int, checkDuplicate: bool := true)
      returns (r: Result<Entry, CatalogError>)
      requires NoEmpty(data)
      modifies this`data, this`lastModified
      ensures NoEmpty(data)
      ensures r.Err? <==> checkDuplicate && old(Contains(data, f))
      ensures r.Err? ==> r.error == DuplicateCatalogEntry(f) && data == old(data) && lastModified == old(lastModified)
      ensures r.Ok? ==> r.value == metadata.(version := f.version) && lastModified == opTime
      ensures r.Ok? ==>
                var l := old(ListAt(data, f.pub, f.stem)) + [r.value];
                data == Put(old(data), f.pub, f.stem, if ordered then StableSort(key, l) else l)
    {
      var pkgList := Stems(data, f.pub);
      var verList := if f.stem in pkgList then pkgList[f.stem] else [];
      assert verList == ListAt(data, f.pub, f.stem);
      if checkDuplicate {
        var i := FindVersion(verList, f.version);
        if i < |verList| {
          return Err(DuplicateCatalogEntry(f));
        }
      }
      var entry := metadata.(version := f.version);
      verList := verList + [entry];
      PutNoEmpty(data, f.pub, f.stem, verList);
      data := data[f.pub := pkgList[f.stem := verList]];
      if ordered {
        SortStems({f});
        SortedPut(key, old(data), f, verList);
        PutNoEmpty(old(data), f.pub, f.stem, StableSort(key, verList));
      }
      lastModified := opTime;
      r := Ok(entry);
    }

    method Remove(f: Fmri, opTime: int) returns (r: Result<(), CatalogError>)
      requires NoEmpty(data)
      modifies this`data, this`lastModified
      ensures NoEmpty(data)
      ensures r.Ok? <==> old(Contains(data, f))
      ensures r.Err? ==> r.error == UnknownCatalogEntry(f) && data == old(data) && lastModified == old(lastModified)
      ensures r.Ok? ==>
                && data == Put(old(data), f.pub, f.stem, Delete(old(ListAt(data, f.pub, f.stem)), f.version))
                && lastModified == opTime
    {
      var pkgList := Stems(data, f.pub);
      var verList := if f.stem in pkgList then pkgList[f.stem] else [];
      assert verList == ListAt(data, f.pub, f.stem);
      var i := FindVersion(verList, f.version);
      if i == |verList| {
        return Err(UnknownCatalogEntry(f));
      }
      DeleteIsFirst(verList, i, f.version);
      verList := verList[..i] + verList[i + 1..];
      PutNoEmpty(data, f.pub, f.stem, verList);
      pkgList := pkgList[f.stem := verList];
      if verList == [] {
        pkgList := pkgList - {f.stem};
      }
      data := data[f.pub := pkgList];
      if pkgList == map[] {
        data := data - {f.pub};
      }
      RemoveIsPut(old(data), f.pub, f.stem, verList);
      lastModified := opTime;
      r := Ok(());
    }

    method GetEntry(f: Fmri) returns (r: Option<Entry>)
      ensures r == EntryOf(ListAt(data, f.pub, f.stem), f.version)
      ensures r.Some? <==> Contains(data, f)
      ensures r.Some? ==> r.value in ListAt(data, f.pub, f.stem) && r.value.version == f.version
    {
      if f.pub !in data {
        return None;
      }
      var verList := ListAt(data, f.pub, f.stem);
      var i := FindVersion(verList, f.version);
      EntryOfFirst(verList, i, f.version);
      r := if i < |verList| then Some(verList[i]) else None;
    }

    /** Sort the lists of the given package versions' stems or, without them, of the given
        publishers (all of them when the set is empty). */
    method Sort(pfmris: Option<set<Fmri>>, pubs: set<Publisher>)
      modifies this`data
      ensures pfmris.Some? ==> data == SortAt(key, old(data), StemsIn(pfmris.value))
      ensures pfmris.None? ==> data == SortPubs(key, old(data), if pubs == {} then old(data).Keys else pubs)
    {
      if pfmris.Some? {
        SortStems(pfmris.value);
      } else {
        SortPublishers(pubs);
      }
    }

    method SortStems(pfmris: set<Fmri>)
      modifies this`data
      ensures data == SortAt(key, old(data), StemsIn(pfmris))
    {
      var todo := pfmris;
      var processed: set<(Publisher, string)> := {};
      ghost var was := data;
      SortAtNone(key, was);
      while todo != {}
        invariant todo <= pfmris
        invariant processed == StemsIn(pfmris - todo)
        invariant data == SortAt(key, was, processed)
        decreases todo
      {
        var f :| f in todo;
        assert StemsIn(pfmris - (todo - {f})) == processed + {(f.pub, f.stem)};
        todo := todo - {f};
        if (f.pub, f.stem) in processed {
          continue;
        }
        SortAtOneMore(key, was, processed, f.pub, f.stem);
        processed := processed + {(f.pub, f.stem)};
        if f.pub in data && f.stem in data[f.pub] {
          data := data[f.pub := data[f.pub][f.stem := StableSort(key, data[f.pub][f.stem])]];
        }
      }
      assert pfmris - todo == pfmris;
    }

    method SortPublishers(pubs: set<Publisher>)
      modifies this`data
      ensures data == SortPubs(key, old(data), if pubs == {} then old(data).Keys else pubs)
    {
      var todo := if pubs == {} then data.Keys else data.Keys * pubs;
      ghost var was, done := data, {};
      while todo != {}
        invariant done + todo == if pubs == {} then was.Keys else was.Keys * pubs
        invariant done !! todo
        invariant data == SortPubs(key, was, done)
        decreases todo
      {
        var pub :| pub in todo;
        SortPublisher(pub);
        todo, done := todo - {pub}, done + {pub};
      }
    }

    method SortPublisher(pub: Publisher)
      requires pub in data
      modifies this`data
      ensures data == old(data)[pub := SortStemLists(key, old(data)[pub])]
    {
      var todo := data[pub].Keys;
      ghost var was, done := data, {};
      while todo != {}
        invariant pub in data && done !! todo && done + todo == was[pub].Keys == data[pub].Keys
        invariant data == was[pub := data[pub]]
        invariant forall s :: s in todo ==> data[pub][s] == was[pub][s]
        invariant forall s :: s in done ==> data[pub][s] == StableSort(key, was[pub][s])
        decreases todo
      {
        var stem :| stem in todo;
        todo, done := todo - {stem}, done + {stem};
        data := data[pub := data[pub][stem := StableSort(key, data[pub][stem])]];
      }
      assert data[pub] == SortStemLists(key, was[pub]);
    }

    /** The number of packages and of package versions. */
    method GetPackageCounts() returns (packageCount: nat, packageVersionCount: nat)
      ensures packageCount == |Packages(data)|
      ensures packageVersionCount == |Slots(data)|
    {
      packageCount, packageVersionCount := 0, 0;
      var todo := data.Keys;
      ghost var done: set<Publisher> := {};
      while todo != {}
        invariant done !! todo && done + todo == data.Keys
        invariant packageCount == |PackagesOf(data, done)|
        invariant packageVersionCount == |SlotsOf(data, done)|
        decreases todo
      {
        var pub :| pub in todo;
        var n, m := CountStems(pub);
        packageCount := packageCount + n;
        packageVersionCount := packageVersionCount + m;
        AddPublisher(data, done, pub);
        todo, done := todo - {pub}, done + {pub};
      }
      assert PackagesOf(data, done) == Packages(data) && SlotsOf(data, done) == Slots(data);
    }

    method CountStems(pub: Publisher) returns (n: nat, m: nat)
      requires pub in data
      ensures n == |PackagesOf(data, {pub})|
      ensures m == |SlotsOf(data, {pub})|
    {
      n, m := 0, 0;
      var todo := data[pub].Keys;
      ghost var done: set<string> := {};
      while todo != {}
        invariant done !! todo && done + todo == data[pub].Keys
        invariant n == |set s | s in done :: (pub, s)|
        invariant m == |set s, i | s in done && 0 <= i < |ListAt(data, pub, s)| :: (pub, s, i)|
        decreases todo
      {
        var stem :| stem in todo;
        n := n + 1;
        m := m + |data[pub][stem]|;
        AddStem(data, done, pub, stem);
        todo, done := todo - {stem}, done + {stem};
      }
      assert PackagesOf(data, {pub}) == set s | s in done :: (pub, s);
      assert SlotsOf(data, {pub}) == set s, i | s in done && 0 <= i < |ListAt(data, pub, s)| :: (pub, s, i);
    }
  }

  ghost function PackagesOf(d: Entries, pubs: set<Publisher>): set<(Publisher, string)> {
    set p, s | p in d && s in d[p] && p in pubs :: (p, s)
  }

  ghost function SlotsOf(d: Entries, pubs: set<Publisher>): set<(Publisher, string, int)> {
    set p, s, i | p in d && s in d[p] && 0 <= i < |d[p][s]| && p in pubs :: (p, s, i)
  }

  lemma AddPublisher(d: Entries, pubs: set<Publisher>, pub: Publisher)
    requires pub in d && pub !in pubs
    ensures |PackagesOf(d, pubs + {pub})| == |PackagesOf(d, pubs)| + |PackagesOf(d, {pub})|
    ensures |SlotsOf(d, pubs + {pub})| == |SlotsOf(d, pubs)| + |SlotsOf(d, {pub})|
  {
    assert PackagesOf(d, pubs + {pub}) == PackagesOf(d, pubs) + PackagesOf(d, {pub});
    assert PackagesOf(d, pubs) !! PackagesOf(d, {pub});
    assert SlotsOf(d, pubs + {pub}) == SlotsOf(d, pubs) + SlotsOf(d, {pub});
    assert SlotsOf(d, pubs) !! SlotsOf(d, {pub});
  }

  lemma AddStem(d: Entries, stems: set<string>, pub: Publisher, stem: string)
    requires stem !in stems
    ensures |set s | s in stems + {stem} :: (pub, s)| == |set s | s in stems :: (pub, s)| + 1
    ensures |set s, i | s in stems + {stem} && 0 <= i < |ListAt(d, pub, s)| :: (pub, s, i)|
         == |set s, i | s in stems && 0 <= i < |ListAt(d, pub, s)| :: (pub, s, i)| + |ListAt(d, pub, stem)|
  {
    AddStemName(stems, pub, stem);
    AddStemSlots(d, stems, pub, stem);
  }

  lemma AddStemName(stems: set<string>, pub: Publisher, stem: string)
    requires stem !in stems
    ensures |set s | s in stems + {stem} :: (pub, s)| == |set s | s in stems :: (pub, s)| + 1
  {
    var a := set s | s in stems + {stem} :: (pub, s);
    var b := set s | s in stems :: (pub, s);
    assert a == b + {(pub, stem)};
  }

  lemma AddStemSlots(d: Entries, stems: set<string>, pub: Publisher, stem: string)
    requires stem !in stems
    ensures |set s, i | s in stems + {stem} && 0 <= i < |ListAt(d, pub, s)| :: (pub, s, i)|
         == |set s, i | s in stems && 0 <= i < |ListAt(d, pub, s)| :: (pub, s, i)| + |ListAt(d, pub, stem)|
  {
    var x := set s, i | s in stems + {stem} && 0 <= i < |ListAt(d, pub, s)| :: (pub, s, i);
    var y := set s, i | s in stems && 0 <= i < |ListAt(d, pub, s)| :: (pub, s, i);
    var z := set i | 0 <= i < |ListAt(d, pub, stem)| :: (pub, stem, i);
    RangeCount(pub, stem, |ListAt(d, pub, stem)|);
    assert y !! z;
    assert x == y + z by {
      forall t | t in x
        ensures t in y + z
      {
        assert t.1 in stems || t == (pub, stem, t.2);
      }
    }
  }

  /** The position of the first entry with the given version, or the length of the list. */
  method FindVersion(verList: seq<Entry>, version: string) returns (i: nat)
    ensures i <= |verList|
    ensures i < |verList| <==> Has(verList, version)
    ensures i < |verList| ==> verList[i].version == version
    ensures forall j :: 0 <= j < i ==> verList[j].version != version
  {
    i := 0;
    while i < |verList|
      invariant i <= |verList|
      invariant forall j :: 0 <= j < i ==> verList[j].version != version
    {
      if verList[i].version == version {
        return;
      }
      i := i + 1;
    }
  }

  lemma SortedPut(key: VersionKey, d: Entries, f: Fmri, l: seq<Entry>)
    requires l != []
    ensures SortAt(key, Put(d, f.pub, f.stem, l), StemsIn({f})) == Put(d, f.pub, f.stem, StableSort(key, l))
  {
    StableSortCorrect(key, l);
    var e := Put(d, f.pub, f.stem, l);
    SortAtNone(key, e);
    SortAtOneMore(key, e, {}, f.pub, f.stem);
    assert StemsIn({f}) == {} + {(f.pub, f.stem)};
    assert e[f.pub][f.stem := StableSort(key, l)] == Stems(d, f.pub)[f.stem := StableSort(key, l)];
  }

  lemma RemoveIsPut(d: Entries, pub: Publisher, stem: string, l: seq<Entry>)
    requires NoEmpty(d) && stem in Stems(d, pub)
    ensures Put(d, pub, stem, l)
         == var m := if l == [] then Stems(d, pub)[stem := l] - {stem} else Stems(d, pub)[stem := l];
            if m == map[] then d[pub := m] - {pub} else d[pub := m]
  {
    assert Stems(d, pub)[stem := l] - {stem} == Stems(d, pub) - {stem};
    assert d[pub := map[]] - {pub} == d - {pub};
    assert stem in Stems(d, pub)[stem := l];
  }

  lemma DeleteIsFirst(s: seq<Entry>, i: nat, version: string)
    requires i < |s| && s[i].version == version
    requires forall j :: 0 <= j < i ==> s[j].version != version
    ensures Delete(s, version) == s[..i] + s[i + 1..]
  {
    if i > 0 {
      DeleteIsFirst(s[1..], i - 1, version);
    }
  }

  lemma {:induction false} RangeCount(pub: Publisher, stem: string, n: nat)
    ensures |set i | 0 <= i < n :: (pub, stem, i)| == n
  {
    if n > 0 {
      RangeCount(pub, stem, n - 1);
      var a := set i | 0 <= i < n :: (pub, stem, i);
      var b := set i | 0 <= i < n - 1 :: (pub, stem, i);
      assert a == b + {(pub, stem, n - 1)};
    }
  }
}
