/** What the single steps of catalog operations add up to: entries made part by part, logs written
    locale by locale, parts sorted one by one. */
module CatalogSteps {
  import opened Actions
  import opened CatalogParts
  import opened CatalogUpdates
  import opened History
  import opened NestedLists
  import opened Protocol
  import opened VersionLists
  import opened Wrappers

  // ----- What a package is stored as

  function SummaryNames(actions: seq<Action>): set<PartName> {
    set a | a in actions && ToSummary(a, SummaryLocaleOf(a)) :: Summary(SummaryLocaleOf(a))
  }

  function SummaryLocaleOf(a: Action): string {
    if a.Set? then SummaryLocale(a.name) else ""
  }

  function TargetNames(m: Option<Manifest>): set<PartName> {
    if m.None? then {Base}
    else
      {Base} + (if Where(CatalogActions(m.value), ToDependency) != [] then {Dependency} else {})
      + SummaryNames(CatalogActions(m.value))
  }

  function TargetEntry(f: Fmri, m: Option<Manifest>, metadata: map<string, string>, n: PartName): Entry {
    match n
    case Base => Entry(f.version, metadata, if m.Some? then m.value.signatures else map[], [])
    case Dependency => Entry(f.version, map[], map[],
                             if m.Some? then Where(CatalogActions(m.value), ToDependency) else [])
    case Summary(l) => Entry(f.version, map[], map[],
                             if m.Some? then Where(CatalogActions(m.value), ForLocale(l)) else [])
  }

  /** The entry add_package makes for each part. */
  function Targets(f: Fmri, m: Option<Manifest>, metadata: map<string, string>): map<PartName, Entry> {
    map n | n in TargetNames(m) :: TargetEntry(f, m, metadata, n)
  }

  /** The parts in memory give their times to the attributes; their signatures are gone until the
      next save. */
  function Refreshed(aparts: map<PartName, PartAttr>, loaded: PartFiles): map<PartName, PartAttr> {
    map n | n in aparts :: if n in loaded then PartAttr(loaded[n].lastModified, None) else aparts[n]
  }

  /** The attributes after an operation, given the parts in memory and all parts. */
  ghost function Recorded(a: Attrs, batch: bool, logs: bool, op: Op, loaded: PartFiles, ps: PartFiles): Attrs {
    var b := (if batch then a else Counted(a, ps)).(lastModified := op.time);
    if logs then Stamped(b, op.time, Locales(op.parts)).(parts := Refreshed(b.parts, loaded)) else b
  }

  ghost function Counted(a: Attrs, ps: PartFiles): Attrs {
    a.(packageCount := |Packages(DataOf(ps, Base))|, versionCount := |Slots(DataOf(ps, Base))|)
  }

  lemma MergeUpdate<K, V>(m: map<K, V>, l: map<K, V>, k: K, v: V)
    ensures m + l[k := v] == (m + l)[k := v]
  {
  }

  lemma StampNone<K>(times: map<K, int>, t: int)
    ensures Stamp(times, {}, t) == times
  {
  }

  lemma SortInMerge(key: VersionKey, files: PartFiles, loaded: PartFiles)
    ensures files + SortIn(key, loaded, loaded.Keys) == SortIn(key, files + loaded, loaded.Keys)
  {
  }

  datatype Target = Target(name: PartName, entry: Entry)

  ghost predicate CanAdd(ps: PartFiles, f: Fmri, n: PartName) {
    WellFormed(n) && !Contains(DataOf(ps, n), f)
  }

  /** The first k entries can be made. */
  ghost predicate CanAddFirst(ps: PartFiles, f: Fmri, ts: seq<Target>, k: nat) {
    forall i :: 0 <= i < k && i < |ts| ==> CanAdd(ps, f, ts[i].name)
  }

  /** Why an entry cannot be made. */
  function Refusal(f: Fmri, n: PartName): CatalogError {
    if WellFormed(n) then DuplicateCatalogEntry(f) else UnrecognizedCatalogPart(n)
  }

  lemma CanAddNext(ps: PartFiles, f: Fmri, ts: seq<Target>, k: nat)
    requires k < |ts| && CanAddFirst(ps, f, ts, k) && CanAdd(ps, f, ts[k].name)
    ensures CanAddFirst(ps, f, ts, k + 1)
  {
  }

  ghost predicate GoodTargets(f: Fmri, ts: seq<Target>) {
    && (forall i :: 0 <= i < |ts| ==> ts[i].entry.version == f.version)
    && (forall i, j :: 0 <= i < j < |ts| ==> ts[i].name != ts[j].name)
  }

  ghost function MapOf(ts: seq<Target>): map<PartName, Entry> {
    if ts == [] then map[] else MapOf(ts[..|ts| - 1])[ts[|ts| - 1].name := ts[|ts| - 1].entry]
  }

  ghost predicate Names(ts: seq<Target>, n: PartName) {
    exists i :: 0 <= i < |ts| && ts[i].name == n
  }

  lemma {:induction false} MapOfNames(ts: seq<Target>, n: PartName)
    ensures n in MapOf(ts) <==> Names(ts, n)
  {
    if ts != [] {
      var init := ts[..|ts| - 1];
      MapOfNames(init, n);
      if Names(init, n) {
        var i :| 0 <= i < |init| && init[i].name == n;
        assert ts[i].name == n;
      } else if Names(ts, n) {
        var i :| 0 <= i < |ts| && ts[i].name == n;
        assert i == |init|;
      }
      assert ts[|ts| - 1].name == n ==> Names(ts, n);
    }
  }

  lemma MapOfNext(f: Fmri, ts: seq<Target>, i: nat)
    requires GoodTargets(f, ts) && i < |ts|
    ensures MapOf(ts[..i + 1]) == MapOf(ts[..i])[ts[i].name := ts[i].entry]
    ensures ts[i].name !in MapOf(ts[..i])
  {
    assert ts[..i + 1][..i] == ts[..i];
    MapOfNames(ts[..i], ts[i].name);
  }

  /** Of the entries to be made, the first ones. */
  lemma FirstTargets(ps: PartFiles, f: Fmri, ts: seq<Target>, k: nat)
    requires GoodTargets(f, ts) && k <= |ts| && CanAddFirst(ps, f, ts, k)
    ensures forall n :: n in MapOf(ts[..k]) ==> CanAdd(ps, f, n)
    ensures k < |ts| ==> ts[k].name in MapOf(ts) && MapOf(ts[..k]).Keys < MapOf(ts).Keys
    ensures 0 < k ==> ts[0].name in MapOf(ts[..k])
    ensures forall i :: 0 <= i < |ts| ==> ts[i].name in MapOf(ts)
  {
    forall n | n in MapOf(ts[..k])
      ensures CanAdd(ps, f, n) && n in MapOf(ts)
    {
      MapOfNames(ts[..k], n);
      var i :| 0 <= i < k && ts[..k][i].name == n;
      assert ts[i].name == n;
      MapOfNames(ts, n);
    }
    forall i | 0 <= i < |ts|
      ensures ts[i].name in MapOf(ts)
    {
      MapOfNames(ts, ts[i].name);
    }
    if k < |ts| {
      MapOfNext(f, ts, k);
    }
    if 0 < k {
      assert ts[..k][0].name == ts[0].name;
      MapOfNames(ts[..k], ts[0].name);
    }
  }

  /** What comes of making the entries for a package: all of them, or those before the first that cannot be
      made; the entry of the base part comes first. */
  ghost predicate Entered(ps: PartFiles, f: Fmri, m: Option<Manifest>, metadata: map<string, string>,
                          failure: Option<CatalogError>, made: map<PartName, Entry>)
  {
    var targets := Targets(f, m, metadata);
    && (failure.None? <==> forall n :: n in targets ==> CanAdd(ps, f, n))
    && (failure.None? ==> made == targets)
    && (failure.Some? ==>
        (exists n :: n in targets && !CanAdd(ps, f, n) && failure.value == Refusal(f, n)) && made.Keys < targets.Keys)
    && (forall n :: n in made ==> CanAdd(ps, f, n) && made[n].version == f.version)
    && (made == map[] || Base in made)
    && (failure.Some? ==> (made == map[] <==> Contains(DataOf(ps, Base), f)))
  }

  lemma {:induction false} MapOfVersions(f: Fmri, ts: seq<Target>)
    requires forall i :: 0 <= i < |ts| ==> ts[i].entry.version == f.version
    ensures forall n :: n in MapOf(ts) ==> MapOf(ts)[n].version == f.version
  {
    if ts != [] {
      MapOfVersions(f, ts[..|ts| - 1]);
    }
  }

  lemma TargetsEntered(ps: PartFiles, f: Fmri, m: Option<Manifest>, metadata: map<string, string>, ts: seq<Target>,
                       k: nat, failure: Option<CatalogError>)
    requires GoodTargets(f, ts) && |ts| > 0 && ts[0].name == Base && MapOf(ts) == Targets(f, m, metadata)
    requires k <= |ts| && CanAddFirst(ps, f, ts, k)
    requires failure.None? ==> k == |ts|
    requires failure.Some? ==> k < |ts| && !CanAdd(ps, f, ts[k].name) && failure.value == Refusal(f, ts[k].name)
    ensures Entered(ps, f, m, metadata, failure, MapOf(ts[..k]))
  {
    FirstTargets(ps, f, ts, k);
    MapOfVersions(f, ts[..k]);
    if k == 0 {
      assert MapOf(ts[..0]) == map[];
    } else if k == |ts| {
      assert ts[..k] == ts;
    }
  }

  // ----- What is stored of a package

  /** The entry of the package in one part. */
  function EntryIn(ps: PartFiles, n: PartName, f: Fmri): Option<Entry> {
    EntryOf(ListAt(DataOf(ps, n), f.pub, f.stem), f.version)
  }

  /** The actions of the package's entry in one part, none where it has no entry. */
  function StoredActions(ps: PartFiles, n: PartName, f: Fmri): seq<Action> {
    match EntryIn(ps, n, f)
    case Some(e) => e.actions
    case None => []
  }

  function SummaryLocales(ps: PartFiles): set<string> {
    {"C"} + set n | n in ps && n.Summary? :: n.locale
  }

  function StoredSummaries(ps: PartFiles, f: Fmri): map<string, seq<Action>> {
    map l | l in SummaryLocales(ps) :: StoredActions(ps, Summary(l), f)
  }

  /** The base entry has the metadata and the manifest's signatures, and the entries of the other parts
      have the manifest's actions, each in the part it belongs to. */
  ghost predicate HoldsPackage(ps: PartFiles, f: Fmri, m: Option<Manifest>, metadata: map<string, string>) {
    var e := EntryIn(ps, Base, f);
    && e.Some? && e.value.metadata == metadata && e.value.actions == []
    && e.value.signatures == (if m.Some? then m.value.signatures else map[])
    && Grouped(if m.Some? then CatalogActions(m.value) else [], StoredActions(ps, Dependency, f),
               StoredSummaries(ps, f))
  }

  ghost predicate Unlisted(ps: PartFiles, f: Fmri) {
    forall n :: !Contains(DataOf(ps, n), f)
  }

  /** A package that was not listed is held now. */
  ghost predicate NewlyHolds(was: PartFiles, ps: PartFiles, f: Fmri, m: Option<Manifest>, metadata: map<string, string>)
  {
    Unlisted(was, f) ==> HoldsPackage(ps, f, m, metadata)
  }

  lemma EntryOfAdded(key: VersionKey, ordered: bool, l: seq<Entry>, e: Entry)
    requires !Has(l, e.version)
    ensures EntryOf(Changed(key, ordered, Add, l, e), e.version) == Some(e)
  {
    var l' := Changed(key, ordered, Add, l, e);
    if ordered {
      StableSortCorrect(key, l + [e]);
    }
    assert multiset(l') == multiset(l + [e]);
    assert (l + [e])[|l|] in multiset(l');
    assert e in l';
    var i :| 0 <= i < |l'| && l'[i] == e;
    EntryOfIs(l', e.version);
    var x := EntryOf(l', e.version).value;
    assert x in multiset(l + [e]);
    assert x in l ==> Has(l, e.version);
  }

  lemma EntryAfterTouch(key: VersionKey, ordered: bool, was: PartFiles, op: Op, n: PartName)
    requires op.kind.Add? && Unlisted(was, op.fmri) && forall k :: k in was ==> NoEmpty(was[k].data)
    requires n in op.parts ==> op.parts[n].version == op.fmri.version
    ensures EntryIn(Touch(key, ordered, was, op), n, op.fmri) == if n in op.parts then Some(op.parts[n]) else None
  {
    var f, d := op.fmri, DataOf(was, n);
    assert !Contains(d, f);
    if n in op.parts {
      var l := Changed(key, ordered, op.kind, ListAt(d, f.pub, f.stem), op.parts[n]);
      PutListAt(d, f.pub, f.stem, l);
      EntryOfAdded(key, ordered, ListAt(d, f.pub, f.stem), op.parts[n]);
    } else {
      assert DataOf(Touch(key, ordered, was, op), n) == d;
      EntryOfIs(ListAt(d, f.pub, f.stem), f.version);
    }
  }

  /** The other parts have the actions of the targets. */
  lemma TargetActions(f: Fmri, m: Option<Manifest>, metadata: map<string, string>, n: PartName)
    requires n != Base
    ensures var targets, actions := Targets(f, m, metadata), if m.Some? then CatalogActions(m.value) else [];
            (if n in targets then targets[n].actions else [])
            == Where(actions, if n.Summary? then ForLocale(n.locale) else ToDependency)
  {
    var actions := if m.Some? then CatalogActions(m.value) else [];
    if n.Summary? {
      SummaryNamed(actions, n.locale);
    }
  }

  lemma SummariesGroup(actions: seq<Action>, ps: PartFiles, f: Fmri)
    requires forall l :: StoredActions(ps, Summary(l), f) == Where(actions, ForLocale(l))
    requires StoredActions(ps, Dependency, f) == Where(actions, ToDependency)
    ensures Grouped(actions, StoredActions(ps, Dependency, f), StoredSummaries(ps, f))
  {
    forall a, l | a in actions && ToSummary(a, l)
      ensures l in SummaryLocales(ps)
    {
      WhereMembers(actions, ForLocale(l));
      assert a in Where(actions, ForLocale(l));
      assert StoredActions(ps, Summary(l), f) != [];
      assert Summary(l) in ps;
    }
  }

  lemma TargetsHeld(ps: PartFiles, f: Fmri, m: Option<Manifest>, metadata: map<string, string>)
    requires forall n ::
               EntryIn(ps, n, f) == if n in Targets(f, m, metadata) then Some(Targets(f, m, metadata)[n]) else None
    ensures HoldsPackage(ps, f, m, metadata)
  {
    var actions := if m.Some? then CatalogActions(m.value) else [];
    forall l
      ensures StoredActions(ps, Summary(l), f) == Where(actions, ForLocale(l))
    {
      TargetActions(f, m, metadata, Summary(l));
    }
    TargetActions(f, m, metadata, Dependency);
    SummariesGroup(actions, ps, f);
  }

  lemma EntriesAfterTouch(key: VersionKey, ordered: bool, was: PartFiles, op: Op)
    requires op.kind.Add? && Unlisted(was, op.fmri) && forall k :: k in was ==> NoEmpty(was[k].data)
    requires forall n :: n in op.parts ==> op.parts[n].version == op.fmri.version
    ensures forall n ::
              EntryIn(Touch(key, ordered, was, op), n, op.fmri) == if n in op.parts then Some(op.parts[n]) else None
  {
    forall n
      ensures EntryIn(Touch(key, ordered, was, op), n, op.fmri) == if n in op.parts then Some(op.parts[n]) else None
    {
      EntryAfterTouch(key, ordered, was, op, n);
    }
  }

  /** A package that is entered, and was not listed before, is held as its manifest says. */
  lemma EnteredHolds(key: VersionKey, ordered: bool, was: PartFiles, f: Fmri, m: Option<Manifest>,
                     metadata: map<string, string>, op: Op)
    requires op.kind.Add? && op.fmri == f && forall k :: k in was ==> NoEmpty(was[k].data)
    requires op.parts == Targets(f, m, metadata)
    ensures NewlyHolds(was, Touch(key, ordered, was, op), f, m, metadata)
  {
    if Unlisted(was, f) {
      EntriesAfterTouch(key, ordered, was, op);
      TargetsHeld(Touch(key, ordered, was, op), f, m, metadata);
    }
  }

  /** The attributes once all the named parts are known. */
  function KnownAll(a: Attrs, names: set<PartName>, now: int): Attrs {
    a.(parts := map n | n in a.parts.Keys + names :: if n in a.parts then a.parts[n] else PartAttr(now, None))
  }

  lemma KnownOneMore(a: Attrs, names: set<PartName>, n: PartName, now: int)
    ensures Known(KnownAll(a, names, now), n, now) == KnownAll(a, names + {n}, now)
  {
  }

  lemma KnownNone(a: Attrs, now: int)
    ensures KnownAll(a, {}, now) == a
  {
    assert KnownAll(a, {}, now).parts == a.parts;
  }

  /** The files that an operation writes. */
  function Written(key: VersionKey, ordered: bool, ps: PartFiles, op: Op): PartFiles {
    map n | n in op.parts :: PartFile(Edit(key, ordered, op.kind, DataOf(ps, n), op.fmri, op.parts[n]), op.time)
  }

  lemma TouchIsMerge(key: VersionKey, ordered: bool, ps: PartFiles, op: Op)
    ensures Touch(key, ordered, ps, op) == ps + Written(key, ordered, ps, op)
  {
  }

  lemma WrittenOneMore(key: VersionKey, ordered: bool, ps: PartFiles, op: Op, n: PartName, e: Entry)
    requires n !in op.parts
    ensures Written(key, ordered, ps, op.(parts := op.parts[n := e]))
         == Written(key, ordered, ps, op)
              [n := PartFile(Edit(key, ordered, op.kind, DataOf(ps, n), op.fmri, e), op.time)]
  {
  }

  lemma TouchOneMore(key: VersionKey, ordered: bool, ps: PartFiles, op: Op, n: PartName, e: Entry)
    requires n !in op.parts
    ensures DataOf(Touch(key, ordered, ps, op), n) == DataOf(ps, n)
    ensures Touch(key, ordered, ps, op)[n := PartFile(Edit(key, ordered, op.kind, DataOf(ps, n), op.fmri, e), op.time)]
         == Touch(key, ordered, ps, op.(parts := op.parts[n := e]))
  {
    WrittenOneMore(key, ordered, ps, op, n, e);
    TouchIsMerge(key, ordered, ps, op);
    TouchIsMerge(key, ordered, ps, op.(parts := op.parts[n := e]));
    MergeUpdate(ps, Written(key, ordered, ps, op), n,
                PartFile(Edit(key, ordered, op.kind, DataOf(ps, n), op.fmri, e), op.time));
  }

  /** From these parts and attributes, the operation's entries made so far lead to those. */
  ghost predicate MadeFrom(key: VersionKey, ordered: bool, op: Op, was: PartFiles, wasAttrs: Attrs, ps: PartFiles,
                           a: Attrs)
  {
    && ps == Touch(key, ordered, was, op)
    && a == KnownAll(wasAttrs, op.parts.Keys, op.time)
  }

  lemma MadeNext(key: VersionKey, ordered: bool, op: Op, was: PartFiles, wasAttrs: Attrs, ps: PartFiles, a: Attrs,
                 n: PartName, e: Entry)
    requires MadeFrom(key, ordered, op, was, wasAttrs, ps, a) && n !in op.parts
    ensures DataOf(ps, n) == DataOf(was, n)
    ensures MadeFrom(key, ordered, op.(parts := op.parts[n := e]), was, wasAttrs,
                     ps[n := PartFile(Edit(key, ordered, op.kind, DataOf(ps, n), op.fmri, e), op.time)],
                     Known(a, n, op.time))
  {
    TouchOneMore(key, ordered, was, op, n, e);
    KnownOneMore(wasAttrs, op.parts.Keys, n, op.time);
    assert op.parts[n := e].Keys == op.parts.Keys + {n};
  }

  lemma TouchNone(key: VersionKey, ordered: bool, ps: PartFiles, op: Op)
    requires op.parts == map[]
    ensures Touch(key, ordered, ps, op) == ps
  {
  }

  /** The named parts sorted. */
  function SortIn(key: VersionKey, ps: PartFiles, names: set<PartName>): PartFiles {
    map n | n in ps :: if n in names then PartFile(SortAll(key, ps[n].data), ps[n].lastModified) else ps[n]
  }

  lemma SortOneMore(key: VersionKey, ps: PartFiles, names: set<PartName>, n: PartName)
    requires n in ps && n !in names
    ensures var qs := SortIn(key, ps, names);
            qs[n := PartFile(SortAll(key, qs[n].data), qs[n].lastModified)] == SortIn(key, ps, names + {n})
  {
  }

  lemma LogOneMore(ls: LogFiles, op: Op, names: set<LogName>, n: LogName)
    requires n !in names
    ensures var ms := LogIn(ls, op, names);
            ms[n := LogFile(Append(LogDataOf(ms, n), op, n.locale), op.time)] == LogIn(ls, op, names + {n})
  {
    var ms := LogIn(ls, op, names);
    assert LogDataOf(ms, n) == LogDataOf(ls, n);
    assert ls.Keys + (names + {n}) == ms.Keys + {n};
  }

  /** The attributes after an operation was logged for some locales. */
  function Stamped(a: Attrs, time: int, locales: set<string>): Attrs {
    a.(updates := Stamp(a.updates, LogNamesOf(time, locales), time))
  }

  lemma NamesOneMore(time: int, locales: set<string>, l: string)
    requires l !in locales
    ensures LogNamesOf(time, locales + {l}) == LogNamesOf(time, locales) + {LogName(Hour(time), l)}
    ensures LogName(Hour(time), l) !in LogNamesOf(time, locales)
  {
  }

  lemma LocaleOneMore(ls: LogFiles, a: Attrs, op: Op, locales: set<string>, l: string)
    requires l !in locales
    ensures var n, ms := LogName(Hour(op.time), l), LogIn(ls, op, LogNamesOf(op.time, locales));
            ms[n := LogFile(Append(LogDataOf(ms, n), op, n.locale), op.time)]
            == LogIn(ls, op, LogNamesOf(op.time, locales + {l}))
    ensures var b := Stamped(a, op.time, locales);
            b.(updates := b.updates[LogName(Hour(op.time), l) := op.time]) == Stamped(a, op.time, locales + {l})
  {
    NamesOneMore(op.time, locales, l);
    LogOneMore(ls, op, LogNamesOf(op.time, locales), LogName(Hour(op.time), l));
    StampOneMore(a.updates, LogNamesOf(op.time, locales), LogName(Hour(op.time), l), op.time);
  }

  lemma StampOneMore<K>(times: map<K, int>, names: set<K>, n: K, t: int)
    ensures Stamp(times, names, t)[n := t] == Stamp(times, names + {n}, t)
  {
  }

  lemma RestrictOneMore(m: map<PartName, Entry>, n: PartName, e: Entry)
    ensures Locales(m[n := e]) == Locales(m) + {LocaleOf(n)}
    ensures forall l :: Restrict(m[n := e], l) == if l == LocaleOf(n) then Restrict(m, l)[n := e] else Restrict(m, l)
  {
    forall l | l in Locales(m)
      ensures l in Locales(m[n := e])
    {
      var k :| k in m && LocaleOf(k) == l;
      assert k in m[n := e];
    }
    assert n in m[n := e];
  }

  lemma Overwrite<K, V>(m: map<K, V>, k: K, a: V, b: V)
    ensures m[k := a][k := b] == m[k := b]
  {
  }

  function Known(a: Attrs, n: PartName, now: int): Attrs {
    if n in a.parts then a else a.(parts := a.parts[n := PartAttr(now, None)])
  }

  /** The attributes list parts under plain names, and no part has empty lists. */
  ghost predicate CleanParts(a: Attrs, ps: PartFiles) {
    && (forall n :: n in a.parts ==> WellFormed(n))
    && (forall n :: n in ps ==> NoEmpty(ps[n].data))
  }

  ghost predicate TimesKnown(a: Attrs, ls: LogFiles) {
    forall l :: l in ls ==> l in a.updates && a.updates[l] == ls[l].lastModified
  }

  ghost predicate CleanLogs(ls: LogFiles) {
    forall l :: l in ls ==> NoEmpty(ls[l].data)
  }

  /** The files that make up a catalog: those the attributes list, some of which may be missing. */
  ghost predicate CleanDir(d: Dir) {
    && (d.attrs.Some? ==> CleanParts(d.attrs.value, d.parts) && d.parts.Keys <= d.attrs.value.parts.Keys)
    && (d.attrs.None? ==> d.parts == map[])
    && CleanLogs(d.logs)
  }

  /** Loading a part changes nothing but, perhaps, that an empty part is now known. */
  lemma LoadPart(files: PartFiles, loaded: PartFiles, n: PartName, file: PartFile)
    ensures files + loaded[n := file] == (files + loaded)[n := file]
    ensures n in files + loaded && file == (files + loaded)[n] ==> (files + loaded)[n := file] == files + loaded
  {
  }

  // ----- Taking entries out

  /** All the named parts loaded; a part without a file is empty. */
  function Widened(ps: PartFiles, names: set<PartName>, now: int): PartFiles {
    map n | n in ps.Keys + names :: if n in ps then ps[n] else PartFile(map[], now)
  }

  /** The operation's entries are those of the named parts, and taking them out leads from the
      first parts to the second. */
  ghost predicate RemovedFrom(key: VersionKey, ordered: bool, op: Op, names: set<PartName>, was: PartFiles,
                              ps: PartFiles)
  {
    && ps == Touch(key, ordered, Widened(was, names, op.time), op)
    && (forall n :: n in op.parts <==> n in names && Contains(DataOf(was, n), op.fmri))
    && forall n :: n in op.parts ==> op.parts[n] in ListAt(was[n].data, op.fmri.pub, op.fmri.stem)
                                     && op.parts[n].version == op.fmri.version
  }

  lemma WidenNext(ps: PartFiles, names: set<PartName>, n: PartName, now: int)
    ensures Widened(ps, names + {n}, now)
         == if n in ps then Widened(ps, names, now) else Widened(ps, names, now)[n := PartFile(map[], now)]
  {
  }

  lemma TouchElsewhere(key: VersionKey, ordered: bool, ps: PartFiles, op: Op, n: PartName, file: PartFile)
    requires n !in op.parts
    ensures Touch(key, ordered, ps[n := file], op) == Touch(key, ordered, ps, op)[n := file]
  {
    var one, two := Touch(key, ordered, ps[n := file], op), Touch(key, ordered, ps, op)[n := file];
    assert one.Keys == two.Keys;
    forall m | m in one
      ensures one[m] == two[m]
    {
    }
  }

  lemma SameData(key: VersionKey, ordered: bool, op: Op, names: set<PartName>, was: PartFiles, ps: PartFiles,
                 n: PartName)
    requires RemovedFrom(key, ordered, op, names, was, ps) && n !in names
    ensures DataOf(ps, n) == DataOf(was, n)
  {
  }

  lemma SkipNext(key: VersionKey, ordered: bool, op: Op, names: set<PartName>, was: PartFiles, ps: PartFiles,
                 n: PartName)
    requires RemovedFrom(key, ordered, op, names, was, ps) && n !in names && !Contains(DataOf(was, n), op.fmri)
    ensures n in ps <==> n in was
    ensures DataOf(ps, n) == DataOf(was, n)
    ensures RemovedFrom(key, ordered, op, names + {n}, was, if n in ps then ps else ps[n := PartFile(map[], op.time)])
  {
    WidenNext(was, names, n, op.time);
    TouchElsewhere(key, ordered, Widened(was, names, op.time), op, n, PartFile(map[], op.time));
  }

  lemma RemoveNext(key: VersionKey, ordered: bool, op: Op, names: set<PartName>, was: PartFiles, ps: PartFiles,
                   n: PartName, e: Entry)
    requires RemovedFrom(key, ordered, op, names, was, ps) && n !in names && Contains(DataOf(was, n), op.fmri)
    requires e in ListAt(was[n].data, op.fmri.pub, op.fmri.stem) && e.version == op.fmri.version
    ensures n in ps && DataOf(ps, n) == DataOf(was, n)
    ensures RemovedFrom(key, ordered, op.(parts := op.parts[n := e]), names + {n}, was,
                        ps[n := PartFile(Edit(key, ordered, op.kind, DataOf(ps, n), op.fmri, e), op.time)])
  {
    WidenNext(was, names, n, op.time);
    TouchOneMore(key, ordered, Widened(was, names, op.time), op, n, e);
    RemovedEntries(op, names, was, n, e);
  }

  lemma RemovedEntries(op: Op, names: set<PartName>, was: PartFiles, n: PartName, e: Entry)
    requires forall m :: m in op.parts <==> m in names && Contains(DataOf(was, m), op.fmri)
    requires forall m :: m in op.parts ==> m in was && op.parts[m] in ListAt(was[m].data, op.fmri.pub, op.fmri.stem)
                                           && op.parts[m].version == op.fmri.version
    requires Contains(DataOf(was, n), op.fmri) && n in was
    requires e in ListAt(was[n].data, op.fmri.pub, op.fmri.stem) && e.version == op.fmri.version
    ensures var parts := op.parts[n := e];
            && (forall m :: m in parts <==> m in names + {n} && Contains(DataOf(was, m), op.fmri))
            && forall m :: m in parts ==> m in was && parts[m] in ListAt(was[m].data, op.fmri.pub, op.fmri.stem)
                                          && parts[m].version == op.fmri.version
  {
  }

  lemma RemoveNothing(key: VersionKey, ordered: bool, op: Op, was: PartFiles)
    requires op.parts == map[]
    ensures RemovedFrom(key, ordered, op, {}, was, was)
  {
    assert Widened(was, {}, op.time) == was;
    TouchNone(key, ordered, was, op);
  }

  // ----- A whole operation

  ghost function ViewOf(a: Attrs, ps: PartFiles, ls: LogFiles): View {
    View(a.created, a.lastModified, a.packageCount, a.versionCount, PartTimes(a), a.updates, ps, ls)
  }

  /** The attributes agree with the parts, and those not in memory are signed. */
  ghost predicate SettledIn(digest: Digest, a: Attrs, loaded: set<PartName>, ps: PartFiles) {
    && ps.Keys <= a.parts.Keys
    && forall n :: n in a.parts ==>
         && n in ps && a.parts[n].lastModified == ps[n].lastModified
         && (n !in loaded ==> a.parts[n].signature == Some(digest(ps[n].data)))
  }

  lemma StillSettled(digest: Digest, a: Attrs, loaded: set<PartName>, more: set<PartName>, ps: PartFiles)
    requires SettledIn(digest, a, loaded, ps) && loaded <= more
    ensures SettledIn(digest, a, more, ps)
  {
  }

  lemma SettledPart(key: VersionKey, digest: Digest, a: Attrs, ps: PartFiles, loaded: set<PartName>, op: Op,
                    loaded': PartFiles, n: PartName)
    requires SettledIn(digest, a, loaded, ps) && loaded + op.parts.Keys <= loaded'.Keys
             && n in a.parts.Keys + op.parts.Keys
    requires n in loaded' ==> loaded'[n] == Touch(key, true, ps, op)[n]
    ensures var aparts := Refreshed(KnownAll(a, op.parts.Keys, op.time).parts, loaded');
            var file := Touch(key, true, ps, op)[n];
            && aparts[n].lastModified == file.lastModified
              == (if n in op.parts then op.time else a.parts[n].lastModified)
            && (n !in loaded' ==> aparts[n].signature == Some(digest(file.data)))
  {
  }

  lemma TimesStamped(a: Attrs, b: Attrs, names: set<PartName>, t: int)
    requires b.parts.Keys == a.parts.Keys + names
    requires forall n :: n in b.parts ==> b.parts[n].lastModified == if n in names then t else a.parts[n].lastModified
    ensures PartTimes(b) == Stamp(PartTimes(a), names, t)
  {
    assert PartTimes(b).Keys == b.parts.Keys && PartTimes(a).Keys == a.parts.Keys;
  }

  lemma SettledTouch(key: VersionKey, digest: Digest, a: Attrs, ps: PartFiles, loaded: set<PartName>, op: Op,
                     loaded': PartFiles, aparts: map<PartName, PartAttr>)
    requires SettledIn(digest, a, loaded, ps) && loaded + op.parts.Keys <= loaded'.Keys
    requires forall n :: n in loaded' ==> n in Touch(key, true, ps, op) && loaded'[n] == Touch(key, true, ps, op)[n]
    requires aparts == Refreshed(KnownAll(a, op.parts.Keys, op.time).parts, loaded')
    ensures SettledIn(digest, a.(parts := aparts), loaded'.Keys, Touch(key, true, ps, op))
    ensures PartTimes(a.(parts := aparts)) == Stamp(PartTimes(a), op.parts.Keys, op.time)
  {
    assert aparts.Keys == a.parts.Keys + op.parts.Keys;
    forall n | n in aparts
      ensures aparts[n].lastModified == Touch(key, true, ps, op)[n].lastModified
      ensures n !in loaded' ==> aparts[n].signature == Some(digest(Touch(key, true, ps, op)[n].data))
      ensures aparts[n].lastModified == if n in op.parts then op.time else a.parts[n].lastModified
    {
      SettledPart(key, digest, a, ps, loaded, op, loaded', n);
    }
    TimesStamped(a, a.(parts := aparts), op.parts.Keys, op.time);
  }

  /** Recording an operation outside batch mode in a settled catalog that logs updates commits it. */
  lemma RecordedCommits(key: VersionKey, digest: Digest, a: Attrs, ps: PartFiles, ls: LogFiles, loaded: set<PartName>,
                        op: Op, loaded': PartFiles, a': Attrs)
    requires SettledIn(digest, a, loaded, ps) && loaded + op.parts.Keys <= loaded'.Keys
    requires forall n :: n in loaded' ==> n in Touch(key, true, ps, op) && loaded'[n] == Touch(key, true, ps, op)[n]
    requires a' == Recorded(KnownAll(a, op.parts.Keys, op.time), false, true, op, loaded', Touch(key, true, ps, op))
    ensures SettledIn(digest, a', loaded'.Keys, Touch(key, true, ps, op))
    ensures ViewOf(a', Touch(key, true, ps, op), Log(ls, op)) == Commit(key, ViewOf(a, ps, ls), op)
  {
    SettledTouch(key, digest, a, ps, loaded, op, loaded', a'.parts);
    assert PartTimes(a') == PartTimes(a.(parts := a'.parts));
  }

  lemma WidenedMade(key: VersionKey, ordered: bool, op: Op, a: Attrs, was: PartFiles, ps: PartFiles)
    requires RemovedFrom(key, ordered, op, a.parts.Keys, was, ps)
    ensures MadeFrom(key, ordered, op, Widened(was, a.parts.Keys, op.time), a, ps, a)
  {
    assert a.parts.Keys + op.parts.Keys == a.parts.Keys;
    assert KnownAll(a, op.parts.Keys, op.time).parts == a.parts;
  }

  lemma SettledWide(digest: Digest, a: Attrs, loaded: set<PartName>, ps: PartFiles, now: int)
    requires SettledIn(digest, a, loaded, ps)
    ensures Widened(ps, a.parts.Keys, now) == ps
  {
    assert ps.Keys + a.parts.Keys == ps.Keys;
  }

  // ----- Saving

  function SignedAttr(digest: Digest, file: PartFile): PartAttr {
    PartAttr(file.lastModified, Some(digest(file.data)))
  }

  /** The named parts in memory are saved, and signed in the attributes. */
  function SignedIn(digest: Digest, aparts: map<PartName, PartAttr>, loaded: PartFiles,
                    names: set<PartName>): map<PartName, PartAttr>
  {
    map n | n in aparts :: if n in names && n in loaded then SignedAttr(digest, loaded[n]) else aparts[n]
  }

  lemma SignedOneMore(digest: Digest, aparts: map<PartName, PartAttr>, loaded: PartFiles, names: set<PartName>,
                      n: PartName)
    requires n in loaded && n in aparts
    ensures SignedIn(digest, aparts, loaded, names)[n := SignedAttr(digest, loaded[n])]
         == SignedIn(digest, aparts, loaded, names + {n})
  {
  }

  lemma OnlyInOneMore<K, V>(base: map<K, V>, m: map<K, V>, names: set<K>, n: K)
    requires n in m
    ensures base + OnlyIn(m, names + {n}) == (base + OnlyIn(m, names))[n := m[n]]
  {
  }

  lemma CleanMore(a: Attrs, ps: PartFiles, files: PartFiles, names: set<PartName>, loaded: PartFiles)
    requires CleanParts(a, ps + loaded) && forall n :: n in files ==> NoEmpty(files[n].data)
    ensures CleanParts(a, (ps + OnlyIn(files, names)) + loaded)
  {
    var qs := (ps + OnlyIn(files, names)) + loaded;
    forall n | n in qs
      ensures NoEmpty(qs[n].data)
    {
      if n in loaded || n !in files || n !in names {
        assert qs[n] == (ps + loaded)[n];
      }
    }
  }

  lemma OnlyInEnds<K, V>(base: map<K, V>, m: map<K, V>)
    ensures base + OnlyIn(m, {}) == base
    ensures base + OnlyIn(m, m.Keys) == base + m
  {
  }

  lemma SavedTwice<K, V>(base: map<K, V>, m: map<K, V>)
    ensures (base + m) + m == base + m
  {
  }

  /** A settled catalog that is saved is published. */
  lemma SavedPublished(digest: Digest, a: Attrs, loaded: PartFiles, ps: PartFiles, ls: LogFiles)
    requires SettledIn(digest, a, loaded.Keys, ps)
    requires forall n :: n in loaded ==> n in ps && loaded[n] == ps[n]
    ensures var b := a.(parts := SignedIn(digest, a.parts, loaded, loaded.Keys));
            && ViewOf(a, ps, ls).partTimes.Keys <= ps.Keys
            && Dir(Some(b), ps, ls) == Published(digest, ViewOf(a, ps, ls))
            && SettledIn(digest, b, loaded.Keys, ps) && ViewOf(b, ps, ls) == ViewOf(a, ps, ls)
  {
    var b := a.(parts := SignedIn(digest, a.parts, loaded, loaded.Keys));
    assert PartTimes(b) == PartTimes(a);
    var v := ViewOf(a, ps, ls);
    assert v.partTimes.Keys == a.parts.Keys;
    assert b.parts == map n | n in v.partTimes :: PartAttr(v.partTimes[n], Some(digest(v.parts[n].data)));
  }

  // ----- The entries of one package

  ghost predicate AllTargets(f: Fmri, m: Option<Manifest>, metadata: map<string, string>, names: set<PartName>,
                             ts: seq<Target>)
  {
    && GoodTargets(f, ts)
    && (forall i :: 0 <= i < |ts| ==> ts[i].name in names && ts[i].entry == TargetEntry(f, m, metadata, ts[i].name))
    && (forall n :: n in names ==> Names(ts, n))
    && |ts| > 0 && ts[0].name == Base
  }

  lemma OneMoreTarget(f: Fmri, m: Option<Manifest>, metadata: map<string, string>, names: set<PartName>,
                      ts: seq<Target>, n: PartName)
    requires AllTargets(f, m, metadata, names, ts) && n !in names
    ensures AllTargets(f, m, metadata, names + {n}, ts + [Target(n, TargetEntry(f, m, metadata, n))])
  {
    var us := ts + [Target(n, TargetEntry(f, m, metadata, n))];
    assert us[|ts|].name == n;
    forall k | k in names
      ensures Names(us, k)
    {
      var i :| 0 <= i < |ts| && ts[i].name == k;
      assert us[i].name == k;
    }
  }

  lemma {:induction false} MapOfEntries(f: Fmri, m: Option<Manifest>, metadata: map<string, string>, ts: seq<Target>)
    requires forall i :: 0 <= i < |ts| ==> ts[i].entry == TargetEntry(f, m, metadata, ts[i].name)
    ensures forall n :: n in MapOf(ts) ==> MapOf(ts)[n] == TargetEntry(f, m, metadata, n)
  {
    if ts != [] {
      MapOfEntries(f, m, metadata, ts[..|ts| - 1]);
    }
  }

  lemma TargetsAreAll(f: Fmri, m: Option<Manifest>, metadata: map<string, string>, ts: seq<Target>)
    requires AllTargets(f, m, metadata, TargetNames(m), ts)
    ensures MapOf(ts) == Targets(f, m, metadata)
  {
    MapOfEntries(f, m, metadata, ts);
    forall n
      ensures n in MapOf(ts) <==> n in TargetNames(m)
    {
      MapOfNames(ts, n);
    }
  }

  /** A summary part is among the targets when some action goes there. */
  lemma SummaryNamed(actions: seq<Action>, l: string)
    ensures Summary(l) in SummaryNames(actions) <==> Where(actions, ForLocale(l)) != []
  {
    WhereMembers(actions, ForLocale(l));
    if Summary(l) in SummaryNames(actions) {
      var a :| a in actions && ToSummary(a, SummaryLocaleOf(a)) && SummaryLocaleOf(a) == l;
      assert a in Where(actions, ForLocale(l));
    }
    if Where(actions, ForLocale(l)) != [] {
      var a := Where(actions, ForLocale(l))[0];
      assert a in Where(actions, ForLocale(l));
      assert a in actions && ToSummary(a, SummaryLocaleOf(a));
    }
  }

  function SummariesOf(locales: set<string>): set<PartName> {
    set l | l in locales :: Summary(l)
  }

  /** The entry of each part: the base part first, then, with a manifest, every other part for which it
      has actions, the summary parts in any order. */
  method MakeTargets(f: Fmri, m: Option<Manifest>, metadata: map<string, string>) returns (ts: seq<Target>)
    ensures GoodTargets(f, ts) && |ts| > 0 && ts[0].name == Base
    ensures MapOf(ts) == Targets(f, m, metadata)
  {
    ts := [Target(Base, Entry(f.version, metadata, if m.Some? then m.value.signatures else map[], []))];
    assert Names(ts, Base) by {
      assert ts[0].name == Base;
    }
    if m.Some? {
      ts := AddManifest(f, m.value, metadata, ts);
    }
    TargetsAreAll(f, m, metadata, ts);
  }

  method AddManifest(f: Fmri, m: Manifest, metadata: map<string, string>, base: seq<Target>) returns (ts: seq<Target>)
    requires AllTargets(f, Some(m), metadata, {Base}, base)
    ensures AllTargets(f, Some(m), metadata, TargetNames(Some(m)), ts)
  {
    ts := base;
    var actions := CatalogActions(m);
    forall a | a in actions
      ensures !a.Other?
    {
      WhereAll(m.actions, actions, a);
    }
    var dep, summary := GroupActions(actions);
    if dep != [] {
      OneMoreTarget(f, Some(m), metadata, {Base}, ts, Dependency);
      ts := ts + [Target(Dependency, Entry(f.version, map[], map[], dep))];
    }
    ts := AddSummaries(f, m, metadata, summary, ts, {Base} + if dep != [] then {Dependency} else {});
  }

  method AddSummaries(f: Fmri, m: Manifest, metadata: map<string, string>, summary: map<string, seq<Action>>,
                      first: seq<Target>, ghost names: set<PartName>) returns (ts: seq<Target>)
    requires names <= {Base, Dependency} && AllTargets(f, Some(m), metadata, names, first)
    requires forall l :: l in summary ==> summary[l] == Where(CatalogActions(m), ForLocale(l))
    requires forall a, l :: a in CatalogActions(m) && ToSummary(a, l) ==> l in summary
    ensures AllTargets(f, Some(m), metadata, names + SummaryNames(CatalogActions(m)), ts)
  {
    ts := first;
    var todo := summary.Keys;
    ghost var done: set<string> := {};
    assert names + SummariesOf(done) == names;
    while todo != {}
      invariant todo <= summary.Keys
      invariant forall l :: l in done <==> l in summary && l !in todo && summary[l] != []
      invariant AllTargets(f, Some(m), metadata, names + SummariesOf(done), ts)
      decreases todo
    {
      var l :| l in todo;
      todo := todo - {l};
      if summary[l] != [] {
        OneMoreTarget(f, Some(m), metadata, names + SummariesOf(done), ts, Summary(l));
        assert names + SummariesOf(done + {l}) == names + SummariesOf(done) + {Summary(l)};
        ts := ts + [Target(Summary(l), Entry(f.version, map[], map[], summary[l]))];
        done := done + {l};
      }
    }
    SummariesAreNames(CatalogActions(m), summary, done);
  }

  lemma SummariesAreNames(actions: seq<Action>, summary: map<string, seq<Action>>, done: set<string>)
    requires forall l :: l in summary ==> summary[l] == Where(actions, ForLocale(l))
    requires forall a, l :: a in actions && ToSummary(a, l) ==> l in summary
    requires forall l :: l in done <==> l in summary && summary[l] != []
    ensures SummariesOf(done) == SummaryNames(actions)
  {
    forall n: PartName
      ensures n in SummariesOf(done) <==> n in SummaryNames(actions)
    {
      if n.Summary? {
        SummaryNamed(actions, n.locale);
      }
    }
  }
}
