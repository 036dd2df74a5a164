/** Reading back what a catalog stores of a package: its actions, gathered from the entries of the parts
    that are asked for, and what adding a package and then reading it comes to. */
module Reading {
  import opened Actions
  import opened CatalogParts
  import opened CatalogSteps
  import opened Catalogs
  import opened Coverage
  import opened NestedLists
  import opened Protocol
  import opened VersionLists
  import opened Wrappers

  /** The parts store these actions of the package, each where it belongs, as after adding it. */
  ghost predicate Stores(ps: PartFiles, f: Fmri, actions: seq<Action>) {
    && StoredActions(ps, Base, f) == []
    && Grouped(actions, StoredActions(ps, Dependency, f), StoredSummaries(ps, f))
  }

  /** The actions that one part has for the package. */
  method PartActions(catalog: Catalog, n: PartName, f: Fmri, now: int) returns (actions: seq<Action>)
    requires catalog.Valid()
    modifies catalog`parts, catalog`attrs
    ensures catalog.Valid() && catalog.Current() == old(catalog.Current()) && catalog.attrs == old(catalog.attrs)
    ensures actions == StoredActions(catalog.Current(), n, f)
  {
    var part := catalog.GetPart(n, true, now);
    if part == null {
      return [];
    }
    var entry := part.GetEntry(f);
    actions := if entry.Some? then entry.value.actions else [];
  }

  /** The actions of the summary parts of these locales, behind those already gathered. */
  method SummaryActions(catalog: Catalog, f: Fmri, first: seq<Action>, info: InfoNeeded, locales: set<string>,
                        now: int, ghost actions: seq<Action>)
    returns (merged: seq<Action>)
    requires catalog.Valid() && Stores(catalog.Current(), f, actions) && info.summary
    requires multiset(first) == multiset(Where(actions, StoredIn(info, {})))
    modifies catalog`parts, catalog`attrs
    ensures catalog.Valid() && catalog.Current() == old(catalog.Current()) && catalog.attrs == old(catalog.attrs)
    ensures multiset(merged) == multiset(Where(actions, StoredIn(info, locales)))
  {
    merged := first;
    var todo, done := locales, {};
    while todo != {}
      invariant catalog.Valid() && catalog.Current() == old(catalog.Current()) && catalog.attrs == old(catalog.attrs)
      invariant todo !! done && todo + done == locales
      invariant multiset(merged) == multiset(Where(actions, StoredIn(info, done)))
      decreases todo
    {
      var l :| l in todo;
      var more := PartActions(catalog, Summary(l), f, now);
      SummaryStored(catalog.Current(), f, actions, l);
      MergeStep(actions, merged, info, done, l);
      merged := merged + more;
      todo, done := todo - {l}, done + {l};
    }
  }

  lemma SummaryStored(ps: PartFiles, f: Fmri, actions: seq<Action>, l: string)
    requires Stores(ps, f, actions)
    ensures StoredActions(ps, Summary(l), f) == Where(actions, ForLocale(l))
  {
    if l !in SummaryLocales(ps) {
      WhereNone(actions, l);
      assert Summary(l) !in ps;
    }
  }

  /** The actions of a package: those stored in the parts asked for, with the excludes applied, or if these parts
      have none, what is made of the manifest m, if there is one. */
  method GetEntryActions(catalog: Catalog, f: Fmri, info: InfoNeeded, wanted: set<string>, allowed: Action -> bool,
                         m: Option<Manifest>, now: int, ghost actions: seq<Action>)
    returns (r: Result<seq<Action>, CatalogError>)
    requires catalog.Valid() && (info.dependency || info.summary)
    requires Contains(DataOf(catalog.Current(), Base), f) ==> Stores(catalog.Current(), f, actions)
    modifies catalog`parts, catalog`attrs
    ensures catalog.Valid() && catalog.Current() == old(catalog.Current()) && catalog.attrs == old(catalog.attrs)
    ensures r.Err? <==> !Contains(DataOf(catalog.Current(), Base), f)
    ensures r.Err? ==> r.error == UnknownCatalogEntry(f)
    ensures r.Ok? ==> multiset(r.value) == ReadBack(actions, m, info, OrDefault(wanted), allowed)
  {
    var base := catalog.GetPart(Base, true, now);
    if base == null {
      return Err(UnknownCatalogEntry(f));
    }
    var entry := base.GetEntry(f);
    if entry.None? {
      return Err(UnknownCatalogEntry(f));
    }
    var merged := entry.value.actions;
    var locales := OrDefault(wanted);
    if info.dependency {
      var dep := PartActions(catalog, Dependency, f, now);
      merged := merged + dep;
      WhereSame(actions, ToDependency, StoredIn(info, {}));
    } else {
      WhereNothing(actions, StoredIn(info, {}));
    }
    if info.summary {
      merged := SummaryActions(catalog, f, merged, info, locales, now, actions);
    } else {
      WhereSame(actions, StoredIn(info, {}), StoredIn(info, locales));
    }
    var out := FilterActions(merged, m, info, locales, allowed, actions);
    r := Ok(out);
  }

  // ----- Adding and then reading

  /** A package that the base part of a coherent catalog does not list is listed nowhere. */
  lemma NowhereListed(ps: PartFiles, f: Fmri)
    requires Coherent(ps) && !Contains(DataOf(ps, Base), f)
    ensures Unlisted(ps, f)
  {
  }

  lemma HeldIsStored(ps: PartFiles, f: Fmri, m: Manifest, metadata: map<string, string>)
    requires HoldsPackage(ps, f, Some(m), metadata)
    ensures Contains(DataOf(ps, Base), f) && Stores(ps, f, CatalogActions(m))
  {
    EntryOfIs(ListAt(DataOf(ps, Base), f.pub, f.stem), f.version);
  }

  lemma NewIsHeld(was: PartFiles, ps: PartFiles, f: Fmri, m: Manifest, metadata: map<string, string>)
    requires Coherent(was) && CanAdd(was, f, Base) && NewlyHolds(was, ps, f, Some(m), metadata)
    ensures Contains(DataOf(ps, Base), f) && Stores(ps, f, CatalogActions(m))
  {
    NowhereListed(was, f);
    HeldIsStored(ps, f, m, metadata);
  }

  lemma EnteredBase(was: PartFiles, f: Fmri, m: Option<Manifest>, metadata: map<string, string>,
                    made: map<PartName, Entry>)
    requires Entered(was, f, m, metadata, None, made)
    ensures CanAdd(was, f, Base)
  {
    assert Base in Targets(f, m, metadata);
  }

  method AddNew(catalog: Catalog, f: Fmri, m: Manifest, metadata: map<string, string>, opTime: int)
    returns (added: Result<(), CatalogError>)
    requires catalog.Valid() && Coherent(catalog.Current())
    modifies catalog`parts, catalog`attrs, catalog`updates
    ensures catalog.Valid() && Coherent(catalog.Current())
    ensures added.Ok? ==>
              Contains(DataOf(catalog.Current(), Base), f) && Stores(catalog.Current(), f, CatalogActions(m))
  {
    ghost var was := catalog.Current();
    ghost var op;
    added, op := catalog.AddPackage(f, Some(m), metadata, opTime);
    if added.Ok? {
      EnteredBase(was, f, Some(m), metadata, op.parts);
      NewIsHeld(was, catalog.Current(), f, m, metadata);
    }
  }

  /** Add a package to a coherent catalog and read its actions: with everything asked for and nothing excluded they
      are the depend and set actions of its manifest, but for those of other locales and those that are
      left out, as often as the manifest has them. */
  method AddAndRead(catalog: Catalog, f: Fmri, m: Manifest, metadata: map<string, string>, opTime: int,
                    wanted: set<string>)
    returns (added: Result<(), CatalogError>, read: seq<Action>)
    requires catalog.Valid() && Coherent(catalog.Current()) && (wanted == {} || "C" in wanted)
    modifies catalog`parts, catalog`attrs, catalog`updates
    ensures catalog.Valid() && Coherent(catalog.Current())
    ensures added.Ok? ==>
              var locales := if wanted == {} then {"C"} else wanted;
              forall a :: multiset(read)[a] ==
                if a.Depend? || (a.Set? && NameAsked(a.name, locales)) then multiset(m.actions)[a] else 0
  {
    added := AddNew(catalog, f, m, metadata, opTime);
    read := [];
    if added.Ok? {
      var info, all := InfoNeeded(true, true), (a: Action) => true;
      var r := GetEntryActions(catalog, f, info, wanted, all, Some(m), opTime, CatalogActions(m));
      read := r.value;
      ReadMeans(m, OrDefault(wanted), all, read);
    }
  }

  /** A set action of this name is among what is asked for when everything of these locales is. */
  ghost predicate NameAsked(name: string, locales: set<string>) {
    || "variant" <= name || "facet" <= name || "pkg.depend." <= name
    || name in {"pkg.obsolete", "pkg.renamed", "pkg.legacy"}
    || (&& name !in {"fmri", "pkg.fmri", "publisher"}
        && !("info.source-url" <= name || "pkg.debug" <= name || "pkg.linted" <= name)
        && exists l :: l in locales && SaysLocale(name, l))
  }

  lemma ReadMeans(m: Manifest, locales: set<string>, allowed: Action -> bool, read: seq<Action>)
    requires "C" in locales && forall a :: allowed(a)
    requires multiset(read) == ReadBack(CatalogActions(m), Some(m), InfoNeeded(true, true), locales, allowed)
    ensures forall a :: multiset(read)[a] ==
              if a.Depend? || (a.Set? && NameAsked(a.name, locales)) then multiset(m.actions)[a] else 0
  {
    var info := InfoNeeded(true, true);
    ReadBackAgrees(m, locales, allowed);
    StoredAgreesExactly(m, info, locales, allowed);
    forall a
      ensures multiset(read)[a]
           == if a.Depend? || (a.Set? && NameAsked(a.name, locales)) then multiset(m.actions)[a] else 0
    {
      ReadBackMeans(m, info, locales, allowed, a);
    }
  }
}
