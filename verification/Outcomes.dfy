/** What a refused operation leaves behind, and that an accepted one is what the replication
    protocol takes for granted. */
module Outcomes {
  import opened Actions
  import opened CatalogParts
  import opened CatalogSteps
  import opened History
  import opened NestedLists
  import opened Protocol
  import opened Replication
  import opened VersionLists
  import opened Wrappers

  /** Every locale that the manifest names makes a plain file name. */
  ghost predicate PlainLocales(m: Option<Manifest>) {
    forall n :: n in TargetNames(m) ==> WellFormed(n)
  }

  /** With the base part covering the others and plain locale names, the one reason to refuse an add
      is that the base part lists the package already, whatever its manifest is. */
  lemma AddRefusedExactly(ps: PartFiles, f: Fmri, m: Option<Manifest>, metadata: map<string, string>)
    requires BaseCovers(ps) && PlainLocales(m)
    ensures (forall n :: n in Targets(f, m, metadata) ==> CanAdd(ps, f, n)) <==> !Contains(DataOf(ps, Base), f)
  {
    assert Base in Targets(f, m, metadata);
    if n :| n in Targets(f, m, metadata) && !CanAdd(ps, f, n) {
      assert n in ps && Contains(ps[n].data, f);
    }
  }

  /** A locale with a slash is refused only after the base part has the package: the add is left
      half done. */
  lemma SlashLocaleHalfDone(f: Fmri)
    ensures var m := Some(Manifest(map[], [Set("pkg.summary:a/b", "")]));
            TargetNames(m) == {Base, Summary("a/b")} && CanAdd(map[], f, Base) && !CanAdd(map[], f, Summary("a/b"))
  {
    var a := Set("pkg.summary:a/b", "");
    SlashLocale(a.name);
    OneSummary(a);
    assert "a/b"[1] == '/';
  }

  lemma OneSummary(a: Action)
    requires a.Set? && !ToDependency(a) && !IsSkipped(a.name)
    ensures TargetNames(Some(Manifest(map[], [a]))) == {Base, Summary(SummaryLocale(a.name))}
  {
    WhereOne(a, IsDepend);
    WhereOne(a, IsSet);
    WhereOne(a, ToDependency);
    var m := Manifest(map[], [a]);
    assert CatalogActions(m) == [a];
    forall n
      ensures n in SummaryNames([a]) <==> n == Summary(SummaryLocale(a.name))
    {
      assert a in [a] && ToSummary(a, SummaryLocaleOf(a));
    }
  }

  lemma WhereOne(a: Action, p: Action -> bool)
    ensures Where([a], p) == if p(a) then [a] else []
  {
    assert [a][..0] == [];
  }

  lemma SlashLocale(name: string)
    requires name == "pkg.summary:a/b"
    ensures SummaryLocale(name) == "a/b" && !IsDependencyName(name) && name != "pkg.legacy" && !IsSkipped(name)
  {
    assert name == "pkg." + "summary:a/b";
    OtherNames(name, "summary:a/b");
    NotPrefix("pkg.legacy", name, 4);
    assert name == "pkg.summary" + ":" + "a/b";
    LocaleAfter("pkg.summary", "a/b");
  }

  /** What follows the only colon is the locale. */
  lemma LocaleAfter(field: string, locale: string)
    requires ':' !in field && ':' !in locale
    ensures SummaryLocale(field + ":" + locale) == locale
  {
    ColonAt(field, locale);
    NoColon(locale);
    assert (field + ":" + locale)[|field| + 1..] == locale;
  }

  lemma {:induction false} ColonAt(p: string, rest: string)
    requires ':' !in p
    ensures Colon(p + ":" + rest) == |p|
  {
    var s := p + ":" + rest;
    if p != "" {
      assert s[1..] == p[1..] + ":" + rest;
      ColonAt(p[1..], rest);
    }
  }

  /** A removal that the base part refuses has touched nothing but empty parts, in whatever order the
      parts come. */
  lemma RemoveRefusedUntouched(key: VersionKey, ordered: bool, op: Op, names: set<PartName>, was: PartFiles,
                               ps: PartFiles)
    requires BaseCovers(was) && !Contains(DataOf(was, Base), op.fmri)
    requires RemovedFrom(key, ordered, op, names, was, ps)
    ensures op.parts == map[] && forall n :: DataOf(ps, n) == DataOf(was, n)
  {
    assert op.parts.Keys == {};
  }

  /** An add that is not refused is accepted in the sense of the replication protocol... */
  lemma AddAccepted(v: View, f: Fmri, m: Option<Manifest>, metadata: map<string, string>, time: int)
    requires time > v.lastModified
    requires forall n :: n in Targets(f, m, metadata) ==> CanAdd(v.parts, f, n)
    ensures Accepts(v, Op(time, Add, f, Targets(f, m, metadata)))
  {
  }

  /** ... and so is a removal. */
  lemma RemoveAccepted(key: VersionKey, ordered: bool, v: View, op: Op, names: set<PartName>, ps: PartFiles)
    requires op.kind.Remove? && op.time > v.lastModified
    requires BaseCovers(v.parts) && v.parts.Keys <= names
    requires RemovedFrom(key, ordered, op, names, v.parts, ps)
    ensures Accepts(v, op)
  {
    forall n
      ensures n in op.parts <==> n in v.parts && Contains(v.parts[n].data, op.fmri)
      ensures n in op.parts ==> Base in op.parts
    {
      if n in v.parts && Contains(v.parts[n].data, op.fmri) {
        assert Contains(DataOf(v.parts, Base), op.fmri);
        assert Base in v.parts;
      }
    }
  }

  // ----- Undoing an addition

  lemma EditUndone(key: VersionKey, d: Entries, f: Fmri, e: Entry, e': Entry)
    requires NoEmpty(d) && AllSorted(key, d) && !Contains(d, f)
    requires e.version == e'.version == f.version
    ensures Edit(key, true, Kind.Remove, Edit(key, true, Kind.Add, d, f, e), f, e') == d
  {
    var l := ListAt(d, f.pub, f.stem);
    SortOfSorted(key, l);
    SortDelete(key, l + [e], e.version);
    DeleteAppend(l, e, e.version);
    var d' := Edit(key, true, Kind.Add, d, f, e);
    PutListAt(d, f.pub, f.stem, StableSort(key, l + [e]));
    PutListAt(d', f.pub, f.stem, l);
    Extensional(Edit(key, true, Kind.Remove, d', f, e'), d);
  }

  /** Removing a package that was just added gives every part its contents back, and with them the
      counts. */
  lemma AdditionUndone(key: VersionKey, ps: PartFiles, add: Op, remove: Op)
    requires forall n :: n in ps ==> NoEmpty(ps[n].data) && AllSorted(key, ps[n].data)
    requires add.kind.Add? && forall n :: n in add.parts ==> !Contains(DataOf(ps, n), add.fmri)
    requires remove.kind.Remove? && remove.fmri == add.fmri && remove.parts.Keys == add.parts.Keys
    requires forall n :: n in add.parts ==> add.parts[n].version == remove.parts[n].version == add.fmri.version
    ensures forall n :: DataOf(Touch(key, true, Touch(key, true, ps, add), remove), n) == DataOf(ps, n)
  {
    var qs := Touch(key, true, ps, add);
    forall n
      ensures DataOf(Touch(key, true, qs, remove), n) == DataOf(ps, n)
    {
      if n in add.parts {
        assert n !in ps ==> AllSorted(key, DataOf(ps, n));
        EditUndone(key, DataOf(ps, n), add.fmri, add.parts[n], remove.parts[n]);
      }
    }
  }
}
