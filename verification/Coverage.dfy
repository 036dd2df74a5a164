/** What the parts of a catalog owe to each other, in and out of batch mode: no part lists a package version
    that the base part lacks, and none lists one twice. */
module Coverage {
  import opened Actions
  import opened CatalogParts
  import opened CatalogSteps
  import opened History
  import opened NestedLists
  import opened Protocol
  import opened VersionLists
  import opened Wrappers

  ghost predicate Coherent(ps: PartFiles) {
    BaseCovers(ps) && forall n :: n in ps ==> NoEmpty(ps[n].data) && AllDistinct(ps[n].data)
  }

  /** What add_package and remove_package see to: entries are made where the package is not listed yet,
      those of the base part first, and taken out wherever it is listed. */
  ghost predicate Fits(ps: PartFiles, op: Op) {
    && (op.parts != map[] ==> Base in op.parts)
    && (forall n :: n in op.parts ==> op.parts[n].version == op.fmri.version)
    && match op.kind
       case Add => forall n :: n in op.parts ==> !Contains(DataOf(ps, n), op.fmri)
       case Remove =>
         forall n :: n in op.parts <==> n in ps && Contains(ps[n].data, op.fmri)
  }

  // ----- One edit

  lemma EditContains(key: VersionKey, ordered: bool, kind: Kind, d: Entries, f: Fmri, e: Entry, g: Fmri)
    requires NoEmpty(d) && AllDistinct(d) && e.version == f.version
    ensures Contains(Edit(key, ordered, kind, d, f, e), g)
       <==> if kind == Add then Contains(d, g) || g == f else Contains(d, g) && g != f
  {
    var l := ListAt(d, f.pub, f.stem);
    PutListAt(d, f.pub, f.stem, Changed(key, ordered, kind, l, e));
    if g.pub == f.pub && g.stem == f.stem {
      match kind
      case Add =>
        HasSort(key, l + [e], g.version);
        HasAppend(l, e, g.version);
      case Remove =>
        DeleteDistinct(l, e.version);
        if g.version != f.version {
          DeleteOthers(l, f.version, g.version);
        }
    }
  }

  lemma ChangedDistinct(key: VersionKey, ordered: bool, kind: Kind, l: seq<Entry>, e: Entry)
    requires Distinct(l) && (kind == Add ==> !Has(l, e.version))
    ensures Distinct(Changed(key, ordered, kind, l, e))
  {
    match kind
    case Add =>
      assert Distinct(l + [e]);
      StableSortCorrect(key, l + [e]);
      DistinctMultiset(l + [e], StableSort(key, l + [e]));
    case Remove =>
      DeleteDistinct(l, e.version);
  }

  lemma EditDistinct(key: VersionKey, ordered: bool, kind: Kind, d: Entries, f: Fmri, e: Entry)
    requires NoEmpty(d) && AllDistinct(d) && e.version == f.version && (kind == Add ==> !Contains(d, f))
    ensures NoEmpty(Edit(key, ordered, kind, d, f, e)) && AllDistinct(Edit(key, ordered, kind, d, f, e))
  {
    var l := ListAt(d, f.pub, f.stem);
    ChangedDistinct(key, ordered, kind, l, e);
    PutListAt(d, f.pub, f.stem, Changed(key, ordered, kind, l, e));
  }

  // ----- One operation

  lemma CoversAfter(key: VersionKey, ordered: bool, ps: PartFiles, op: Op)
    requires Coherent(ps) && Fits(ps, op)
    ensures BaseCovers(Touch(key, ordered, ps, op))
  {
    var qs := Touch(key, ordered, ps, op);
    forall n, f | n in qs && Contains(qs[n].data, f)
      ensures Contains(DataOf(qs, Base), f)
    {
      if n in op.parts {
        EditContains(key, ordered, op.kind, DataOf(ps, n), op.fmri, op.parts[n], f);
      }
      if Base in op.parts {
        EditContains(key, ordered, op.kind, DataOf(ps, Base), op.fmri, op.parts[Base], f);
      }
      if n in ps && Contains(ps[n].data, f) {
        assert Contains(DataOf(ps, Base), f);
      }
    }
  }

  /** An operation that fits keeps the parts coherent: a removal, an addition, and what is done of an
      addition that cannot be finished. */
  lemma TouchCoheres(key: VersionKey, ordered: bool, ps: PartFiles, op: Op)
    requires Coherent(ps) && Fits(ps, op)
    ensures Coherent(Touch(key, ordered, ps, op))
  {
    CoversAfter(key, ordered, ps, op);
    forall n | n in op.parts
      ensures NoEmpty(Touch(key, ordered, ps, op)[n].data) && AllDistinct(Touch(key, ordered, ps, op)[n].data)
    {
      EditDistinct(key, ordered, op.kind, DataOf(ps, n), op.fmri, op.parts[n]);
    }
  }

  lemma EnteredCoheres(key: VersionKey, ordered: bool, ps: PartFiles, m: Option<Manifest>,
                       metadata: map<string, string>, failure: Option<CatalogError>, op: Op)
    requires op.kind.Add? && Entered(ps, op.fmri, m, metadata, failure, op.parts)
    ensures Coherent(ps) ==> Coherent(Touch(key, ordered, ps, op))
  {
    if Coherent(ps) {
      TouchCoheres(key, ordered, ps, op);
    }
  }

  lemma WidenedCoheres(ps: PartFiles, names: set<PartName>, now: int)
    requires Coherent(ps)
    ensures Coherent(Widened(ps, names, now))
    ensures forall n :: DataOf(Widened(ps, names, now), n) == DataOf(ps, n)
  {
    var qs := Widened(ps, names, now);
    forall n
      ensures DataOf(qs, n) == DataOf(ps, n) && NoEmpty(DataOf(ps, n)) && AllDistinct(DataOf(ps, n))
    {
      if n !in ps {
        assert forall p: Publisher, s: string :: ListAt(DataOf(ps, n), p, s) == [];
      }
    }
    forall n, f | n in qs && Contains(qs[n].data, f)
      ensures Contains(DataOf(qs, Base), f)
    {
      assert Contains(DataOf(ps, n), f);
      assert n in ps;
    }
  }

  /** So does a removal from some of the parts, when it has been through all of them or the base part lacks
      the package. */
  lemma RemovalCoheres(key: VersionKey, ordered: bool, op: Op, names: set<PartName>, was: PartFiles, ps: PartFiles)
    requires Coherent(was) && op.kind.Remove? && RemovedFrom(key, ordered, op, names, was, ps)
    requires was.Keys <= names || !Contains(DataOf(was, Base), op.fmri)
    ensures Coherent(ps)
  {
    var wide := Widened(was, names, op.time);
    WidenedCoheres(was, names, op.time);
    forall n
      ensures n in op.parts <==> n in wide && Contains(wide[n].data, op.fmri)
      ensures n in op.parts ==> Base in op.parts
    {
      if n in was && Contains(was[n].data, op.fmri) {
        assert Contains(DataOf(was, Base), op.fmri);
      }
    }
    TouchCoheres(key, ordered, wide, op);
  }

  lemma RemoveCoheres(key: VersionKey, ordered: bool, op: Op, known: set<PartName>, done: bool, was: PartFiles,
                      ps: PartFiles)
    requires Coherent(was) && op.kind.Remove? && was.Keys <= known
    requires if done then RemovedFrom(key, ordered, op, known, was, ps)
             else !Contains(DataOf(was, Base), op.fmri) && exists names :: RemovedFrom(key, ordered, op, names, was, ps)
    ensures Coherent(ps)
  {
    var names :| RemovedFrom(key, ordered, op, names, was, ps) && (done ==> names == known);
    RemovalCoheres(key, ordered, op, names, was, ps);
  }

  /** So does sorting some of the parts, when batch mode ends. */
  lemma SortCoheres(key: VersionKey, ps: PartFiles, names: set<PartName>)
    requires Coherent(ps)
    ensures Coherent(SortIn(key, ps, names))
  {
    var qs := SortIn(key, ps, names);
    forall n | n in ps
      ensures NoEmpty(qs[n].data) && AllDistinct(qs[n].data)
      ensures forall f :: Contains(qs[n].data, f) <==> Contains(ps[n].data, f)
    {
      SortedData(key, ps[n].data);
    }
    forall n, f | n in qs && Contains(qs[n].data, f)
      ensures Contains(DataOf(qs, Base), f)
    {
      assert Contains(DataOf(ps, Base), f);
    }
  }

  lemma SortedData(key: VersionKey, d: Entries)
    requires NoEmpty(d) && AllDistinct(d)
    ensures NoEmpty(SortAll(key, d)) && AllDistinct(SortAll(key, d))
    ensures forall f :: Contains(SortAll(key, d), f) <==> Contains(d, f)
  {
    SortAllLists(key, d);
    forall p: Publisher, s: string
      ensures Distinct(ListAt(SortAll(key, d), p, s))
    {
      StableSortCorrect(key, ListAt(d, p, s));
      DistinctMultiset(ListAt(d, p, s), StableSort(key, ListAt(d, p, s)));
    }
    forall f
      ensures Contains(SortAll(key, d), f) <==> Contains(d, f)
    {
      HasSort(key, ListAt(d, f.pub, f.stem), f.version);
    }
  }
}
