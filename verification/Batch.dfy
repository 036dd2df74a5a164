/** Batch mode: operations on a whole catalog with the sorting put off to the end, against the same
    operations with every list sorted at once. */
module Batch {
  import opened CatalogParts
  import opened CatalogSteps
  import opened Coverage
  import opened History
  import opened NestedLists
  import opened Protocol
  import opened VersionLists

  /** The parts after a run of operations. */
  ghost function AfterAll(key: VersionKey, ordered: bool, ps: PartFiles, ops: seq<Op>): PartFiles {
    if ops == [] then ps else Touch(key, ordered, AfterAll(key, ordered, ps, ops[..|ops| - 1]), ops[|ops| - 1])
  }

  /** Whether a part takes an operation: an add of an unlisted version, a removal of a listed one. */
  ghost predicate Takes(ps: PartFiles, op: Op) {
    forall n :: n in op.parts ==> op.parts[n].version == op.fmri.version
                                  && (op.kind.Add? <==> !Contains(DataOf(ps, n), op.fmri))
  }

  /** Every operation of the run is taken by the parts as they are at that point. */
  ghost predicate TakesAll(key: VersionKey, ordered: bool, ps: PartFiles, ops: seq<Op>) {
    forall k :: 0 <= k < |ops| ==> Takes(AfterAll(key, ordered, ps, ops[..k]), ops[k])
  }

  ghost predicate Clean(ps: PartFiles) {
    forall n :: n in ps ==> NoEmpty(ps[n].data)
  }

  function SortedParts(key: VersionKey, ps: PartFiles): PartFiles {
    map n | n in ps :: PartFile(SortAll(key, ps[n].data), ps[n].lastModified)
  }

  lemma DataOfSorted(key: VersionKey, ps: PartFiles, n: PartName)
    ensures DataOf(SortedParts(key, ps), n) == SortAll(key, DataOf(ps, n))
  {
  }

  lemma SortedContains(key: VersionKey, d: Entries, f: Fmri)
    requires NoEmpty(d)
    ensures Contains(SortAll(key, d), f) <==> Contains(d, f)
  {
    SortAllLists(key, d);
    HasSort(key, ListAt(d, f.pub, f.stem), f.version);
  }

  /** One edit of one part: sorting before it and during it, or only after it. */
  lemma EditSorted(key: VersionKey, kind: Kind, d: Entries, f: Fmri, e: Entry)
    requires NoEmpty(d)
    ensures NoEmpty(Edit(key, false, kind, d, f, e))
    ensures SortAll(key, Edit(key, false, kind, d, f, e)) == Edit(key, true, kind, SortAll(key, d), f, e)
  {
    var l := ListAt(d, f.pub, f.stem);
    var late, soon := Edit(key, false, kind, d, f, e), Edit(key, true, kind, SortAll(key, d), f, e);
    SortAllLists(key, d);
    PutListAt(d, f.pub, f.stem, Changed(key, false, kind, l, e));
    PutListAt(SortAll(key, d), f.pub, f.stem, Changed(key, true, kind, StableSort(key, l), e));
    SortAllLists(key, late);
    SortThenAppend(key, l, e);
    SortDelete(key, l, e.version);
    Extensional(SortAll(key, late), soon);
  }

  lemma {:induction false} TouchSorted(key: VersionKey, ps: PartFiles, op: Op)
    requires Clean(ps)
    ensures Clean(Touch(key, false, ps, op))
    ensures SortedParts(key, Touch(key, false, ps, op)) == Touch(key, true, SortedParts(key, ps), op)
  {
    var late, soon := SortedParts(key, Touch(key, false, ps, op)), Touch(key, true, SortedParts(key, ps), op);
    assert late.Keys == soon.Keys;
    forall n | n in Touch(key, false, ps, op)
      ensures NoEmpty(Touch(key, false, ps, op)[n].data) && late[n] == soon[n]
    {
      if n in op.parts {
        DataOfSorted(key, ps, n);
        EditSorted(key, op.kind, DataOf(ps, n), op.fmri, op.parts[n]);
      }
    }
  }

  lemma {:induction false} RunSorted(key: VersionKey, ps: PartFiles, ops: seq<Op>)
    requires Clean(ps)
    ensures Clean(AfterAll(key, false, ps, ops))
    ensures SortedParts(key, AfterAll(key, false, ps, ops)) == AfterAll(key, true, SortedParts(key, ps), ops)
  {
    if ops != [] {
      RunSorted(key, ps, ops[..|ops| - 1]);
      TouchSorted(key, AfterAll(key, false, ps, ops[..|ops| - 1]), ops[|ops| - 1]);
    }
  }

  lemma {:induction false} TakesSorted(key: VersionKey, ps: PartFiles, op: Op)
    requires Clean(ps)
    ensures Takes(SortedParts(key, ps), op) <==> Takes(ps, op)
  {
    forall n | n in op.parts
      ensures Contains(DataOf(SortedParts(key, ps), n), op.fmri) <==> Contains(DataOf(ps, n), op.fmri)
    {
      DataOfSorted(key, ps, n);
      SortedContains(key, DataOf(ps, n), op.fmri);
    }
  }

  /** The batch mode theorem: over any run of operations from sorted parts, batch mode takes exactly
      the operations that per-operation sorting takes, and once its parts are sorted they are exactly
      the same parts, the order of tying versions included. */
  lemma {:induction false} BatchRefinesPerOperation(key: VersionKey, ps: PartFiles, ops: seq<Op>)
    requires Clean(ps) && SortedParts(key, ps) == ps
    ensures TakesAll(key, false, ps, ops) <==> TakesAll(key, true, ps, ops)
    ensures SortedParts(key, AfterAll(key, false, ps, ops)) == AfterAll(key, true, ps, ops)
  {
    RunSorted(key, ps, ops);
    forall k | 0 <= k < |ops|
      ensures Takes(AfterAll(key, false, ps, ops[..k]), ops[k]) <==> Takes(AfterAll(key, true, ps, ops[..k]), ops[k])
    {
      RunSorted(key, ps, ops[..k]);
      TakesSorted(key, AfterAll(key, false, ps, ops[..k]), ops[k]);
    }
  }

  /** Finalizing sorts the parts in memory only, which is enough: a part that no operation of
      the batch has touched is still sorted. */
  lemma {:induction false} UntouchedStaysSorted(key: VersionKey, ps: PartFiles, ops: seq<Op>, loaded: set<PartName>)
    requires Clean(ps) && SortedParts(key, ps) == ps
    requires forall k :: 0 <= k < |ops| ==> ops[k].parts.Keys <= loaded
    ensures SortIn(key, AfterAll(key, false, ps, ops), loaded) == SortedParts(key, AfterAll(key, false, ps, ops))
  {
    var qs := AfterAll(key, false, ps, ops);
    forall n | n in qs && n !in loaded
      ensures PartFile(SortAll(key, qs[n].data), qs[n].lastModified) == qs[n]
    {
      UntouchedPart(key, ps, ops, n);
      assert SortedParts(key, ps)[n] == ps[n];
    }
  }

  lemma {:induction false} UntouchedPart(key: VersionKey, ps: PartFiles, ops: seq<Op>, n: PartName)
    requires forall k :: 0 <= k < |ops| ==> n !in ops[k].parts
    ensures n in AfterAll(key, false, ps, ops) <==> n in ps
    ensures n in ps ==> AfterAll(key, false, ps, ops)[n] == ps[n]
  {
    if ops != [] {
      UntouchedPart(key, ps, ops[..|ops| - 1], n);
      assert n !in ops[|ops| - 1].parts;
    }
  }

  /** Every operation of the run fits the parts as they are at that point. */
  ghost predicate AllFit(key: VersionKey, ordered: bool, ps: PartFiles, ops: seq<Op>) {
    forall k :: 0 <= k < |ops| ==> Fits(AfterAll(key, ordered, ps, ops[..k]), ops[k])
  }

  /** In batch mode and out of it, a run keeps the parts coherent at every point, and so does the sorting
      that ends a batch. */
  lemma {:induction false} RunCoheres(key: VersionKey, ordered: bool, ps: PartFiles, ops: seq<Op>,
                                      loaded: set<PartName>)
    requires Coherent(ps) && AllFit(key, ordered, ps, ops)
    ensures Coherent(AfterAll(key, ordered, ps, ops)) && Coherent(SortIn(key, AfterAll(key, ordered, ps, ops), loaded))
  {
    if ops != [] {
      var init := ops[..|ops| - 1];
      forall k | 0 <= k < |init|
        ensures Fits(AfterAll(key, ordered, ps, init[..k]), init[k])
      {
        assert init[..k] == ops[..k];
      }
      RunCoheres(key, ordered, ps, init, loaded);
      TouchCoheres(key, ordered, AfterAll(key, ordered, ps, init), ops[|ops| - 1]);
    }
    SortCoheres(key, AfterAll(key, ordered, ps, ops), loaded);
  }
}
