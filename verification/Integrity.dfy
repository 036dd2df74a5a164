/** How a sync can end, and what it guarantees of the parts it leaves: between any two directories,
    whatever is in them. */
module Integrity {
  import opened CatalogParts
  import opened CatalogUpdates
  import opened History
  import opened NestedLists
  import opened Protocol
  import opened ReplaySteps
  import opened VersionLists
  import opened Wrappers

  // ----- Why a sync that reads logs ends as it does

  predicate IsRejection(e: CatalogError) {
    e.DuplicateCatalogEntry? || e.UnknownCatalogEntry?
  }

  /** There is nothing that replaying the logs over the client's part n can give. */
  ghost predicate NoReplay(key: VersionKey, c: Dir, s: Dir, names: seq<LogName>, n: PartName)
    requires c.attrs.Some?
  {
    && n in c.parts && n in c.attrs.value.parts
    && forall d :: !Replayed(key, HasBase(c), s.logs, names, n, c.attrs.value.parts[n].lastModified, c.parts[n].data, d)
  }

  /** Such a sync ends with a rejected change exactly when some part has no replay; any other error is that
      of a signature. */
  lemma RejectedExactly(key: VersionKey, digest: Digest, c: Dir, s: Dir, names: seq<LogName>, c': Dir,
                        r: Result<(), CatalogError>)
    requires c.attrs.Some? && Needed(c.attrs.value, s.attrs, Ok(UpdateLogs(names)))
    requires SyncWith(key, digest, c, s, Ok(UpdateLogs(names)), c', r)
    ensures r.Err? && IsRejection(r.error) <==> exists n :: NoReplay(key, c, s, names, n)
    ensures r.Err? && !IsRejection(r.error) ==> r.error.BadCatalogSignatures? && Checked(c, s, names, r.error.part)
  {
    if n :| n in c.parts && n in c.attrs.value.parts
            && ReplayFails(key, s.logs, names, n, c.attrs.value.parts[n].lastModified, c.parts[n].data)
    {
      FailsWithoutReplay(key, HasBase(c), s.logs, names, n, c.attrs.value.parts[n].lastModified, c.parts[n].data);
      assert NoReplay(key, c, s, names, n);
      FailingRejects(key, c, s, names, n, digest, c', r);
    } else {
      forall n | n in c.parts && n in c.attrs.value.parts
        ensures !NoReplay(key, c, s, names, n)
      {
        var d := ReplayExists(key, HasBase(c), s.logs, names, n, c.attrs.value.parts[n].lastModified, c.parts[n].data);
      }
      NotFailingSigns(key, c, s, names, digest, c', r);
    }
  }

  lemma FailsWithoutReplay(key: VersionKey, sorts: bool, logs: LogFiles, names: seq<LogName>, n: PartName, after: int,
                           d: Entries)
    requires ReplayFails(key, logs, names, n, after, d)
    ensures forall d' :: !Replayed(key, sorts, logs, names, n, after, d, d')
  {
    forall d' | Replayed(key, sorts, logs, names, n, after, d, d')
      ensures false
    {
      ReplayedAccepts(key, sorts, logs, names, n, after, d, d');
    }
  }

  lemma FailingRejects(key: VersionKey, c: Dir, s: Dir, names: seq<LogName>, n: PartName, digest: Digest, c': Dir,
                       r: Result<(), CatalogError>)
    requires c.attrs.Some? && Needed(c.attrs.value, s.attrs, Ok(UpdateLogs(names)))
    requires SyncWith(key, digest, c, s, Ok(UpdateLogs(names)), c', r)
    requires n in c.parts && n in c.attrs.value.parts
    requires ReplayFails(key, s.logs, names, n, c.attrs.value.parts[n].lastModified, c.parts[n].data)
    ensures r.Err? && SyncLogsReject(key, c, s, names, r.error) && IsRejection(r.error)
  {
    assert SyncLogsFail(key, c, s, names);
    if r.Ok? {
      ReplayedAccepts(key, HasBase(c), s.logs, names, n, c.attrs.value.parts[n].lastModified, c.parts[n].data,
                      c'.parts[n].data);
    }
  }

  lemma NotFailingSigns(key: VersionKey, c: Dir, s: Dir, names: seq<LogName>, digest: Digest, c': Dir,
                        r: Result<(), CatalogError>)
    requires c.attrs.Some? && Needed(c.attrs.value, s.attrs, Ok(UpdateLogs(names)))
    requires SyncWith(key, digest, c, s, Ok(UpdateLogs(names)), c', r) && !SyncLogsFail(key, c, s, names)
    ensures r.Err? ==> r.error.BadCatalogSignatures? && Checked(c, s, names, r.error.part)
  {
    if r.Err? && SyncLogsReject(key, c, s, names, r.error) {
      var n :| n in c.parts && n in c.attrs.value.parts
               && ReplayRejects(key, s.logs, names, n, c.attrs.value.parts[n].lastModified, c.parts[n].data, r.error);
      FailsByRejecting(key, s.logs, names, n, c.attrs.value.parts[n].lastModified, c.parts[n].data);
      assert SyncLogsFail(key, c, s, names);
    }
  }

  // ----- What replaying can give

  ghost function PlacesOf<T>(d: Nested<T>): set<(Publisher, string)> {
    set p, s | p in d && s in d[p] :: (p, s)
  }

  ghost function LogPlaces(logs: LogFiles, names: seq<LogName>): set<(Publisher, string)> {
    if names == [] then {}
    else LogPlaces(logs, names[..|names| - 1]) + PlacesOf(LogDataOf(logs, names[|names| - 1]))
  }

  lemma {:induction false} PendingInPlaces(logs: LogFiles, names: seq<LogName>, n: PartName, after: int, p: Publisher,
                                           s: string)
    requires (p, s) !in LogPlaces(logs, names)
    ensures Pending(logs, names, n, after, p, s) == []
  {
    if names != [] {
      var init, l := names[..|names| - 1], names[|names| - 1];
      PendingInPlaces(logs, init, n, after, p, s);
      LogsChangesAppend(StemLogs(logs, init, p, s), ListAt(LogDataOf(logs, l), p, s), n, after);
      assert (p, s) !in PlacesOf(LogDataOf(logs, l));
    }
  }

  /** Part data with the given lists in the given places. */
  lemma {:induction false} FillIn(places: set<(Publisher, string)>, goal: (Publisher, string) -> seq<Entry>)
    returns (d: Entries)
    ensures NoEmpty(d)
    ensures forall p: Publisher, s: string :: ListAt(d, p, s) == if (p, s) in places then goal(p, s) else []
    decreases places
  {
    if places == {} {
      d := map[];
    } else {
      var x :| x in places;
      var e := FillIn(places - {x}, goal);
      PutListAt(e, x.0, x.1, goal(x.0, x.1));
      d := Put(e, x.0, x.1, goal(x.0, x.1));
    }
  }

  ghost function RunList(key: VersionKey, sorts: bool, l: seq<Entry>, cs: seq<Change>): seq<Entry> {
    var r := Run(key, false, l, cs);
    if r.None? then [] else if sorts then StableSort(key, r.value) else r.value
  }

  /** Unless some list rejects a change, there is something that replaying gives. */
  lemma ReplayExists(key: VersionKey, sorts: bool, logs: LogFiles, names: seq<LogName>, n: PartName, after: int,
                     d: Entries)
    returns (d': Entries)
    requires !ReplayFails(key, logs, names, n, after, d)
    ensures Replayed(key, sorts, logs, names, n, after, d, d')
  {
    var places := PlacesOf(d) + LogPlaces(logs, names);
    d' := FillIn(places,
                 (p: Publisher, s: string) => RunList(key, sorts, ListAt(d, p, s),
                                                      Pending(logs, names, n, after, p, s)));
    forall p: Publisher, s: string
      ensures ListAt(d', p, s) == RunList(key, sorts, ListAt(d, p, s), Pending(logs, names, n, after, p, s))
    {
      if (p, s) !in places {
        PendingInPlaces(logs, names, n, after, p, s);
        assert ListAt(d, p, s) == [];
      }
    }
  }

  // ----- Signatures

  /** The parts whose signature a sync with this answer looks at, whatever the client has of them. */
  ghost predicate LookedAt(a: Attrs, logs: LogFiles, answer: Answer, n: PartName) {
    match answer
    case NothingChanged => false
    case UpdateLogs(names) => n == Base || Named(logs, names, n)
    case WholeParts(names) => n == Base && Base in a.parts
  }

  /** The parts that a sync brings or that the client's attributes list. */
  predicate Concerns(a: Attrs, answer: Answer, n: PartName) {
    n in a.parts || (answer.WholeParts? && n in answer.parts)
  }

  /** A sync that succeeds: c and c' are the client's directory before and after, s is what was offered. */
  ghost predicate Succeeds(key: VersionKey, digest: Digest, a: Attrs, b: Attrs, logs: LogFiles, answer: Answer,
                           c: Dir, s: Dir, c': Dir)
    requires Needed(a, Some(b), Ok(answer))
  {
    && c.attrs == Some(a) && c.parts.Keys <= a.parts.Keys
    && s.attrs == Some(b) && s.logs == logs
    && SyncWith(key, digest, c, s, Ok(answer), c', Ok(()))
  }

  /** Whatever the two directories hold, and whatever the digest, part n has the offered signature once the
      sync has succeeded. */
  ghost predicate AlwaysSigned(key: VersionKey, a: Attrs, b: Attrs, logs: LogFiles, answer: Answer, n: PartName)
    requires Needed(a, Some(b), Ok(answer))
  {
    forall digest, c, s, c' :: Succeeds(key, digest, a, b, logs, answer, c, s, c') && n in c'.parts ==>
      SignatureHolds(digest, b, n, c'.parts[n].data)
  }

  /** A sync guarantees the signature of exactly the parts it looks at, and of those without one. */
  lemma SignedExactly(key: VersionKey, a: Attrs, b: Attrs, logs: LogFiles, answer: Answer, n: PartName)
    requires Needed(a, Some(b), Ok(answer)) && answer != NothingChanged && Concerns(a, answer, n)
    ensures n in b.parts
    ensures AlwaysSigned(key, a, b, logs, answer, n) <==> b.parts[n].signature.None? || LookedAt(a, logs, answer, n)
  {
    ConcernedIsOffered(a, b, answer, n);
    if b.parts[n].signature.None? || LookedAt(a, logs, answer, n) {
      forall digest, c, s, c' | Succeeds(key, digest, a, b, logs, answer, c, s, c') && n in c'.parts
        ensures SignatureHolds(digest, b, n, c'.parts[n].data)
      {
      }
    } else {
      var digest, c, s, c' := Unsigned(key, a, b, logs, answer, n);
    }
  }

  lemma ConcernedIsOffered(a: Attrs, b: Attrs, answer: Answer, n: PartName)
    requires Needed(a, Some(b), Ok(answer)) && answer != NothingChanged && Concerns(a, answer, n)
    ensures n in b.parts && (answer.WholeParts? ==> answer.parts <= b.parts.Keys)
  {
  }

  const SomeEntries: Entries := map["p" := map["s" := [Entry("1", map[], map[], [])]]]

  lemma SomeEntriesAre()
    ensures NoEmpty(SomeEntries) && SomeEntries != map[]
  {
    assert "p" in SomeEntries && "s" in SomeEntries["p"];
  }

  /** The digest that the base part has when empty is the one offered; that of part n with some entries is not. */
  function Forged(b: Attrs, n: PartName): Digest
    requires n in b.parts && b.parts[n].signature.Some?
  {
    d => if d == SomeEntries then b.parts[n].signature.value + "x"
         else if Base in b.parts && b.parts[Base].signature.Some? then b.parts[Base].signature.value else ""
  }

  /** A client that has only the part that is not looked at, if it is not to be copied, and a server that
      offers only what is to be copied. */
  lemma Unsigned(key: VersionKey, a: Attrs, b: Attrs, logs: LogFiles, answer: Answer, n: PartName)
    returns (digest: Digest, c: Dir, s: Dir, c': Dir)
    requires Needed(a, Some(b), Ok(answer)) && answer != NothingChanged && Concerns(a, answer, n)
    requires n in b.parts && b.parts[n].signature.Some? && !LookedAt(a, logs, answer, n)
    ensures Succeeds(key, digest, a, b, logs, answer, c, s, c') && n in c'.parts
    ensures !SignatureHolds(digest, b, n, c'.parts[n].data)
  {
    digest := Forged(b, n);
    match answer
    case UpdateLogs(names) =>
      c, s, c' := UnsignedByLogs(key, a, b, logs, names, n);
    case WholeParts(names) =>
      c, s, c' := UnsignedByParts(key, a, b, logs, names, n);
  }

  lemma UnsignedByLogs(key: VersionKey, a: Attrs, b: Attrs, logs: LogFiles, names: seq<LogName>, n: PartName)
    returns (c: Dir, s: Dir, c': Dir)
    requires Needed(a, Some(b), Ok(UpdateLogs(names))) && n in a.parts
    requires n in b.parts && b.parts[n].signature.Some? && !LookedAt(a, logs, UpdateLogs(names), n)
    ensures Succeeds(key, Forged(b, n), a, b, logs, UpdateLogs(names), c, s, c') && n in c'.parts
    ensures !SignatureHolds(Forged(b, n), b, n, c'.parts[n].data)
  {
    SomeEntriesAre();
    var held := map[n := PartFile(SomeEntries, 0)];
    c, s, c' := Dir(Some(a), held, map[]), Dir(Some(b), map[], logs), Dir(Some(b), held, map[]);
    NothingPending(key, HasBase(c), logs, names, n, a.parts[n].lastModified, SomeEntries);
  }

  function Offering(b: Attrs, logs: LogFiles, names: set<PartName>, n: PartName): Dir {
    Dir(Some(b), map m | m in names :: PartFile(if m == n then SomeEntries else map[], 0), logs)
  }

  function Holding(a: Attrs, names: set<PartName>, n: PartName): Dir {
    Dir(Some(a), if n in names then map[] else map[n := PartFile(SomeEntries, 0)], map[])
  }

  lemma OfferingSigned(key: VersionKey, a: Attrs, b: Attrs, logs: LogFiles, names: set<PartName>, n: PartName)
    requires n in b.parts && b.parts[n].signature.Some? && !LookedAt(a, logs, WholeParts(names), n)
    requires names <= b.parts.Keys
    ensures BaseSigned(key, Forged(b, n), Holding(a, names, n), Offering(b, logs, names, n), names)
  {
    SomeEntriesAre();
    SortAllNothing(key);
  }

  lemma UnsignedByParts(key: VersionKey, a: Attrs, b: Attrs, logs: LogFiles, names: set<PartName>, n: PartName)
    returns (c: Dir, s: Dir, c': Dir)
    requires Needed(a, Some(b), Ok(WholeParts(names))) && (n in a.parts || n in names)
    requires n in b.parts && b.parts[n].signature.Some? && !LookedAt(a, logs, WholeParts(names), n)
    ensures Succeeds(key, Forged(b, n), a, b, logs, WholeParts(names), c, s, c') && n in c'.parts
    ensures !SignatureHolds(Forged(b, n), b, n, c'.parts[n].data)
  {
    c, s := Holding(a, names, n), Offering(b, logs, names, n);
    c' := Dir(Some(b), CopiedParts(key, c, s, names), map[]);
    ConcernedIsOffered(a, b, WholeParts(names), n);
    OfferingSigned(key, a, b, logs, names, n);
    CopiedPartsAre(key, c, s, names);
    assert c'.parts[n].data == SomeEntries;
  }

  lemma SortAllNothing(key: VersionKey)
    ensures SortAll(key, map[]) == map[]
  {
  }

  lemma NothingPending(key: VersionKey, sorts: bool, logs: LogFiles, names: seq<LogName>, n: PartName, after: int,
                       d: Entries)
    requires NoEmpty(d) && !Named(logs, names, n)
    ensures Replayed(key, sorts, logs, names, n, after, d, d)
  {
    forall p: Publisher, s: string
      ensures Pending(logs, names, n, after, p, s) == []
    {
      if Pending(logs, names, n, after, p, s) != [] {
        PendingNamed(logs, names, n, after, p, s);
      }
    }
  }

  /** So a part that is looked at, if no other data has the digest of the published part, is that part. */
  lemma LookedAtIsThePublished(key: VersionKey, digest: Digest, a: Attrs, b: Attrs, logs: LogFiles, answer: Answer,
                               c: Dir, s: Dir, c': Dir, n: PartName)
    requires Needed(a, Some(b), Ok(answer)) && Succeeds(key, digest, a, b, logs, answer, c, s, c')
    requires n in c'.parts && Concerns(a, answer, n) && LookedAt(a, logs, answer, n)
    requires n in b.parts && n in s.parts && b.parts[n].signature == Some(digest(s.parts[n].data))
    requires forall d :: digest(d) == digest(s.parts[n].data) ==> d == s.parts[n].data
    ensures c'.parts[n].data == s.parts[n].data
  {
    SignedExactly(key, a, b, logs, answer, n);
  }

  // ----- A full update that fails

  /** ps holds what the client had, but for parts that are to be copied. */
  ghost predicate SameBut(c: Dir, ps: PartFiles, names: set<PartName>) {
    && ps.Keys + names == c.parts.Keys + names
    && forall n :: n in c.parts && n !in names ==> n in ps && ps[n] == c.parts[n]
  }

  lemma SameCopies(key: VersionKey, digest: Digest, c: Dir, c': Dir, s: Dir, names: set<PartName>, ps: PartFiles)
    requires c.attrs.Some? && c'.attrs == c.attrs && SameBut(c, c'.parts, names) && names <= s.parts.Keys
    ensures CopiedOver(key, c', s, names, ps) <==> CopiedOver(key, c, s, names, ps)
    ensures BaseSigned(key, digest, c', s, names) <==> BaseSigned(key, digest, c, s, names)
  {
    assert forall n :: n !in names ==> (n in c'.parts <==> n in c.parts);
  }

  lemma FailedCopies(key: VersionKey, digest: Digest, c: Dir, s: Dir, names: set<PartName>, ps: PartFiles,
                     e: CatalogError, more: set<PartName>)
    requires c.attrs.Some? && CopiesRefused(key, digest, c, s, names, ps, e) && names <= more
    ensures SameBut(c, ps, more)
  {
    var done :| done <= names && ps == c.parts + OnlyIn(s.parts, done);
    assert forall n :: n !in more ==> (n in ps <==> n in c.parts);
  }

  /** A full update that has failed leaves some parts of the new catalog beside the old attributes.  The
      next full update that has at least those parts to copy is none the worse for it: it can do
      exactly what it could have done before... */
  lemma RetryIsUnharmed(key: VersionKey, digest: Digest, c: Dir, s: Dir, names: set<PartName>, c': Dir, e: CatalogError,
                        s2: Dir, names2: set<PartName>, c2: Dir)
    requires c.attrs.Some? && Needed(c.attrs.value, s.attrs, Ok(WholeParts(names)))
    requires SyncWith(key, digest, c, s, Ok(WholeParts(names)), c', Err(e))
    requires Needed(c.attrs.value, s2.attrs, Ok(WholeParts(names2))) && names <= names2
    ensures c'.attrs == c.attrs
    ensures SyncWith(key, digest, c', s2, Ok(WholeParts(names2)), c2, Ok(()))
       <==> SyncWith(key, digest, c, s2, Ok(WholeParts(names2)), c2, Ok(()))
  {
    FailedCopies(key, digest, c, s, names, c'.parts, e, names2);
    if names2 <= s2.parts.Keys {
      SameCopies(key, digest, c, c', s2, names2, c2.parts);
    }
  }

  /** The same catalog later: its parts have not become older, and it does not list logs again that it
      once did not list. */
  predicate Later(a: Attrs, b: Attrs, b2: Attrs) {
    && b2.created == b.created && b2.lastModified != a.lastModified
    && (forall n :: n in b.parts ==> n in b2.parts && b.parts[n].lastModified <= b2.parts[n].lastModified)
    && (forall n :: n in a.parts && BoundaryLog(a, n) in b2.updates ==> BoundaryLog(a, n) in b.updates)
  }

  /** ... and as long as it is the same catalog, the next update is of that kind. */
  lemma FullAgain(a: Attrs, b: Attrs, b2: Attrs, names: set<PartName>, r: Result<Answer, CatalogError>)
    requires Needed(a, Some(b), Ok(WholeParts(names))) && names != {} && Later(a, b, b2)
    requires Needed(a, Some(b2), r)
    ensures r.Ok? && r.value.WholeParts? && names <= r.value.parts
  {
    ChangesGrow(a, b, b2);
  }

  lemma ChangesGrow(a: Attrs, b: Attrs, b2: Attrs)
    requires Later(a, b, b2)
    ensures ChangedParts(a, b) <= ChangedParts(a, b2) && NewParts(a, b) <= NewParts(a, b2)
    ensures Incremental(a, b2) ==> Incremental(a, b)
  {
    assert LocalesOf(ChangedParts(a, b)) <= LocalesOf(ChangedParts(a, b2));
  }
}
