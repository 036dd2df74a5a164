/** What replaying update logs step by step adds up to: one update after another, each touching
    some parts, read from one log after another. */
module ReplaySteps {
  import opened CatalogParts
  import opened CatalogSteps
  import opened CatalogUpdates
  import opened History
  import opened NestedLists
  import opened Protocol
  import opened VersionLists
  import opened Wrappers

  /** How far the replay is: through the logs named, and through these updates of the next one. */
  datatype Progress = Progress(names: seq<LogName>, us: seq<Update>)

  /** The unseen changes of one list met so far. */
  ghost function Met(logs: LogFiles, at: Progress, n: PartName, after: int, p: Publisher, s: string): seq<Change> {
    Pending(logs, at.names, n, after, p, s) + PartChanges(ForStem(at.us, p, s), n, after)
  }

  /** The part has got from d to d' by the changes met so far; unless it is loaded, there were none. */
  ghost predicate InStep(key: VersionKey, logs: LogFiles, at: Progress, n: PartName, after: int, loaded: bool,
                         d: Entries, d': Entries)
  {
    && NoEmpty(d')
    && (forall p: Publisher, s: string ::
          Run(key, false, ListAt(d, p, s), Met(logs, at, n, after, p, s)) == Some(ListAt(d', p, s)))
    && (!loaded ==> d' == d && forall p: Publisher, s: string :: Met(logs, at, n, after, p, s) == [])
  }

  /** Some list has just rejected a change, with error e. */
  ghost predicate Stuck(key: VersionKey, logs: LogFiles, at: Progress, n: PartName, after: int, d: Entries,
                        e: CatalogError)
  {
    exists p: Publisher, s: string :: RejectsLast(key, ListAt(d, p, s), Met(logs, at, n, after, p, s), p, s, e)
  }

  ghost predicate RejectsLast(key: VersionKey, l: seq<Entry>, cs: seq<Change>, p: Publisher, s: string, e: CatalogError)
  {
    cs != [] && RejectsAt(key, l, cs, |cs| - 1) && e == RefusalOf(p, s, cs[|cs| - 1])
  }

  function Further(at: Progress, u: Update): Progress {
    at.(us := at.us + [u])
  }

  /** The change one update makes to part n. */
  function ChangeOf(u: Update, n: PartName): Change
    requires n in u.parts
  {
    Change(u.kind, u.parts[n].(version := u.fmri.version))
  }

  predicate Unseen(u: Update, n: PartName, after: int) {
    n in u.parts && u.time > after
  }

  /** What one update says about one list of part n. */
  ghost function ChangesOf(u: Update, n: PartName, after: int, p: Publisher, s: string): seq<Change> {
    if Unseen(u, n, after) && u.fmri.pub == p && u.fmri.stem == s then [ChangeOf(u, n)] else []
  }

  lemma NothingMore<T>(s: seq<T>)
    ensures s + [] == s
  {
  }

  lemma Associates<T>(a: seq<T>, b: seq<T>, c: seq<T>)
    ensures a + (b + c) == (a + b) + c
  {
  }

  lemma UpdateAppend(us: seq<Update>, u: Update, n: PartName, after: int, p: Publisher, s: string)
    ensures PartChanges(ForStem(us + [u], p, s), n, after)
         == PartChanges(ForStem(us, p, s), n, after) + ChangesOf(u, n, after, p, s)
  {
    assert (us + [u])[..|us|] == us;
    var es, e := ForStem(us, p, s), LogEntry(u.kind, u.time, u.fmri.version, u.parts);
    NothingMore(es);
    NothingMore(PartChanges(es, n, after));
    if u.fmri.pub == p && u.fmri.stem == s {
      assert ForStem(us + [u], p, s) == es + [e];
      PartChangesAppend(es, e, n, after);
      assert OneChange(e, n, after) == ChangesOf(u, n, after, p, s);
    }
  }

  lemma MetFurther(logs: LogFiles, at: Progress, u: Update, n: PartName, after: int, p: Publisher, s: string)
    ensures Met(logs, Further(at, u), n, after, p, s) == Met(logs, at, n, after, p, s) + ChangesOf(u, n, after, p, s)
  {
    UpdateAppend(at.us, u, n, after, p, s);
    Associates(Pending(logs, at.names, n, after, p, s), PartChanges(ForStem(at.us, p, s), n, after),
               ChangesOf(u, n, after, p, s));
  }

  /** An update that does not concern the part, or that it has seen. */
  lemma StepPast(key: VersionKey, logs: LogFiles, at: Progress, u: Update, n: PartName, after: int, loaded: bool,
                 d: Entries, d': Entries)
    requires InStep(key, logs, at, n, after, loaded, d, d') && !Unseen(u, n, after)
    ensures InStep(key, logs, Further(at, u), n, after, loaded, d, d')
  {
    forall p: Publisher, s: string
      ensures Met(logs, Further(at, u), n, after, p, s) == Met(logs, at, n, after, p, s)
    {
      MetFurther(logs, at, u, n, after, p, s);
    }
  }

  /** An unseen update of the part that its list rejects... */
  lemma StepStuck(key: VersionKey, logs: LogFiles, at: Progress, u: Update, n: PartName, after: int, loaded: bool,
                  d: Entries, d': Entries)
    requires InStep(key, logs, at, n, after, loaded, d, d') && Unseen(u, n, after)
    requires u.kind.Add? <==> Contains(d', u.fmri)
    ensures Stuck(key, logs, Further(at, u), n, after, d, RefusalOf(u.fmri.pub, u.fmri.stem, ChangeOf(u, n)))
  {
    var f := u.fmri;
    OneListOn(key, logs, at, u, n, after, d, ListAt(d', f.pub, f.stem), f.pub, f.stem);
    MetFurther(logs, at, u, n, after, f.pub, f.stem);
    LastRejected(key, ListAt(d, f.pub, f.stem), Met(logs, at, n, after, f.pub, f.stem), ChangeOf(u, n), f.pub, f.stem);
  }

  lemma LastRejected(key: VersionKey, l: seq<Entry>, cs: seq<Change>, c: Change, p: Publisher, s: string)
    requires Run(key, false, l, cs).Some? && Run(key, false, l, cs + [c]).None?
    ensures RejectsLast(key, l, cs + [c], p, s, RefusalOf(p, s, c))
  {
    assert (cs + [c])[..|cs|] == cs && (cs + [c])[..|cs| + 1] == cs + [c];
  }

  /** ... and one that is one more change of one list. */
  lemma StepOn(key: VersionKey, logs: LogFiles, at: Progress, u: Update, n: PartName, after: int, loaded: bool,
               d: Entries, d': Entries)
    requires InStep(key, logs, at, n, after, loaded, d, d') && Unseen(u, n, after)
    requires u.kind.Add? <==> !Contains(d', u.fmri)
    ensures InStep(key, logs, Further(at, u), n, after, true, d,
                   Edit(key, false, u.kind, d', u.fmri, ChangeOf(u, n).entry))
  {
    var f, e := u.fmri, ChangeOf(u, n).entry;
    var l := Changed(key, false, u.kind, ListAt(d', f.pub, f.stem), e);
    PutListAt(d', f.pub, f.stem, l);
    forall p: Publisher, s: string
      ensures Run(key, false, ListAt(d, p, s), Met(logs, Further(at, u), n, after, p, s))
           == Some(if p == f.pub && s == f.stem then l else ListAt(d', p, s))
    {
      OneListOn(key, logs, at, u, n, after, d, ListAt(d', p, s), p, s);
      ChangeApplies(key, ListAt(d', f.pub, f.stem), u, n);
    }
  }

  lemma ChangeApplies(key: VersionKey, l: seq<Entry>, u: Update, n: PartName)
    requires n in u.parts && (u.kind.Add? <==> !Has(l, u.fmri.version))
    ensures Apply(key, false, l, ChangeOf(u, n)) == Some(Changed(key, false, u.kind, l, ChangeOf(u, n).entry))
  {
  }

  lemma OneListOn(key: VersionKey, logs: LogFiles, at: Progress, u: Update, n: PartName, after: int,
                  d: Entries, l: seq<Entry>, p: Publisher, s: string)
    requires Unseen(u, n, after)
    requires Run(key, false, ListAt(d, p, s), Met(logs, at, n, after, p, s)) == Some(l)
    ensures Run(key, false, ListAt(d, p, s), Met(logs, Further(at, u), n, after, p, s))
         == if u.fmri.pub == p && u.fmri.stem == s then Apply(key, false, l, ChangeOf(u, n)) else Some(l)
  {
    MetFurther(logs, at, u, n, after, p, s);
    var met := Met(logs, at, n, after, p, s);
    assert (met + [ChangeOf(u, n)])[..|met|] == met && met + [] == met;
  }

  // ----- All parts

  /** Something read so far is about part n. */
  ghost predicate NamedSoFar(logs: LogFiles, at: Progress, n: PartName) {
    Named(logs, at.names, n) || NamedIn(at.us, n)
  }

  ghost predicate NamedIn(us: seq<Update>, n: PartName) {
    exists i :: 0 <= i < |us| && n in us[i].parts
  }

  /** In memory are the parts that something read so far is about, and those the update at hand has
      got to; the others are as they were. */
  ghost predicate Loaded(logs: LogFiles, at: Progress, done: set<PartName>, loaded: set<PartName>, was: PartFiles,
                         ps: PartFiles)
  {
    && ps.Keys == was.Keys
    && forall n :: n in was ==>
         && (n in loaded <==> NamedSoFar(logs, at, n) || n in done)
         && (n !in loaded ==> ps[n] == was[n])
  }

  /** Every part has followed the changes met: through the update u as well, if it is done. */
  ghost predicate AllInStep(key: VersionKey, logs: LogFiles, at: Progress, u: Update, done: set<PartName>,
                            times: map<PartName, PartAttr>, loaded: set<PartName>, was: PartFiles, ps: PartFiles)
  {
    && Loaded(logs, at, done, loaded, was, ps) && was.Keys <= times.Keys
    && forall n :: n in was ==>
         InStep(key, logs, if n in done then Further(at, u) else at, n, times[n].lastModified, n in loaded,
                was[n].data, ps[n].data)
  }

  ghost predicate AllAt(key: VersionKey, logs: LogFiles, at: Progress, times: map<PartName, PartAttr>,
                        loaded: set<PartName>, was: PartFiles, ps: PartFiles)
  {
    && Loaded(logs, at, {}, loaded, was, ps) && was.Keys <= times.Keys
    && forall n :: n in was ==>
         InStep(key, logs, at, n, times[n].lastModified, n in loaded, was[n].data, ps[n].data)
  }

  ghost predicate SomeStuck(key: VersionKey, logs: LogFiles, at: Progress, times: map<PartName, PartAttr>,
                            was: PartFiles, e: CatalogError)
  {
    exists n :: n in was && n in times && Stuck(key, logs, at, n, times[n].lastModified, was[n].data, e)
  }

  lemma NamedFurther(logs: LogFiles, at: Progress, u: Update, n: PartName)
    ensures NamedSoFar(logs, Further(at, u), n) <==> NamedSoFar(logs, at, n) || n in u.parts
  {
    var us := at.us + [u];
    assert us[|at.us|] == u;
    assert NamedIn(at.us, n) ==> NamedIn(us, n) by {
      forall i | 0 <= i < |at.us| ensures us[i] == at.us[i] {}
    }
  }

  lemma UpdateDone(key: VersionKey, logs: LogFiles, at: Progress, u: Update,
                   times: map<PartName, PartAttr>, loaded: set<PartName>, was: PartFiles, ps: PartFiles)
    requires AllInStep(key, logs, at, u, u.parts.Keys, times, loaded, was, ps)
    ensures AllAt(key, logs, Further(at, u), times, loaded, was, ps)
  {
    forall n | n in was
      ensures InStep(key, logs, Further(at, u), n, times[n].lastModified, n in loaded, was[n].data, ps[n].data)
      ensures NamedSoFar(logs, Further(at, u), n) <==> n in loaded
    {
      NamedFurther(logs, at, u, n);
      if n !in u.parts {
        StepPast(key, logs, at, u, n, times[n].lastModified, n in loaded, was[n].data, ps[n].data);
      }
    }
  }

  /** One more part has followed update u. */
  lemma PartDone(key: VersionKey, logs: LogFiles, at: Progress, u: Update, done: set<PartName>,
                 times: map<PartName, PartAttr>,
                 loaded: set<PartName>, was: PartFiles, ps: PartFiles, n: PartName, file: PartFile)
    requires AllInStep(key, logs, at, u, done, times, loaded, was, ps)
    requires n in was && InStep(key, logs, Further(at, u), n, times[n].lastModified, true, was[n].data, file.data)
    ensures AllInStep(key, logs, at, u, done + {n}, times, loaded + {n}, was, ps[n := file])
  {
  }

  /** The updates of a whole log. */
  ghost predicate Reads(logs: LogFiles, l: LogName, us: seq<Update>) {
    forall p: Publisher, s: string :: ForStem(us, p, s) == ListAt(LogDataOf(logs, l), p, s)
  }

  lemma LogRead(logs: LogFiles, names: seq<LogName>, l: LogName, us: seq<Update>, n: PartName, after: int,
                p: Publisher, s: string)
    requires Reads(logs, l, us)
    ensures Met(logs, Progress(names + [l], []), n, after, p, s) == Met(logs, Progress(names, us), n, after, p, s)
  {
    assert (names + [l])[..|names|] == names;
    LogsChangesAppend(StemLogs(logs, names, p, s), ListAt(LogDataOf(logs, l), p, s), n, after);
    var all := Pending(logs, names + [l], n, after, p, s);
    assert all + [] == all;
  }

  ghost predicate NamedUnder(us: seq<Update>, p: Publisher, s: string, n: PartName) {
    exists e :: e in ForStem(us, p, s) && n in e.parts
  }

  /** What a run of updates is about is found under the stems... */
  lemma {:induction false} ForStemNames(us: seq<Update>, i: nat, n: PartName)
    requires i < |us| && n in us[i].parts
    ensures NamedUnder(us, us[i].fmri.pub, us[i].fmri.stem, n)
  {
    var init, u, f := us[..|us| - 1], us[|us| - 1], us[i].fmri;
    if i == |init| {
      assert LogEntry(u.kind, u.time, u.fmri.version, u.parts) in ForStem(us, f.pub, f.stem);
    } else {
      ForStemNames(init, i, n);
      assert forall e :: e in ForStem(init, f.pub, f.stem) ==> e in ForStem(us, f.pub, f.stem);
    }
  }

  /** ... and nothing else is. */
  lemma {:induction false} NamesForStem(us: seq<Update>, p: Publisher, s: string, n: PartName)
    requires NamedUnder(us, p, s, n)
    ensures NamedIn(us, n)
  {
    var e :| e in ForStem(us, p, s) && n in e.parts;
    var init, u := us[..|us| - 1], us[|us| - 1];
    assert init + [u] == us;
    NamedFurther(map[], Progress([], init), u, n);
    if n !in u.parts {
      assert e in ForStem(init, p, s);
      NamesForStem(init, p, s, n);
    }
  }

  lemma LogReadNames(logs: LogFiles, l: LogName, us: seq<Update>, n: PartName)
    requires Reads(logs, l, us)
    ensures LogNames(logs, l, n) <==> NamedIn(us, n)
  {
    if NamedIn(us, n) {
      var i :| 0 <= i < |us| && n in us[i].parts;
      ForStemNames(us, i, n);
      var f := us[i].fmri;
      var e :| e in ForStem(us, f.pub, f.stem) && n in e.parts;
      assert e in ListAt(LogDataOf(logs, l), f.pub, f.stem);
    }
    if LogNames(logs, l, n) {
      var p: Publisher, s: string, e :| e in ListAt(LogDataOf(logs, l), p, s) && n in e.parts;
      assert e in ForStem(us, p, s);
      NamesForStem(us, p, s, n);
    }
  }

  lemma NamedLog(logs: LogFiles, names: seq<LogName>, l: LogName, us: seq<Update>, n: PartName)
    requires Reads(logs, l, us)
    ensures NamedSoFar(logs, Progress(names + [l], []), n) <==> NamedSoFar(logs, Progress(names, us), n)
  {
    LogReadNames(logs, l, us, n);
    assert l in names + [l];
  }

  lemma LogDone(key: VersionKey, logs: LogFiles, names: seq<LogName>, l: LogName, us: seq<Update>,
                times: map<PartName, PartAttr>, loaded: set<PartName>, was: PartFiles, ps: PartFiles)
    requires AllAt(key, logs, Progress(names, us), times, loaded, was, ps) && Reads(logs, l, us)
    ensures AllAt(key, logs, Progress(names + [l], []), times, loaded, was, ps)
  {
    forall n, p: Publisher, s: string | n in was
      ensures Met(logs, Progress(names + [l], []), n, times[n].lastModified, p, s)
           == Met(logs, Progress(names, us), n, times[n].lastModified, p, s)
    {
      LogRead(logs, names, l, us, n, times[n].lastModified, p, s);
    }
    forall n | n in was
      ensures NamedSoFar(logs, Progress(names + [l], []), n) <==> n in loaded
    {
      NamedLog(logs, names, l, us, n);
    }
  }

  // ----- Getting stuck

  lemma MetMore(logs: LogFiles, names: seq<LogName>, us: seq<Update>, vs: seq<Update>, n: PartName, after: int,
                p: Publisher, s: string)
    ensures Met(logs, Progress(names, us), n, after, p, s) <= Met(logs, Progress(names, us + vs), n, after, p, s)
  {
    ForStemConcat(us, vs, p, s);
    PartChangesConcat(ForStem(us, p, s), ForStem(vs, p, s), n, after);
  }

  lemma {:induction false} PendingMore(logs: LogFiles, names: seq<LogName>, k: nat, n: PartName, after: int,
                                       p: Publisher, s: string)
    requires k <= |names|
    ensures Pending(logs, names[..k], n, after, p, s) <= Pending(logs, names, n, after, p, s)
    decreases |names|
  {
    if k == |names| {
      assert names[..k] == names;
    } else {
      var init, l := names[..|names| - 1], names[|names| - 1];
      assert init[..k] == names[..k];
      PendingMore(logs, init, k, n, after, p, s);
      LogsChangesAppend(StemLogs(logs, init, p, s), ListAt(LogDataOf(logs, l), p, s), n, after);
    }
  }

  lemma RejectedPrefix(key: VersionKey, l: seq<Entry>, cs: seq<Change>, ds: seq<Change>, p: Publisher, s: string,
                       e: CatalogError)
    requires cs <= ds && RejectsLast(key, l, cs, p, s, e)
    ensures RejectsAt(key, l, ds, |cs| - 1) && ds[|cs| - 1] == cs[|cs| - 1]
  {
    var k := |cs| - 1;
    assert ds[..k] == cs[..k] && ds[..k + 1] == cs[..k + 1];
  }

  lemma MetPrefix(logs: LogFiles, names: seq<LogName>, k: nat, us: seq<Update>, i: nat, n: PartName, after: int,
                  p: Publisher, s: string)
    requires k < |names| && Reads(logs, names[k], us) && i <= |us|
    ensures Met(logs, Progress(names[..k], us[..i]), n, after, p, s) <= Pending(logs, names, n, after, p, s)
  {
    assert us[..i] + us[i..] == us && names[..k + 1] == names[..k] + [names[k]];
    MetMore(logs, names[..k], us[..i], us[i..], n, after, p, s);
    LogRead(logs, names[..k], names[k], us, n, after, p, s);
    PendingMore(logs, names, k + 1, n, after, p, s);
    var met := Pending(logs, names[..k + 1], n, after, p, s);
    assert met + [] == met;
  }

  lemma StuckPart(key: VersionKey, logs: LogFiles, names: seq<LogName>, k: nat, us: seq<Update>, i: nat, n: PartName,
                  after: int, d: Entries, e: CatalogError)
    requires k < |names| && Reads(logs, names[k], us) && i <= |us|
    requires Stuck(key, logs, Progress(names[..k], us[..i]), n, after, d, e)
    ensures ReplayRejects(key, logs, names, n, after, d, e)
  {
    var p: Publisher, s: string :|
      RejectsLast(key, ListAt(d, p, s), Met(logs, Progress(names[..k], us[..i]), n, after, p, s), p, s, e);
    MetPrefix(logs, names, k, us, i, n, after, p, s);
    var met := Met(logs, Progress(names[..k], us[..i]), n, after, p, s);
    RejectedPrefix(key, ListAt(d, p, s), met, Pending(logs, names, n, after, p, s), p, s, e);
  }

  /** Stuck in the middle of a log is stuck for good. */
  lemma StuckFails(key: VersionKey, logs: LogFiles, names: seq<LogName>, k: nat, us: seq<Update>, i: nat,
                   times: map<PartName, PartAttr>, was: PartFiles, e: CatalogError)
    requires k < |names| && Reads(logs, names[k], us) && i <= |us|
    requires SomeStuck(key, logs, Progress(names[..k], us[..i]), times, was, e)
    ensures SomeRejects(key, logs, names, times, was, e)
  {
    var n :| n in was && n in times
             && Stuck(key, logs, Progress(names[..k], us[..i]), n, times[n].lastModified, was[n].data, e);
    StuckPart(key, logs, names, k, us, i, n, times[n].lastModified, was[n].data, e);
  }

  ghost predicate SomeRejects(key: VersionKey, logs: LogFiles, names: seq<LogName>, times: map<PartName, PartAttr>,
                              was: PartFiles, e: CatalogError)
  {
    exists n :: n in was && n in times && ReplayRejects(key, logs, names, n, times[n].lastModified, was[n].data, e)
  }

  /** A list that rejects a change fails, and one that fails rejects some change. */
  lemma FailsByRejecting(key: VersionKey, logs: LogFiles, names: seq<LogName>, n: PartName, after: int, d: Entries)
    ensures ReplayFails(key, logs, names, n, after, d) <==> exists e :: ReplayRejects(key, logs, names, n, after, d, e)
  {
    if ReplayFails(key, logs, names, n, after, d) {
      var p: Publisher, s: string :| Run(key, false, ListAt(d, p, s), Pending(logs, names, n, after, p, s)).None?;
      var cs := Pending(logs, names, n, after, p, s);
      var k := FirstRejected(key, ListAt(d, p, s), cs);
      assert ReplayRejects(key, logs, names, n, after, d, RefusalOf(p, s, cs[k]));
    }
    forall p: Publisher, s: string, k: nat | RejectsAt(key, ListAt(d, p, s), Pending(logs, names, n, after, p, s), k)
      ensures ReplayFails(key, logs, names, n, after, d)
    {
      RunPrefix(key, false, ListAt(d, p, s), Pending(logs, names, n, after, p, s), k + 1);
    }
  }

  lemma {:induction false} FirstRejected(key: VersionKey, l: seq<Entry>, cs: seq<Change>) returns (k: nat)
    requires Run(key, false, l, cs).None?
    ensures RejectsAt(key, l, cs, k)
  {
    var init := cs[..|cs| - 1];
    if Run(key, false, l, init).None? {
      k := FirstRejected(key, l, init);
      assert init[..k] == cs[..k] && init[..k + 1] == cs[..k + 1];
    } else {
      k := |cs| - 1;
      assert cs[..k + 1] == cs;
    }
  }

  // ----- Start and end

  lemma AllAtStart(key: VersionKey, logs: LogFiles, times: map<PartName, PartAttr>, was: PartFiles)
    requires was.Keys <= times.Keys && forall n :: n in was ==> NoEmpty(was[n].data)
    ensures AllAt(key, logs, Progress([], []), times, {}, was, was)
  {
  }

  /** A part that the logs have something unseen for is in memory. */
  lemma UnseenIsNamed(logs: LogFiles, names: seq<LogName>, n: PartName, after: int)
    requires HasUnseen(logs, names, n, after)
    ensures Named(logs, names, n)
  {
    var p: Publisher, s: string :| Pending(logs, names, n, after, p, s) != [];
    PendingNamed(logs, names, n, after, p, s);
  }

  lemma {:induction false} PendingNamed(logs: LogFiles, names: seq<LogName>, n: PartName, after: int, p: Publisher,
                                        s: string)
    requires Pending(logs, names, n, after, p, s) != []
    ensures Named(logs, names, n)
  {
    if names != [] {
      var init, l := names[..|names| - 1], names[|names| - 1];
      var es := ListAt(LogDataOf(logs, l), p, s);
      LogsChangesAppend(StemLogs(logs, init, p, s), es, n, after);
      if Pending(logs, init, n, after, p, s) != [] {
        PendingNamed(logs, init, n, after, p, s);
        assert forall m :: m in init ==> m in names;
      } else {
        ChangeNamed(es, n, after);
        assert LogNames(logs, l, n) && l in names;
      }
    }
  }

  lemma {:induction false} ChangeNamed(es: seq<LogEntry>, n: PartName, after: int)
    requires PartChanges(es, n, after) != []
    ensures exists e :: e in es && n in e.parts
  {
    if es != [] {
      var init, e := es[..|es| - 1], es[|es| - 1];
      assert init + [e] == es;
      PartChangesAppend(init, e, n, after);
      if PartChanges(init, n, after) != [] {
        ChangeNamed(init, n, after);
        assert forall f :: f in init ==> f in es;
      } else {
        assert e in es;
      }
    }
  }

  /** What finalizing makes of the parts once all logs are read. */
  lemma AllReplayed(key: VersionKey, logs: LogFiles, names: seq<LogName>, times: map<PartName, PartAttr>,
                    loaded: set<PartName>, was: PartFiles, ps: PartFiles, n: PartName,
                    sorts: bool, sorted: bool, d': Entries)
    requires AllAt(key, logs, Progress(names, []), times, loaded, was, ps) && n in was
    requires d' == if sorted then SortAll(key, ps[n].data) else ps[n].data
    requires n in loaded ==> sorted == sorts
    requires sorted ==> sorts
    ensures Replayed(key, sorts, logs, names, n, times[n].lastModified, was[n].data, d')
  {
    var t := times[n].lastModified;
    forall p: Publisher, s: string
      ensures Met(logs, Progress(names, []), n, t, p, s) == Pending(logs, names, n, t, p, s)
    {
      var met := Pending(logs, names, n, t, p, s);
      assert met + [] == met;
    }
    SortAllLists(key, ps[n].data);
    if sorted == sorts {
      assert RunThrough(key, sorts, logs, names, n, t, was[n].data, d');
    } else {
      assert Untouched(logs, names, n, t, was[n].data, d');
    }
  }

  /** The parts once finalized: if there is a base part, it and those in memory are sorted. */
  ghost function Finalized(key: VersionKey, ps: PartFiles, loaded: set<PartName>, base: bool): PartFiles {
    if base then SortIn(key, ps, loaded + {Base}) else ps
  }

  lemma AllFinalized(key: VersionKey, logs: LogFiles, names: seq<LogName>, times: map<PartName, PartAttr>,
                     loaded: set<PartName>, was: PartFiles, ps: PartFiles, base: bool)
    requires AllAt(key, logs, Progress(names, []), times, loaded, was, ps)
    ensures Finalized(key, ps, loaded, base).Keys == was.Keys
    ensures forall n :: n in was ==>
              Replayed(key, base, logs, names, n, times[n].lastModified, was[n].data,
                       Finalized(key, ps, loaded, base)[n].data)
    ensures forall n ::
              n in was && !Named(logs, names, n) && (n == Base ==> !base) ==>
                Finalized(key, ps, loaded, base)[n] == was[n]
    ensures forall n :: n in was ==> (n in loaded <==> Named(logs, names, n))
    ensures forall n :: n in was ==> !ReplayFails(key, logs, names, n, times[n].lastModified, was[n].data)
  {
    forall n | n in was
      ensures NamedSoFar(logs, Progress(names, []), n) <==> Named(logs, names, n)
    {
    }
    forall n | n in was
      ensures Replayed(key, base, logs, names, n, times[n].lastModified, was[n].data,
                       Finalized(key, ps, loaded, base)[n].data)
    {
      AllReplayed(key, logs, names, times, loaded, was, ps, n, base, base && (n in loaded || n == Base),
                  Finalized(key, ps, loaded, base)[n].data);
    }
  }

  /** The parts once replayed and finalized: those that are checked are replayed, the others as they were. */
  ghost predicate ReplayGives(key: VersionKey, c: Dir, s: Dir, names: seq<LogName>, ps: PartFiles) {
    && c.attrs.Some? && ps.Keys == c.parts.Keys <= c.attrs.value.parts.Keys
    && forall n :: n in c.parts ==>
         && Replayed(key, HasBase(c), s.logs, names, n, c.attrs.value.parts[n].lastModified, c.parts[n].data,
                     ps[n].data)
         && (!Checked(c, s, names, n) ==> ps[n] == c.parts[n])
  }

  ghost predicate CheckedIs(c: Dir, s: Dir, names: seq<LogName>, loaded: set<PartName>) {
    forall n :: n in c.parts ==> (Checked(c, s, names, n) <==> n in loaded || (n == Base && HasBase(c)))
  }

  lemma FinalizedGives(key: VersionKey, c: Dir, s: Dir, names: seq<LogName>, loaded: set<PartName>, ps: PartFiles)
    requires c.attrs.Some?
    requires AllAt(key, s.logs, Progress(names, []), c.attrs.value.parts, loaded, c.parts, ps)
    ensures ReplayGives(key, c, s, names, Finalized(key, ps, loaded, HasBase(c)))
    ensures CheckedIs(c, s, names, loaded) && !SyncLogsFail(key, c, s, names)
  {
    AllFinalized(key, s.logs, names, c.attrs.value.parts, loaded, c.parts, ps, HasBase(c));
  }

  /** A part that is checked does not have its signature, and the error says so. */
  ghost predicate SomeUnsigned(digest: Digest, c: Dir, s: Dir, names: seq<LogName>, ps: PartFiles, e: CatalogError) {
    s.attrs.Some? && exists n :: n in c.parts && n in ps && Checked(c, s, names, n) && e == BadCatalogSignatures(n)
                                 && !SignatureHolds(digest, s.attrs.value, n, ps[n].data)
  }

  lemma UnsignedRefused(key: VersionKey, digest: Digest, c: Dir, s: Dir, names: seq<LogName>, ps: PartFiles,
                        e: CatalogError)
    requires ReplayGives(key, c, s, names, ps) && !SyncLogsFail(key, c, s, names)
             && SomeUnsigned(digest, c, s, names, ps, e)
    ensures LogsRefused(key, digest, c, s, names, e)
  {
  }

  ghost predicate AllSigned(digest: Digest, c: Dir, s: Dir, names: seq<LogName>, ps: PartFiles) {
    s.attrs.Some? && forall n :: n in c.parts && n in ps && Checked(c, s, names, n) ==>
                       SignatureHolds(digest, s.attrs.value, n, ps[n].data)
  }

  /** Copying whole parts, and finalizing with none of them in memory. */
  ghost function CopiedParts(key: VersionKey, c: Dir, s: Dir, names: set<PartName>): PartFiles
    requires c.attrs.Some?
  {
    var ps := c.parts + OnlyIn(s.parts, names);
    Finalized(key, ps, {}, Base in c.attrs.value.parts && Base in ps)
  }

  lemma CopiedPartsAre(key: VersionKey, c: Dir, s: Dir, names: set<PartName>)
    requires c.attrs.Some? && names <= s.parts.Keys
    ensures CopiedOver(key, c, s, names, CopiedParts(key, c, s, names))
  {
    assert OnlyIn(s.parts, names).Keys == names;
  }

  /** Replayed data exists only if no list rejects a change. */
  lemma ReplayedAccepts(key: VersionKey, sorts: bool, logs: LogFiles, names: seq<LogName>, n: PartName, after: int,
                        d: Entries, d': Entries)
    requires Replayed(key, sorts, logs, names, n, after, d, d')
    ensures !ReplayFails(key, logs, names, n, after, d)
  {
  }
}
