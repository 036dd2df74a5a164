/** Bringing a client up to date: from any earlier state of the server's history, a sync succeeds
    and leaves the client with exactly the server's parts. */
module Synchronization {
  import opened CatalogParts
  import opened CatalogUpdates
  import opened History
  import opened NestedLists
  import opened Protocol
  import opened Replication
  import opened VersionLists
  import opened Wrappers
  import ReplaySteps
  import Strings

  function AsView(s: Dir): View
    requires s.attrs.Some?
  {
    var a := s.attrs.value;
    View(a.created, a.lastModified, a.packageCount, a.versionCount, PartTimes(a), a.updates, s.parts, s.logs)
  }

  ghost predicate SignedParts(digest: Digest, a: Attrs, ps: PartFiles) {
    forall n :: n in ps ==> n in a.parts && a.parts[n].signature == Some(digest(ps[n].data))
  }

  /** The catalog directory s is a server catalog with history h, saved at some time. */
  ghost predicate SavedIs(key: VersionKey, digest: Digest, created: int, h: seq<Op>, s: Dir) {
    && s.attrs.Some? && SignedParts(digest, s.attrs.value, s.parts)
    && exists now :: ServerIs(key, created, h, now, AsView(s))
  }

  /** The client directory c holds, of the server catalog with history h, the attributes and some of
      the parts, the base part among them. */
  ghost predicate ClientIs(key: VersionKey, created: int, h: seq<Op>, c: Dir) {
    && c.attrs.Some?
    && c.attrs.value.created == created
    && TimesAre(created, h, c.attrs.value.lastModified, PartTimes(c.attrs.value))
    && c.parts.Keys <= c.attrs.value.parts.Keys
    && (Base in c.attrs.value.parts ==> Base in c.parts)
    && PartsAre(key, created, h, c.parts)
  }

  lemma PublishedView(digest: Digest, v: View)
    requires v.partTimes.Keys == v.parts.Keys
    ensures AsView(Published(digest, v)) == v
    ensures SignedParts(digest, Published(digest, v).attrs.value, v.parts)
  {
    assert PartTimes(Published(digest, v).attrs.value) == v.partTimes;
  }

  /** A saved server catalog is what its history says. */
  lemma PublishedIs(key: VersionKey, digest: Digest, created: int, h: seq<Op>, now: int, v: View)
    requires ServerIs(key, created, h, now, v)
    ensures SavedIs(key, digest, created, h, Published(digest, v))
  {
    PublishedView(digest, v);
    assert ServerIs(key, created, h, now, AsView(Published(digest, v)));
  }

  /** A part is known by its history. */
  lemma PartUnique(key: VersionKey, created: int, h: seq<Op>, n: PartName, d: Entries, e: Entries)
    requires PartIs(key, created, h, n, d) && PartIs(key, created, h, n, e)
    ensures d == e
  {
    forall p: Publisher, s: string
      ensures ListAt(d, p, s) == ListAt(e, p, s)
    {
      assert Run(key, true, [], PartChanges(StemOps(h, p, s), n, created)) == Some(ListAt(d, p, s));
    }
    Extensional(d, e);
  }

  // ----- An earlier state of the same history

  /** g is where the client is, h where the server is. */
  ghost predicate Earlier(created: int, g: seq<Op>, h: seq<Op>) {
    && GoodHistory(created, h)
    && |g| <= |h| && g == h[..|g|]
  }

  lemma EarlierIsGood(created: int, g: seq<Op>, h: seq<Op>)
    requires Earlier(created, g, h)
    ensures GoodHistory(created, g)
  {
    forall i | 0 <= i < |g|
      ensures g[i] == h[i] && GoodOp(created, g[i])
    {
    }
  }

  /** The operations since are newer than everything the client has seen. */
  lemma NewerThan(created: int, g: seq<Op>, h: seq<Op>, i: nat)
    requires Earlier(created, g, h) && |g| <= i < |h|
    ensures h[i].time > LastTime(created, g)
  {
  }

  lemma SinceTimes(created: int, g: seq<Op>, h: seq<Op>, n: PartName, t: int, p: Publisher, s: string)
    requires Earlier(created, g, h) && LastTouch(g, n, t)
    ensures forall e :: e in StemOps(h[|g|..], p, s) ==> e.time > t && e.time > created
  {
    var d := h[|g|..];
    StemOpsFrom(d, p, s);
    forall e | e in StemOps(d, p, s)
      ensures e.time > t && e.time > created
    {
      var i :| 0 <= i < |d| && d[i] == Op(e.time, e.kind, Fmri(p, s, e.version), e.parts);
      assert h[|g| + i] == d[i];
      NewerThan(created, g, h, |g| + i);
    }
  }

  lemma SeenTimes(g: seq<Op>, n: PartName, t: int, p: Publisher, s: string)
    requires LastTouch(g, n, t)
    ensures PartChanges(StemOps(g, p, s), n, t) == []
  {
    StemOpsFrom(g, p, s);
    forall e | e in StemOps(g, p, s) && n in e.parts
      ensures e.time <= t
    {
      var i :| 0 <= i < |g| && g[i] == Op(e.time, e.kind, Fmri(p, s, e.version), e.parts);
    }
    NoChangesBefore(StemOps(g, p, s), n, t);
  }

  lemma SinceChanges(created: int, g: seq<Op>, h: seq<Op>, n: PartName, t: int, p: Publisher, s: string)
    requires Earlier(created, g, h) && LastTouch(g, n, t)
    ensures PartChanges(StemOps(h, p, s), n, t) == PartChanges(StemOps(h[|g|..], p, s), n, created)
  {
    var d := h[|g|..];
    assert h == g + d;
    StemOpsConcat(g, d, p, s);
    PartChangesConcat(StemOps(g, p, s), StemOps(d, p, s), n, t);
    SeenTimes(g, n, t, p, s);
    SinceTimes(created, g, h, n, t, p, s);
    AllChangesAfter(StemOps(d, p, s), n, t, created);
  }

  /** From an older copy of a list, the unseen changes are accepted in batch mode and, sorted at
      the end, give the server's list. */
  lemma CatchUp(key: VersionKey, created: int, g: seq<Op>, h: seq<Op>, n: PartName, t: int, d: Entries, e: Entries,
                p: Publisher, s: string)
    requires Earlier(created, g, h) && LastTouch(g, n, t)
    requires PartIs(key, created, g, n, d) && PartIs(key, created, h, n, e)
    ensures var r := Run(key, false, ListAt(d, p, s), PartChanges(StemOps(h, p, s), n, t));
            r.Some? && StableSort(key, r.value) == ListAt(e, p, s)
  {
    var rest := h[|g|..];
    assert h == g + rest;
    StemOpsConcat(g, rest, p, s);
    PartChangesConcat(StemOps(g, p, s), StemOps(rest, p, s), n, created);
    var old_, new_ := PartChanges(StemOps(g, p, s), n, created), PartChanges(StemOps(rest, p, s), n, created);
    RunConcat(key, true, [], old_, new_);
    SinceChanges(created, g, h, n, t, p, s);
    PartIsSorted(key, created, g, n, d);
    BatchRefinesOrdered(key, ListAt(d, p, s), new_);
  }

  // ----- Log selection

  /** The client's attributes as of g, the server's as of h. */
  ghost predicate AttrsAre(created: int, g: seq<Op>, h: seq<Op>, old_: Attrs, new_: Attrs, logs: LogFiles) {
    && Earlier(created, g, h)
    && TimesAre(created, g, old_.lastModified, PartTimes(old_))
    && TimesAre(created, h, new_.lastModified, PartTimes(new_))
    && exists now :: LogsAre(h, now, logs, new_.updates)
  }

  lemma TimesGrow(created: int, g: seq<Op>, h: seq<Op>, old_: map<PartName, int>, new_: map<PartName, int>, n: PartName)
    requires Earlier(created, g, h) && n in old_
    requires TimesAre(created, g, LastTime(created, g), old_) && TimesAre(created, h, LastTime(created, h), new_)
    ensures n in new_ && old_[n] <= new_[n]
    ensures forall i :: |g| <= i < |h| && n in h[i].parts ==> old_[n] < new_[n]
    ensures old_[n] == new_[n] ==> forall i :: |g| <= i < |h| ==> n !in h[i].parts
  {
    var i :| 0 <= i < |g| && n in g[i].parts && g[i].time == old_[n];
    assert n in h[i].parts;
    forall j | |g| <= j < |h| && n in h[j].parts
      ensures old_[n] < new_[n]
    {
      NewerThan(created, g, h, j);
    }
  }

  lemma InItsLog(op: Op, n: PartName)
    requires n in op.parts
    ensures LogName(Hour(op.time), LocaleOf(n)) in LogsFor(op)
  {
    assert LocaleOf(n) in Locales(op.parts);
  }

  /** A client that is told to use update logs is one that the retained logs provide for. */
  lemma TellsToRead(created: int, g: seq<Op>, h: seq<Op>, now: int, old_: Attrs, new_: Attrs, logs: LogFiles)
    requires AttrsAre(created, g, h, old_, new_, logs) && Incremental(old_, new_) && new_.updates.Keys == logs.Keys
    ensures MayRead(h, now, logs.Keys, |g|)
  {
    assert h[..|g|] == g;
    forall n | Touched(h[|g|..], n)
      ensures if Touched(h[..|g|], n) then BoundaryOffered(h, now, logs.Keys, |g|, n) else LocaleOf(n) != "C"
    {
      TouchedSince(created, g, h, old_, new_, n);
      if Touched(g, n) {
        OffersBoundary(g, old_, new_, n);
      } else {
        NotNew(created, g, h, old_, new_, n);
      }
    }
  }

  lemma OffersBoundary(g: seq<Op>, old_: Attrs, new_: Attrs, n: PartName)
    requires Incremental(old_, new_) && n in ChangedParts(old_, new_) && LastTouch(g, n, old_.parts[n].lastModified)
    ensures forall t :: LastTouch(g, n, t) ==> LogName(Hour(t), LocaleOf(n)) in new_.updates
  {
    assert BoundaryLog(old_, n) in new_.updates;
  }

  lemma NotNew(created: int, g: seq<Op>, h: seq<Op>, old_: Attrs, new_: Attrs, n: PartName)
    requires TimesAre(created, g, old_.lastModified, PartTimes(old_)) && Incremental(old_, new_)
    requires n in new_.parts && !Touched(g, n)
    ensures LocaleOf(n) != "C"
  {
    assert n !in PartTimes(old_);
    assert n !in NewParts(old_, new_);
  }

  lemma TouchedSince(created: int, g: seq<Op>, h: seq<Op>, old_: Attrs, new_: Attrs, n: PartName)
    requires Earlier(created, g, h)
    requires TimesAre(created, g, old_.lastModified, PartTimes(old_))
    requires TimesAre(created, h, new_.lastModified, PartTimes(new_))
    requires Touched(h[|g|..], n)
    ensures n in new_.parts && Touched(h, n)
    ensures Touched(g, n) ==> n in ChangedParts(old_, new_) && LastTouch(g, n, old_.parts[n].lastModified)
  {
    EarlierIsGood(created, g, h);
    StillInHistory(g, h, n);
    assert n in PartTimes(new_);
    if Touched(g, n) {
      assert n in PartTimes(old_);
      PartTimeGrows(created, g, h, old_, new_, n);
    }
  }

  lemma StillInHistory(g: seq<Op>, h: seq<Op>, n: PartName)
    requires |g| <= |h| && Touched(h[|g|..], n)
    ensures Touched(h, n) && exists i :: |g| <= i < |h| && n in h[i].parts
  {
    var i :| 0 <= i < |h[|g|..]| && n in h[|g|..][i].parts;
    assert n in h[|g| + i].parts;
  }

  /** Log selection is complete: when the answer is to use update logs, every operation that is newer
      than a part the client has is recorded in a log that is both offered and asked for. */
  lemma SelectionComplete(created: int, g: seq<Op>, h: seq<Op>, old_: Attrs, new_: Attrs, logs: LogFiles, n: PartName,
                          i: nat)
    requires AttrsAre(created, g, h, old_, new_, logs) && Incremental(old_, new_)
    requires n in old_.parts && i < |h| && n in h[i].parts && h[i].time > old_.parts[n].lastModified
    ensures n in ChangedParts(old_, new_) && Held(h[i], n, logs)
    ensures LogNeeded(old_, new_, LogName(Hour(h[i].time), LocaleOf(n)))
  {
    EarlierIsGood(created, g, h);
    UnseenIsSince(created, g, h, old_, new_, n, i);
    NotBefore(created, g, h, i);
    var now :| LogsAre(h, now, logs, new_.updates);
    TellsToRead(created, g, h, now, old_, new_, logs);
    assert n in PartTimes(old_);
    NotMissed(h, now, logs, |g|, i, n);
    InItsLog(h[i], n);
    assert LastLogged(h, LogName(Hour(h[i].time), LocaleOf(n)), new_.updates[LogName(Hour(h[i].time), LocaleOf(n))]);
    OldTimes(created, g, old_);
  }

  lemma NotMissed(h: seq<Op>, now: int, logs: LogFiles, a: int, i: int, n: PartName)
    requires NothingLost(h, now, logs) && 0 <= a <= i < |h| && n in h[i].parts && Touched(h[..a], n)
    requires MayRead(h, now, logs.Keys, a)
    ensures Held(h[i], n, logs)
  {
  }

  lemma NotBefore(created: int, g: seq<Op>, h: seq<Op>, i: nat)
    requires Earlier(created, g, h) && i < |h| && h[i].time > LastTime(created, g)
    ensures i >= |g|
  {
    EarlierIsGood(created, g, h);
    NowAfterAll(created, g);
  }

  lemma PartTimeGrows(created: int, g: seq<Op>, h: seq<Op>, old_: Attrs, new_: Attrs, n: PartName)
    requires Earlier(created, g, h)
    requires TimesAre(created, g, old_.lastModified, PartTimes(old_))
    requires TimesAre(created, h, new_.lastModified, PartTimes(new_))
    requires n in old_.parts
    ensures n in new_.parts && old_.parts[n].lastModified <= new_.parts[n].lastModified
    ensures LastTouch(g, n, old_.parts[n].lastModified)
    ensures forall i :: |g| <= i < |h| && n in h[i].parts ==> old_.parts[n].lastModified < new_.parts[n].lastModified
  {
    TimesGrow(created, g, h, PartTimes(old_), PartTimes(new_), n);
    assert PartTimes(new_)[n] == new_.parts[n].lastModified && PartTimes(old_)[n] == old_.parts[n].lastModified;
  }

  lemma UnseenIsSince(created: int, g: seq<Op>, h: seq<Op>, old_: Attrs, new_: Attrs, n: PartName, i: nat)
    requires Earlier(created, g, h)
    requires TimesAre(created, g, old_.lastModified, PartTimes(old_))
    requires TimesAre(created, h, new_.lastModified, PartTimes(new_))
    requires n in old_.parts && i < |h| && n in h[i].parts && h[i].time > old_.parts[n].lastModified
    ensures h[i].time > LastTime(created, g)
    ensures n in ChangedParts(old_, new_)
  {
    PartTimeGrows(created, g, h, old_, new_, n);
    if i < |g| {
      SeenTime(g, h, n, old_.parts[n].lastModified, i);
    } else {
      NewerThan(created, g, h, i);
    }
  }

  lemma SeenTime(g: seq<Op>, h: seq<Op>, n: PartName, t: int, i: nat)
    requires |g| <= |h| && g == h[..|g|] && LastTouch(g, n, t)
    requires i < |g| && n in h[i].parts
    ensures h[i].time <= t
  {
    assert g[i] == h[i];
  }

  lemma OldTimes(created: int, g: seq<Op>, old_: Attrs)
    requires GoodHistory(created, g) && TimesAre(created, g, old_.lastModified, PartTimes(old_))
    ensures forall m :: m in old_.parts ==> old_.parts[m].lastModified <= LastTime(created, g)
  {
    forall m | m in old_.parts
      ensures old_.parts[m].lastModified <= LastTime(created, g)
    {
      var t := PartTimes(old_)[m];
      assert LastTouch(g, m, t);
      NowAfterAll(created, g);
    }
  }

  lemma {:induction false} LoggedFrom(es: seq<LogEntry>, l: LogName)
    ensures forall e :: e in Logged(es, l) ==> exists e' :: e' in es && e'.time == e.time
  {
    if es != [] {
      var init, last := es[..|es| - 1], es[|es| - 1];
      LoggedFrom(init, l);
      forall e | e in Logged(es, l)
        ensures exists e' :: e' in es && e'.time == e.time
      {
        if e in Logged(init, l) {
          var e' :| e' in init && e'.time == e.time;
          assert e' in es;
        } else {
          assert last in es;
        }
      }
    }
  }

  /** An operation that a log records is not older than the log. */
  lemma RecordedSince(h: seq<Op>, k: nat, i: nat, l: LogName, d: Nested<LogEntry>)
    requires Increasing(h) && k <= |h| && i < |h| && LogIs(h[k..], l, d) && Recorded(h[i], d)
    ensures k <= i
  {
    var f := h[i].fmri;
    var e :| e in ListAt(d, f.pub, f.stem) && e.time == h[i].time;
    var j := LoggedSince(h[k..], l, f.pub, f.stem, e);
    assert h[k + j] == h[k..][j];
  }

  lemma LoggedSince(h: seq<Op>, l: LogName, p: Publisher, s: string, e: LogEntry) returns (j: nat)
    requires e in Logged(StemOps(h, p, s), l)
    ensures j < |h| && h[j].time == e.time
  {
    LoggedFrom(StemOps(h, p, s), l);
    var e' :| e' in StemOps(h, p, s) && e'.time == e.time;
    StemOpsFrom(h, p, s);
    j :| 0 <= j < |h| && h[j] == Op(e'.time, e'.kind, Fmri(p, s, e'.version), e'.parts);
  }

  /** What happened before some operation does not show in a log when it was all seen. */
  lemma LogStart(h: seq<Op>, k: nat, l: LogName, n: PartName, t: int, p: Publisher, s: string)
    requires k <= |h|
    requires forall i :: 0 <= i < k && n in h[i].parts && h[i].time > t ==> LogName(Hour(h[i].time), LocaleOf(n)) != l
    ensures PartChanges(Logged(StemOps(h[k..], p, s), l), n, t) == PartChanges(Logged(StemOps(h, p, s), l), n, t)
  {
    var first, rest := StemOps(h[..k], p, s), StemOps(h[k..], p, s);
    assert h == h[..k] + h[k..];
    StemOpsConcat(h[..k], h[k..], p, s);
    PartChangesOfLogged(first + rest, l, n, t);
    PartChangesOfLogged(rest, l, n, t);
    if LocaleOf(n) == l.locale {
      StemOpsFrom(h[..k], p, s);
      forall e | e in first && n in e.parts && e.time > t
        ensures Hour(e.time) != l.hour
      {
        var i :| 0 <= i < |h[..k]| && h[..k][i] == Op(e.time, e.kind, Fmri(p, s, e.version), e.parts);
        assert h[i] == h[..k][i];
      }
      HourChangesPrefix(first, rest, n, t, l.hour);
    }
  }

  lemma {:induction false} HourChangesPrefix(first: seq<LogEntry>, rest: seq<LogEntry>, n: PartName, t: int, hour: int)
    requires forall e :: e in first && n in e.parts && e.time > t ==> Hour(e.time) != hour
    ensures HourChanges(first + rest, n, t, {hour}) == HourChanges(rest, n, t, {hour})
  {
    if rest == [] {
      assert first + rest == first;
      NoHourChanges(first, n, t, hour);
    } else {
      assert (first + rest)[..|first + rest| - 1] == first + rest[..|rest| - 1];
      HourChangesPrefix(first, rest[..|rest| - 1], n, t, hour);
    }
  }

  lemma {:induction false} NoHourChanges(es: seq<LogEntry>, n: PartName, t: int, hour: int)
    requires forall e :: e in es && n in e.parts && e.time > t ==> Hour(e.time) != hour
    ensures HourChanges(es, n, t, {hour}) == []
  {
    if es != [] {
      NoHourChanges(es[..|es| - 1], n, t, hour);
      assert es[|es| - 1] in es;
    }
  }

  /** A selected log says of a list what a log of the whole history would, as far as it is unseen. */
  lemma SelectedLog(created: int, g: seq<Op>, h: seq<Op>, old_: Attrs, new_: Attrs, logs: LogFiles, l: LogName,
                    n: PartName, p: Publisher, s: string)
    requires AttrsAre(created, g, h, old_, new_, logs) && Incremental(old_, new_) && n in old_.parts && l in logs
    ensures PartChanges(ListAt(logs[l].data, p, s), n, old_.parts[n].lastModified)
         == PartChanges(Logged(StemOps(h, p, s), l), n, old_.parts[n].lastModified)
  {
    var t := old_.parts[n].lastModified;
    var k :| 0 <= k <= |h| && LogIs(h[k..], l, logs[l].data);
    forall i | 0 <= i < k && n in h[i].parts && h[i].time > t
      ensures LogName(Hour(h[i].time), LocaleOf(n)) != l
    {
      if LogName(Hour(h[i].time), LocaleOf(n)) == l {
        SelectionComplete(created, g, h, old_, new_, logs, n, i);
        RecordedSince(h, k, i, l, logs[l].data);
        assert false;
      }
    }
    LogStart(h, k, l, n, t, p, s);
  }

  lemma {:induction false} SelectedLogs(created: int, g: seq<Op>, h: seq<Op>, old_: Attrs, new_: Attrs, logs: LogFiles,
                                        names: seq<LogName>, n: PartName, p: Publisher, s: string)
    requires AttrsAre(created, g, h, old_, new_, logs) && Incremental(old_, new_) && n in old_.parts
    requires forall l :: l in names ==> l in logs
    ensures Pending(logs, names, n, old_.parts[n].lastModified, p, s)
         == LogsChanges(LoggedAll(StemOps(h, p, s), names), n, old_.parts[n].lastModified)
  {
    if names != [] {
      var init, l, t := names[..|names| - 1], names[|names| - 1], old_.parts[n].lastModified;
      assert l in names && forall m :: m in init ==> m in names;
      SelectedLogs(created, g, h, old_, new_, logs, init, n, p, s);
      SelectedLog(created, g, h, old_, new_, logs, l, n, p, s);
      LogsChangesAppend(StemLogs(logs, init, p, s), ListAt(LogDataOf(logs, l), p, s), n, t);
      LogsChangesAppend(LoggedAll(StemOps(h, p, s), init), Logged(StemOps(h, p, s), l), n, t);
    }
  }

  lemma AscendingChronological(names: seq<LogName>)
    requires Ascending(names)
    ensures Chronological(names)
  {
    forall i, j | 0 <= i < j < |names|
      ensures names[i].hour < names[j].hour || (names[i].hour == names[j].hour && names[i].locale != names[j].locale)
    {
      Strings.Irreflexive(names[i].locale);
    }
  }

  /** What is pending for a list, out of the selected logs, is what happened to it since. */
  lemma PendingIsUnseen(created: int, g: seq<Op>, h: seq<Op>, old_: Attrs, new_: Attrs, logs: LogFiles,
                        names: seq<LogName>, n: PartName, p: Publisher, s: string)
    requires AttrsAre(created, g, h, old_, new_, logs) && Incremental(old_, new_) && n in old_.parts
    requires Ascending(names) && forall l :: l in names <==> LogNeeded(old_, new_, l)
    ensures Pending(logs, names, n, old_.parts[n].lastModified, p, s)
         == PartChanges(StemOps(h, p, s), n, old_.parts[n].lastModified)
  {
    var es, t := StemOps(h, p, s), old_.parts[n].lastModified;
    StemOpsFrom(h, p, s);
    forall l | l in names
      ensures l in logs
    {
      assert LogNeeded(old_, new_, l);
    }
    SelectedLogs(created, g, h, old_, new_, logs, names, n, p, s);
    AscendingChronological(names);
    forall e | e in es && n in e.parts && e.time > t
      ensures LogName(Hour(e.time), LocaleOf(n)) in names
    {
      var i :| 0 <= i < |h| && h[i] == Op(e.time, e.kind, Fmri(p, s, e.version), e.parts);
      SelectionComplete(created, g, h, old_, new_, logs, n, i);
    }
    ReplayFindsAll(es, names, n, t);
  }

  // ----- The sync

  lemma NoneSince(created: int, g: seq<Op>, h: seq<Op>, n: PartName, p: Publisher, s: string)
    requires Earlier(created, g, h)
    requires forall i :: |g| <= i < |h| ==> n !in h[i].parts
    ensures PartChanges(StemOps(h[|g|..], p, s), n, created) == []
  {
    var rest := h[|g|..];
    StemOpsFrom(rest, p, s);
    forall e | e in StemOps(rest, p, s)
      ensures n !in e.parts
    {
      var i :| 0 <= i < |rest| && rest[i] == Op(e.time, e.kind, Fmri(p, s, e.version), e.parts);
      assert h[|g| + i] == rest[i];
    }
    NoChangesBefore(StemOps(rest, p, s), n, created);
  }

  /** A part that the attributes say is unchanged is the server's part. */
  lemma UnchangedPart(key: VersionKey, created: int, g: seq<Op>, h: seq<Op>, n: PartName, d: Entries)
    requires Earlier(created, g, h) && PartIs(key, created, g, n, d)
    requires forall i :: |g| <= i < |h| ==> n !in h[i].parts
    ensures PartIs(key, created, h, n, d)
  {
    var rest := h[|g|..];
    assert h == g + rest;
    forall p: Publisher, s: string
      ensures Run(key, true, [], PartChanges(StemOps(h, p, s), n, created)) == Some(ListAt(d, p, s))
    {
      StemOpsConcat(g, rest, p, s);
      PartChangesConcat(StemOps(g, p, s), StemOps(rest, p, s), n, created);
      NoneSince(created, g, h, n, p, s);
      assert PartChanges(StemOps(g, p, s), n, created) + [] == PartChanges(StemOps(g, p, s), n, created);
    }
  }

  /** Replaying the selected logs over an older copy gives exactly the server's part. */
  lemma ReplayedPart(key: VersionKey, created: int, g: seq<Op>, h: seq<Op>, old_: Attrs, new_: Attrs, logs: LogFiles,
                     names: seq<LogName>, n: PartName, d: Entries, d': Entries, e: Entries)
    requires AttrsAre(created, g, h, old_, new_, logs) && Incremental(old_, new_) && n in old_.parts
    requires Ascending(names) && forall l :: l in names <==> LogNeeded(old_, new_, l)
    requires PartIs(key, created, g, n, d) && PartIs(key, created, h, n, e)
    requires Replayed(key, true, logs, names, n, old_.parts[n].lastModified, d, d')
    ensures d' == e
  {
    var t := old_.parts[n].lastModified;
    assert n in PartTimes(old_) && LastTouch(g, n, t);
    forall p: Publisher, s: string
      ensures ListAt(d', p, s) == ListAt(e, p, s)
    {
      PendingIsUnseen(created, g, h, old_, new_, logs, names, n, p, s);
      CatchUp(key, created, g, h, n, t, d, e, p, s);
      if Untouched(logs, names, n, t, d, d') {
        PartIsSorted(key, created, g, n, d);
        SortOfSorted(key, ListAt(d, p, s));
      }
    }
    Extensional(d', e);
  }

  /** No change is rejected while the logs are replayed: neither as a duplicate nor as unknown. */
  lemma ReplayNeverFails(key: VersionKey, created: int, g: seq<Op>, h: seq<Op>, old_: Attrs, new_: Attrs,
                         logs: LogFiles, names: seq<LogName>, n: PartName, d: Entries, e: Entries)
    requires AttrsAre(created, g, h, old_, new_, logs) && Incremental(old_, new_) && n in old_.parts
    requires Ascending(names) && forall l :: l in names <==> LogNeeded(old_, new_, l)
    requires PartIs(key, created, g, n, d) && PartIs(key, created, h, n, e)
    ensures !ReplayFails(key, logs, names, n, old_.parts[n].lastModified, d)
  {
    var t := old_.parts[n].lastModified;
    assert n in PartTimes(old_) && LastTouch(g, n, t);
    forall p: Publisher, s: string
      ensures Run(key, false, ListAt(d, p, s), Pending(logs, names, n, t, p, s)).Some?
    {
      PendingIsUnseen(created, g, h, old_, new_, logs, names, n, p, s);
      CatchUp(key, created, g, h, n, t, d, e, p, s);
    }
  }

  /** Everything about a client as of g and a saved server catalog as of h, g being earlier. */
  ghost predicate Pair(key: VersionKey, digest: Digest, created: int, g: seq<Op>, h: seq<Op>, c: Dir, s: Dir) {
    && Earlier(created, g, h)
    && ClientIs(key, created, g, c)
    && SavedIs(key, digest, created, h, s)
  }

  /** The client never finds that the server's catalog is another one, or an older one. */
  lemma NeverRefused(key: VersionKey, digest: Digest, created: int, g: seq<Op>, h: seq<Op>, c: Dir, s: Dir)
    requires Pair(key, digest, created, g, h, c, s)
    ensures c.attrs.value.created == s.attrs.value.created
    ensures !PartMissing(c.attrs.value, s.attrs.value) && !PartOlder(c.attrs.value, s.attrs.value)
  {
    var a, b := c.attrs.value, s.attrs.value;
    forall n | n in a.parts
      ensures n in b.parts && a.parts[n].lastModified <= b.parts[n].lastModified
    {
      PartTimeGrows(created, g, h, a, b, n);
    }
  }

  /** Equal catalog times mean equal states. */
  lemma SameTimeSameHistory(created: int, g: seq<Op>, h: seq<Op>)
    requires Earlier(created, g, h) && LastTime(created, g) == LastTime(created, h)
    ensures g == h
  {
    if |g| < |h| {
      NewerThan(created, g, h, |h| - 1);
    }
  }

  /** A part that both hold and whose time has not changed. */
  lemma KeptPart(key: VersionKey, digest: Digest, created: int, g: seq<Op>, h: seq<Op>, c: Dir, s: Dir, n: PartName)
    requires Pair(key, digest, created, g, h, c, s)
    requires n in c.parts && n !in ChangedParts(c.attrs.value, s.attrs.value)
    ensures PartIs(key, created, h, n, c.parts[n].data)
    ensures n in s.parts && c.parts[n].data == s.parts[n].data
  {
    var a, b := c.attrs.value, s.attrs.value;
    PartTimeGrows(created, g, h, a, b, n);
    UnchangedPart(key, created, g, h, n, c.parts[n].data);
    PartUnique(key, created, h, n, c.parts[n].data, s.parts[n].data);
  }

  lemma SortedPartStays(key: VersionKey, created: int, h: seq<Op>, n: PartName, d: Entries)
    requires PartIs(key, created, h, n, d)
    ensures SortAll(key, d) == d
  {
    PartIsSorted(key, created, h, n, d);
    SortedStays(key, d);
  }

  ghost predicate Selected(a: Attrs, b: Attrs, names: seq<LogName>) {
    && Incremental(a, b)
    && Ascending(names)
    && forall l :: l in names <==> LogNeeded(a, b, l)
  }

  lemma PairAttrs(key: VersionKey, digest: Digest, created: int, g: seq<Op>, h: seq<Op>, c: Dir, s: Dir)
    requires Pair(key, digest, created, g, h, c, s)
    ensures AttrsAre(created, g, h, c.attrs.value, s.attrs.value, s.logs)
  {
  }

  lemma SavedPart(key: VersionKey, digest: Digest, created: int, h: seq<Op>, s: Dir, n: PartName)
    requires SavedIs(key, digest, created, h, s) && n in s.attrs.value.parts
    ensures n in s.parts && PartIs(key, created, h, n, s.parts[n].data)
    ensures SignatureHolds(digest, s.attrs.value, n, s.parts[n].data)
  {
    assert n in PartTimes(s.attrs.value);
  }

  /** What a client knows of one of its parts, and the server of the same part. */
  lemma PairPart(key: VersionKey, digest: Digest, created: int, g: seq<Op>, h: seq<Op>, c: Dir, s: Dir, n: PartName)
    requires Pair(key, digest, created, g, h, c, s) && n in c.parts
    ensures n in c.attrs.value.parts && n in s.parts && HasBase(c)
    ensures PartIs(key, created, g, n, c.parts[n].data) && PartIs(key, created, h, n, s.parts[n].data)
    ensures SignatureHolds(digest, s.attrs.value, n, s.parts[n].data)
  {
    EarlierIsGood(created, g, h);
    HeldPart(key, created, g, c, n);
    StillSaved(key, digest, created, g, h, c.attrs.value, s, n);
  }

  lemma StillSaved(key: VersionKey, digest: Digest, created: int, g: seq<Op>, h: seq<Op>, a: Attrs, s: Dir, n: PartName)
    requires Earlier(created, g, h) && SavedIs(key, digest, created, h, s)
    requires TimesAre(created, g, a.lastModified, PartTimes(a)) && n in a.parts
    ensures n in s.parts && PartIs(key, created, h, n, s.parts[n].data)
    ensures SignatureHolds(digest, s.attrs.value, n, s.parts[n].data)
  {
    SavedKeys(key, digest, created, h, s);
    StillThere(created, g, h, a, s.attrs.value, n);
    SavedPart(key, digest, created, h, s, n);
  }

  lemma HeldPart(key: VersionKey, created: int, g: seq<Op>, c: Dir, n: PartName)
    requires ClientIs(key, created, g, c) && GoodHistory(created, g) && n in c.parts
    ensures n in c.attrs.value.parts && HasBase(c) && PartIs(key, created, g, n, c.parts[n].data)
  {
    BaseHeld(key, created, g, c, n);
  }

  lemma StillThere(created: int, g: seq<Op>, h: seq<Op>, old_: Attrs, new_: Attrs, n: PartName)
    requires Earlier(created, g, h)
    requires TimesAre(created, g, old_.lastModified, PartTimes(old_))
    requires TimesAre(created, h, new_.lastModified, PartTimes(new_))
    requires n in old_.parts
    ensures n in new_.parts
  {
    PartTimeGrows(created, g, h, old_, new_, n);
  }

  /** Replaying the named logs over the client's part n cannot fail, nor give anything but the
      server's part, which is signed. */
  ghost predicate Replays(key: VersionKey, digest: Digest, c: Dir, s: Dir, names: seq<LogName>, n: PartName)
    requires c.attrs.Some? && s.attrs.Some?
  {
    && n in c.parts && n in s.parts && n in c.attrs.value.parts
    && !ReplayFails(key, s.logs, names, n, c.attrs.value.parts[n].lastModified, c.parts[n].data)
    && (forall d ::
        Replayed(key, HasBase(c), s.logs, names, n, c.attrs.value.parts[n].lastModified, c.parts[n].data, d) ==>
          d == s.parts[n].data)
    && SignatureHolds(digest, s.attrs.value, n, s.parts[n].data)
  }

  lemma ReplaysPart(key: VersionKey, digest: Digest, created: int, g: seq<Op>, h: seq<Op>, c: Dir, s: Dir,
                    names: seq<LogName>, n: PartName)
    requires c.attrs.Some? && s.attrs.Some? && n in c.parts && n in s.parts && n in c.attrs.value.parts
    requires AttrsAre(created, g, h, c.attrs.value, s.attrs.value, s.logs)
    requires Selected(c.attrs.value, s.attrs.value, names) && HasBase(c)
    requires PartIs(key, created, g, n, c.parts[n].data) && PartIs(key, created, h, n, s.parts[n].data)
    requires SignatureHolds(digest, s.attrs.value, n, s.parts[n].data)
    ensures Replays(key, digest, c, s, names, n)
  {
    var a, b := c.attrs.value, s.attrs.value;
    ReplayNeverFails(key, created, g, h, a, b, s.logs, names, n, c.parts[n].data, s.parts[n].data);
    forall d | Replayed(key, true, s.logs, names, n, a.parts[n].lastModified, c.parts[n].data, d)
      ensures d == s.parts[n].data
    {
      ReplayedPart(key, created, g, h, a, b, s.logs, names, n, c.parts[n].data, d, s.parts[n].data);
    }
  }

  lemma ReplaysAll(key: VersionKey, digest: Digest, created: int, g: seq<Op>, h: seq<Op>, c: Dir, s: Dir,
                   names: seq<LogName>)
    requires Pair(key, digest, created, g, h, c, s) && Selected(c.attrs.value, s.attrs.value, names)
    ensures forall n :: n in c.parts ==> Replays(key, digest, c, s, names, n)
  {
    forall n | n in c.parts
      ensures Replays(key, digest, c, s, names, n)
    {
      PairAttrs(key, digest, created, g, h, c, s);
      PairPart(key, digest, created, g, h, c, s, n);
      ReplaysPart(key, digest, created, g, h, c, s, names, n);
    }
  }

  lemma LogSyncNeverFails(key: VersionKey, digest: Digest, c: Dir, s: Dir, names: seq<LogName>)
    requires c.attrs.Some? && s.attrs.Some?
    requires forall n :: n in c.parts ==> Replays(key, digest, c, s, names, n)
    ensures !SyncLogsFail(key, c, s, names) && forall e :: !LogsRefused(key, digest, c, s, names, e)
  {
    forall e
      ensures !SyncLogsReject(key, c, s, names, e)
    {
      forall n | n in c.parts && n in c.attrs.value.parts
        ensures !ReplayRejects(key, s.logs, names, n, c.attrs.value.parts[n].lastModified, c.parts[n].data, e)
      {
        assert Replays(key, digest, c, s, names, n);
        ReplaySteps.FailsByRejecting(key, s.logs, names, n, c.attrs.value.parts[n].lastModified, c.parts[n].data);
      }
    }
    forall e
      ensures !SyncLogsUnsigned(key, digest, c, s, names, e)
    {
    }
  }

  /** A sync that reads update logs succeeds and leaves every part the client has as the server's. */
  lemma LogSync(key: VersionKey, digest: Digest, created: int, g: seq<Op>, h: seq<Op>, c: Dir, s: Dir,
                names: seq<LogName>, c': Dir, r: Result<(), CatalogError>)
    requires Pair(key, digest, created, g, h, c, s)
    requires Selected(c.attrs.value, s.attrs.value, names)
    requires Needed(c.attrs.value, s.attrs, Ok(UpdateLogs(names)))
    requires SyncWith(key, digest, c, s, Ok(UpdateLogs(names)), c', r)
    ensures r.Ok? && c'.attrs == s.attrs && c'.parts.Keys == c.parts.Keys
    ensures forall n :: n in c'.parts ==> n in s.parts && c'.parts[n].data == s.parts[n].data
  {
    ReplaysAll(key, digest, created, g, h, c, s, names);
    LogSyncNeverFails(key, digest, c, s, names);
    forall n | n in c.parts
      ensures n in s.parts && c'.parts[n].data == s.parts[n].data
    {
      assert Replays(key, digest, c, s, names, n);
    }
  }

  /** A client that has any part has the base part. */
  lemma BaseHeld(key: VersionKey, created: int, g: seq<Op>, c: Dir, n: PartName)
    requires ClientIs(key, created, g, c) && GoodHistory(created, g) && n in c.parts
    ensures HasBase(c)
  {
    assert n in PartTimes(c.attrs.value);
    assert Touched(g, n);
    var i :| 0 <= i < |g| && n in g[i].parts;
    assert Base in g[i].parts;
    assert Touched(g, Base);
    assert Base in PartTimes(c.attrs.value);
  }

  lemma OfferedPart(key: VersionKey, digest: Digest, created: int, h: seq<Op>, s: Dir, n: PartName)
    requires SavedIs(key, digest, created, h, s) && n in s.attrs.value.parts
    ensures n in s.parts && SortAll(key, s.parts[n].data) == s.parts[n].data
  {
    SavedPart(key, digest, created, h, s, n);
    SortedPartStays(key, created, h, n, s.parts[n].data);
  }

  lemma PartSyncPart(key: VersionKey, digest: Digest, created: int, g: seq<Op>, h: seq<Op>, c: Dir, s: Dir, n: PartName)
    requires Pair(key, digest, created, g, h, c, s) && n in c.parts
    ensures n in s.parts && n in s.attrs.value.parts
    ensures n in ChangedParts(c.attrs.value, s.attrs.value) || c.parts[n].data == s.parts[n].data
  {
    if n !in ChangedParts(c.attrs.value, s.attrs.value) {
      KeptPart(key, digest, created, g, h, c, s, n);
    } else {
      PairPart(key, digest, created, g, h, c, s, n);
    }
  }

  /** So does a sync that copies whole parts. */
  lemma PartSync(key: VersionKey, digest: Digest, created: int, g: seq<Op>, h: seq<Op>, c: Dir, s: Dir,
                 names: set<PartName>, c': Dir, r: Result<(), CatalogError>)
    requires Pair(key, digest, created, g, h, c, s)
    requires names == ChangedParts(c.attrs.value, s.attrs.value) + NewParts(c.attrs.value, s.attrs.value)
    requires Needed(c.attrs.value, s.attrs, Ok(WholeParts(names)))
    requires SyncWith(key, digest, c, s, Ok(WholeParts(names)), c', r)
    ensures r.Ok? && c'.attrs == s.attrs && c'.parts.Keys == c.parts.Keys + names
    ensures forall n :: n in c'.parts ==> n in s.parts && c'.parts[n].data == s.parts[n].data
  {
    forall n | n in c.parts || n in names
      ensures Copied(key, c, s, names, n)
    {
      if n in c.parts {
        PartSyncPart(key, digest, created, g, h, c, s, n);
      }
      OfferedPart(key, digest, created, h, s, n);
    }
    if Base in c.parts || Base in names {
      assert Copied(key, c, s, names, Base);
      SavedPart(key, digest, created, h, s, Base);
    }
    CopiesGive(key, digest, c, s, names, c', r);
  }

  /** Part n is to be copied or the same anyway, and sorted already. */
  ghost predicate Copied(key: VersionKey, c: Dir, s: Dir, names: set<PartName>, n: PartName) {
    && n in s.parts && s.attrs.Some? && n in s.attrs.value.parts
    && (n in names || (n in c.parts && c.parts[n].data == s.parts[n].data))
    && SortAll(key, s.parts[n].data) == s.parts[n].data
  }

  lemma CopiesGive(key: VersionKey, digest: Digest, c: Dir, s: Dir, names: set<PartName>, c': Dir,
                   r: Result<(), CatalogError>)
    requires c.attrs.Some? && s.attrs.Some?
    requires forall n :: n in c.parts || n in names ==> Copied(key, c, s, names, n)
    requires Base in c.parts || Base in names ==>
               Base in s.parts && SignatureHolds(digest, s.attrs.value, Base, s.parts[Base].data)
    requires Needed(c.attrs.value, s.attrs, Ok(WholeParts(names)))
    requires SyncWith(key, digest, c, s, Ok(WholeParts(names)), c', r)
    ensures r.Ok? && c'.attrs == s.attrs && c'.parts.Keys == c.parts.Keys + names
    ensures forall n :: n in c'.parts ==> n in s.parts && c'.parts[n].data == s.parts[n].data
  {
    assert names <= s.parts.Keys;
    if Base in c.parts || Base in names {
      assert Copied(key, c, s, names, Base);
    }
    assert BaseSigned(key, digest, c, s, names);
    forall n | n in c'.parts
      ensures n in s.parts && c'.parts[n].data == s.parts[n].data
    {
      assert Copied(key, c, s, names, n);
    }
  }

  lemma SavedKeys(key: VersionKey, digest: Digest, created: int, h: seq<Op>, s: Dir)
    requires SavedIs(key, digest, created, h, s)
    ensures s.attrs.value.parts.Keys == s.parts.Keys
    ensures s.attrs.value.created == created
    ensures TimesAre(created, h, s.attrs.value.lastModified, PartTimes(s.attrs.value))
  {
    assert PartTimes(s.attrs.value).Keys == s.attrs.value.parts.Keys;
  }

  /** A client whose parts are those of a saved server catalog, with its attributes. */
  lemma SyncedClient(key: VersionKey, digest: Digest, created: int, h: seq<Op>, s: Dir, c: Dir)
    requires SavedIs(key, digest, created, h, s)
    requires c.attrs == s.attrs
    requires forall n :: n in c.parts ==> n in s.parts && c.parts[n].data == s.parts[n].data
    requires Base in s.parts ==> Base in c.parts
    ensures ClientIs(key, created, h, c)
  {
    SavedKeys(key, digest, created, h, s);
    forall n | n in c.parts
      ensures PartIs(key, created, h, n, c.parts[n].data)
    {
      SavedPart(key, digest, created, h, s, n);
    }
  }

  lemma BaseKept(c: Dir, s: Dir, held: set<PartName>)
    requires c.attrs.Some? && s.attrs.Some? && c.parts.Keys <= held
    requires NewParts(c.attrs.value, s.attrs.value) <= held
    requires Base in c.attrs.value.parts ==> Base in c.parts
    requires s.attrs.value.parts.Keys == s.parts.Keys
    ensures Base in s.parts ==> Base in held
  {
    assert LocaleOf(Base) == "C";
    assert Base in s.attrs.value.parts && Base !in c.attrs.value.parts ==>
             Base in NewParts(c.attrs.value, s.attrs.value);
  }

  /** A client whose catalog is as old as the server's has the server's parts. */
  lemma NothingNew(key: VersionKey, digest: Digest, created: int, g: seq<Op>, h: seq<Op>, c: Dir, s: Dir)
    requires Pair(key, digest, created, g, h, c, s)
    requires LastTime(created, g) == LastTime(created, h)
    ensures g == h && forall n :: n in c.parts ==> n in s.parts && c.parts[n].data == s.parts[n].data
  {
    SameTimeSameHistory(created, g, h);
    forall n | n in c.parts
      ensures n in s.parts && c.parts[n].data == s.parts[n].data
    {
      PairPart(key, digest, created, g, h, c, s, n);
      PartUnique(key, created, h, n, c.parts[n].data, s.parts[n].data);
    }
  }

  /** The client has all the parts it had, and the new ones of the locale "C", and every part it has is
      the one that was saved. */
  ghost predicate CaughtUp(key: VersionKey, created: int, h: seq<Op>, c: Dir, s: Dir, c': Dir) {
    && ClientIs(key, created, h, c') && c.attrs.Some? && s.attrs.Some?
    && c'.attrs.value.lastModified == s.attrs.value.lastModified
    && c.parts.Keys <= c'.parts.Keys
    && (forall n :: n in c'.parts ==> n in s.parts && c'.parts[n].data == s.parts[n].data)
    && (forall n :: n in s.parts && LocaleOf(n) == "C" && n !in c.attrs.value.parts ==> n in c'.parts)
  }

  lemma CaughtUpByLogs(key: VersionKey, digest: Digest, created: int, g: seq<Op>, h: seq<Op>, c: Dir, s: Dir,
                       names: seq<LogName>, c': Dir, r: Result<(), CatalogError>)
    requires Pair(key, digest, created, g, h, c, s) && Selected(c.attrs.value, s.attrs.value, names)
    requires Needed(c.attrs.value, s.attrs, Ok(UpdateLogs(names)))
    requires SyncWith(key, digest, c, s, Ok(UpdateLogs(names)), c', r)
    ensures r.Ok? && CaughtUp(key, created, h, c, s, c')
  {
    LogSync(key, digest, created, g, h, c, s, names, c', r);
    SavedKeys(key, digest, created, h, s);
    BaseKept(c, s, c'.parts.Keys);
    SyncedClient(key, digest, created, h, s, c');
    NewPartsKept(c, s, c'.parts.Keys);
  }

  lemma CaughtUpByParts(key: VersionKey, digest: Digest, created: int, g: seq<Op>, h: seq<Op>, c: Dir, s: Dir,
                        names: set<PartName>, c': Dir, r: Result<(), CatalogError>)
    requires Pair(key, digest, created, g, h, c, s)
    requires names == ChangedParts(c.attrs.value, s.attrs.value) + NewParts(c.attrs.value, s.attrs.value)
    requires Needed(c.attrs.value, s.attrs, Ok(WholeParts(names)))
    requires SyncWith(key, digest, c, s, Ok(WholeParts(names)), c', r)
    ensures r.Ok? && CaughtUp(key, created, h, c, s, c')
  {
    PartSync(key, digest, created, g, h, c, s, names, c', r);
    SavedKeys(key, digest, created, h, s);
    BaseKept(c, s, c'.parts.Keys);
    SyncedClient(key, digest, created, h, s, c');
    NewPartsKept(c, s, c'.parts.Keys);
  }

  lemma NewPartsKept(c: Dir, s: Dir, held: set<PartName>)
    requires c.attrs.Some? && s.attrs.Some? && NewParts(c.attrs.value, s.attrs.value) <= held
    requires s.attrs.value.parts.Keys == s.parts.Keys
    ensures forall n :: n in s.parts && LocaleOf(n) == "C" && n !in c.attrs.value.parts ==> n in held
  {
    forall n | n in s.parts && LocaleOf(n) == "C" && n !in c.attrs.value.parts
      ensures n in held
    {
      assert n in s.attrs.value.parts;
      assert n in NewParts(c.attrs.value, s.attrs.value);
    }
  }

  lemma CaughtUpAlready(key: VersionKey, digest: Digest, created: int, g: seq<Op>, h: seq<Op>, c: Dir, s: Dir)
    requires Pair(key, digest, created, g, h, c, s) && c.attrs.value.lastModified == s.attrs.value.lastModified
    ensures CaughtUp(key, created, h, c, s, c)
  {
    SavedKeys(key, digest, created, h, s);
    NothingNew(key, digest, created, g, h, c, s);
    forall n | n in s.parts
      ensures n in c.attrs.value.parts
    {
      assert n in PartTimes(s.attrs.value);
      assert n in PartTimes(c.attrs.value);
    }
  }

  lemma AnswerCatchesUp(key: VersionKey, digest: Digest, created: int, g: seq<Op>, h: seq<Op>, c: Dir, s: Dir,
                        a: Answer, c': Dir, r: Result<(), CatalogError>)
    requires Pair(key, digest, created, g, h, c, s) && c.attrs.value.lastModified != s.attrs.value.lastModified
    requires Needed(c.attrs.value, s.attrs, Ok(a)) && SyncWith(key, digest, c, s, Ok(a), c', r)
    ensures r.Ok? && CaughtUp(key, created, h, c, s, c')
  {
    NeverRefused(key, digest, created, g, h, c, s);
    match a
    case UpdateLogs(names) =>
      CaughtUpByLogs(key, digest, created, g, h, c, s, names, c', r);
    case WholeParts(names) =>
      CaughtUpByParts(key, digest, created, g, h, c, s, names, c', r);
  }

  /** The replication theorem: a sync with a later saved state of the same server always succeeds
      and brings the client to that state. */
  lemma SyncCatchesUp(key: VersionKey, digest: Digest, created: int, g: seq<Op>, h: seq<Op>, c: Dir, s: Dir,
                      c': Dir, r: Result<(), CatalogError>)
    requires Pair(key, digest, created, g, h, c, s)
    requires Sync(key, digest, c, s, c', r)
    ensures r.Ok? && CaughtUp(key, created, h, c, s, c')
  {
    NeverRefused(key, digest, created, g, h, c, s);
    var a :| Needed(c.attrs.value, s.attrs, a) && SyncWith(key, digest, c, s, a, c', r);
    if c.attrs.value.lastModified == s.attrs.value.lastModified {
      CaughtUpAlready(key, digest, created, g, h, c, s);
    } else {
      AnswerCatchesUp(key, digest, created, g, h, c, s, a.value, c', r);
    }
  }
}
