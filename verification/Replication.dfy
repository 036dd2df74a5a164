/** The replication protocol: a server catalog that is operated on, saved and relieved of old
    update logs, and a client that fetches it once and then keeps it up to date. */
module Replication {
  import opened CatalogParts
  import opened CatalogUpdates
  import opened Coverage
  import opened History
  import opened NestedLists
  import opened Protocol
  import opened VersionLists
  import opened Wrappers

  // ----- What a state says about the history

  ghost function LastTime(created: int, h: seq<Op>): int {
    if h == [] then created else h[|h| - 1].time
  }

  ghost predicate Touched(h: seq<Op>, n: PartName) {
    exists i :: 0 <= i < |h| && n in h[i].parts
  }

  /** t is the time of the last operation on part n. */
  ghost predicate LastTouch(h: seq<Op>, n: PartName, t: int) {
    && (exists i :: 0 <= i < |h| && n in h[i].parts && h[i].time == t)
    && forall i :: 0 <= i < |h| && n in h[i].parts ==> h[i].time <= t
  }

  ghost predicate LastLogged(h: seq<Op>, l: LogName, t: int) {
    && (exists i :: 0 <= i < |h| && l in LogsFor(h[i]) && h[i].time == t)
    && forall i :: 0 <= i < |h| && l in LogsFor(h[i]) ==> h[i].time <= t
  }

  /** A history of accepted operations after the creation of the catalog. */
  ghost predicate GoodHistory(created: int, h: seq<Op>) {
    && Increasing(h)
    && forall i :: 0 <= i < |h| ==> GoodOp(created, h[i])
  }

  ghost predicate GoodOp(created: int, op: Op) {
    && op.time > created
    && (op.parts != map[] ==> Base in op.parts)
    && forall n :: n in op.parts ==> op.parts[n].version == op.fmri.version
  }

  /** d is part n as of history h: every list is its own operations, done in time order
      and sorted after each addition. */
  ghost predicate PartIs(key: VersionKey, created: int, h: seq<Op>, n: PartName, d: Entries) {
    && NoEmpty(d)
    && forall p: Publisher, s: string ::
         Run(key, true, [], PartChanges(StemOps(h, p, s), n, created)) == Some(ListAt(d, p, s))
  }

  ghost predicate LogIs(h: seq<Op>, l: LogName, d: Nested<LogEntry>) {
    && NoEmpty(d)
    && forall p: Publisher, s: string :: ListAt(d, p, s) == Logged(StemOps(h, p, s), l)
  }

  /** The log l holds everything since some operation: since its hour began, or since it was started
      afresh after it had been dropped. */
  ghost predicate LogEnds(h: seq<Op>, l: LogName, d: Nested<LogEntry>) {
    exists k :: 0 <= k <= |h| && LogIs(h[k..], l, d)
  }

  ghost predicate Recorded(op: Op, d: Nested<LogEntry>) {
    exists e :: e in ListAt(d, op.fmri.pub, op.fmri.stem) && e.time == op.time
  }

  /** The log of part n still records the operation. */
  ghost predicate Held(op: Op, n: PartName, logs: LogFiles) {
    var l := LogName(Hour(op.time), LocaleOf(n));
    l in logs && Recorded(op, logs[l].data)
  }

  /** For a client that has seen the first a operations, the log of the hour in which part n last changed
      is offered, or may be started by an operation that comes next. */
  ghost predicate BoundaryOffered(h: seq<Op>, now: int, logs: set<LogName>, a: int, n: PartName)
    requires 0 <= a <= |h|
  {
    forall t :: LastTouch(h[..a], n, t) ==> LogName(Hour(t), LocaleOf(n)) in logs || Hour(t) == Hour(now + 1)
  }

  /** A client that has seen the first a operations is told to read logs, now or after some operation that
      comes later. */
  ghost predicate MayRead(h: seq<Op>, now: int, logs: set<LogName>, a: int)
    requires 0 <= a <= |h|
  {
    forall n :: Touched(h[a..], n) ==>
      if Touched(h[..a], n) then BoundaryOffered(h, now, logs, a, n) else LocaleOf(n) != "C"
  }

  /** No client that may be told to read logs misses an operation on a part it knows. */
  ghost predicate NothingLost(h: seq<Op>, now: int, logs: LogFiles) {
    forall a, i, n :: 0 <= a <= i < |h| && n in h[i].parts && Touched(h[..a], n) && MayRead(h, now, logs.Keys, a) ==>
      Held(h[i], n, logs)
  }

  /** The times and parts a catalog lists. */
  ghost predicate TimesAre(created: int, h: seq<Op>, lastModified: int, times: map<PartName, int>) {
    && lastModified == LastTime(created, h)
    && (forall n :: n in times <==> Touched(h, n))
    && forall n :: n in times ==> LastTouch(h, n, times[n])
  }

  ghost predicate PartsAre(key: VersionKey, created: int, h: seq<Op>, ps: PartFiles) {
    forall n :: n in ps ==> PartIs(key, created, h, n, ps[n].data)
  }

  ghost predicate LogsAre(h: seq<Op>, now: int, logs: LogFiles, times: map<LogName, int>) {
    && logs.Keys == times.Keys
    && (forall l :: l in logs ==> LogEnds(h, l, logs[l].data) && LastLogged(h, l, times[l]))
    && NothingLost(h, now, logs)
  }

  ghost predicate CountsAre(d: Entries, packageCount: nat, versionCount: nat) {
    packageCount == |Packages(d)| && versionCount == |Fmris(d)|
  }

  /** The server catalog v is what the history h makes of an empty one, whatever old logs it has dropped on
      the way; the time is now. */
  ghost predicate ServerIs(key: VersionKey, created: int, h: seq<Op>, now: int, v: View) {
    && GoodHistory(created, h)
    && v.created == created && v.lastModified <= now
    && TimesAre(created, h, v.lastModified, v.partTimes)
    && v.parts.Keys == v.partTimes.Keys
    && PartsAre(key, created, h, v.parts)
    && LogsAre(h, now, v.logs, v.logTimes)
    && BaseCovers(v.parts)
    && CountsAre(DataOf(v.parts, Base), v.packageCount, v.versionCount)
  }

  // ----- The server's steps

  /** What goes through: an operation that fits the parts, at a later time. */
  ghost predicate Accepts(v: View, op: Op) {
    op.time > v.lastModified && Fits(v.parts, op)
  }

  /** Dropping these logs now loses nothing for any client. */
  ghost predicate MayDrop(h: seq<Op>, now: int, v: View, drop: set<LogName>) {
    drop <= v.logs.Keys && NothingLost(h, now, v.logs - drop)
  }

  /** The logs go oldest first, locale by locale. */
  ghost predicate OldestFirst(v: View, drop: set<LogName>) {
    && drop <= v.logs.Keys
    && forall l, m :: l in drop && m in v.logs && m.locale == l.locale && m.hour <= l.hour ==> m in drop
  }

  ghost function Expire(v: View, drop: set<LogName>): View {
    v.(logs := v.logs - drop, logTimes := v.logTimes - drop)
  }

  lemma HistoryAfter(created: int, h: seq<Op>, op: Op)
    requires GoodHistory(created, h) && GoodOp(created, op) && op.time > LastTime(created, h)
    ensures GoodHistory(created, h + [op]) && LastTime(created, h + [op]) == op.time
  {
    NowAfterAll(created, h);
  }

  lemma TouchedAfter(h: seq<Op>, op: Op, n: PartName)
    ensures Touched(h + [op], n) <==> Touched(h, n) || n in op.parts
  {
    var g := h + [op];
    assert g[|h|] == op && forall i :: 0 <= i < |h| ==> g[i] == h[i];
    if Touched(h, n) {
      var i :| 0 <= i < |h| && n in h[i].parts;
      assert n in g[i].parts;
    }
    if n in op.parts {
      assert n in g[|h|].parts;
    }
  }

  lemma TouchTimeAfter(h: seq<Op>, now: int, op: Op, n: PartName, t: int)
    requires forall i :: 0 <= i < |h| ==> h[i].time <= now < op.time
    requires n in op.parts || LastTouch(h, n, t)
    ensures LastTouch(h + [op], n, if n in op.parts then op.time else t)
  {
    var g := h + [op];
    assert g[|h|] == op && forall i :: 0 <= i < |h| ==> g[i] == h[i];
    if n in op.parts {
      assert n in g[|h|].parts;
    } else {
      var i :| 0 <= i < |h| && n in h[i].parts && h[i].time == t;
      assert n in g[i].parts;
    }
  }

  lemma TimesAfter(created: int, h: seq<Op>, times: map<PartName, int>, op: Op)
    requires GoodHistory(created, h) && TimesAre(created, h, LastTime(created, h), times)
    requires GoodOp(created, op) && op.time > LastTime(created, h)
    ensures TimesAre(created, h + [op], op.time, Stamp(times, op.parts.Keys, op.time))
  {
    NowAfterAll(created, h);
    HistoryAfter(created, h, op);
    forall n
      ensures n in Stamp(times, op.parts.Keys, op.time) <==> Touched(h + [op], n)
      ensures n in Stamp(times, op.parts.Keys, op.time) ==>
                LastTouch(h + [op], n, Stamp(times, op.parts.Keys, op.time)[n])
    {
      TouchedAfter(h, op, n);
      if n in Stamp(times, op.parts.Keys, op.time) {
        TouchTimeAfter(h, LastTime(created, h), op, n, if n in times then times[n] else 0);
      }
    }
  }

  lemma StemOpsAppend(h: seq<Op>, op: Op, p: Publisher, s: string)
    ensures StemOps(h + [op], p, s)
         == StemOps(h, p, s) + if op.fmri.pub == p && op.fmri.stem == s
                               then [LogEntry(op.kind, op.time, op.fmri.version, op.parts)] else []
  {
    assert (h + [op])[..|h|] == h;
  }

  /** One more operation is one more change of one list of each part it handled. */
  lemma ChangesAppend(created: int, h: seq<Op>, op: Op, n: PartName, p: Publisher, s: string)
    requires GoodOp(created, op)
    ensures PartChanges(StemOps(h + [op], p, s), n, created)
         == PartChanges(StemOps(h, p, s), n, created)
            + if n in op.parts && op.fmri.pub == p && op.fmri.stem == s then [Change(op.kind, op.parts[n])] else []
  {
    StemOpsAppend(h, op, p, s);
    var e := LogEntry(op.kind, op.time, op.fmri.version, op.parts);
    if op.fmri.pub == p && op.fmri.stem == s {
      PartChangesAppend(StemOps(h, p, s), e, n, created);
      assert n in op.parts ==> op.parts[n].(version := e.version) == op.parts[n];
    } else {
      assert StemOps(h + [op], p, s) == StemOps(h, p, s);
    }
  }

  lemma PartUnchanged(key: VersionKey, created: int, h: seq<Op>, op: Op, n: PartName, d: Entries)
    requires GoodOp(created, op) && n !in op.parts && PartIs(key, created, h, n, d)
    ensures PartIs(key, created, h + [op], n, d)
  {
    forall p: Publisher, s: string
      ensures Run(key, true, [], PartChanges(StemOps(h + [op], p, s), n, created)) == Some(ListAt(d, p, s))
    {
      ChangesAppend(created, h, op, n, p, s);
      var cs := PartChanges(StemOps(h, p, s), n, created);
      assert cs + [] == cs;
    }
  }

  lemma RunAppend(key: VersionKey, ordered: bool, s: seq<Entry>, cs: seq<Change>, c: Change)
    ensures Run(key, ordered, s, cs + [c])
         == var r := Run(key, ordered, s, cs); if r.None? then None else Apply(key, ordered, r.value, c)
  {
    assert (cs + [c])[..|cs|] == cs;
  }

  lemma PartChanged(key: VersionKey, created: int, h: seq<Op>, op: Op, n: PartName, d: Entries)
    requires GoodOp(created, op) && n in op.parts && PartIs(key, created, h, n, d)
    requires op.kind == Add ==> !Contains(d, op.fmri)
    requires op.kind == Remove ==> Contains(d, op.fmri)
    ensures PartIs(key, created, h + [op], n, Edit(key, true, op.kind, d, op.fmri, op.parts[n]))
  {
    var f, e := op.fmri, op.parts[n];
    var l := Changed(key, true, op.kind, ListAt(d, f.pub, f.stem), e);
    PutListAt(d, f.pub, f.stem, l);
    forall p: Publisher, s: string
      ensures Run(key, true, [], PartChanges(StemOps(h + [op], p, s), n, created))
           == Some(ListAt(Put(d, f.pub, f.stem, l), p, s))
    {
      ChangesAppend(created, h, op, n, p, s);
      var cs := PartChanges(StemOps(h, p, s), n, created);
      if f.pub == p && f.stem == s {
        RunAppend(key, true, [], cs, Change(op.kind, e));
      } else {
        assert cs + [] == cs;
      }
    }
  }

  /** A part that no operation has handled is empty. */
  lemma PartEmpty(key: VersionKey, created: int, h: seq<Op>, n: PartName)
    requires !Touched(h, n)
    ensures PartIs(key, created, h, n, map[])
  {
    forall p: Publisher, s: string
      ensures PartChanges(StemOps(h, p, s), n, created) == []
    {
      StemOpsFrom(h, p, s);
      NoChangesBefore(StemOps(h, p, s), n, created);
    }
  }

  /** What one more operation adds to one list of the log l. */
  ghost function LogLine(op: Op, l: LogName, p: Publisher, s: string): seq<LogEntry> {
    if op.fmri.pub == p && op.fmri.stem == s && l in LogsFor(op)
    then [LogEntry(op.kind, op.time, op.fmri.version, Restrict(op.parts, l.locale))] else []
  }

  lemma LoggedAppend(h: seq<Op>, op: Op, l: LogName, p: Publisher, s: string)
    ensures Logged(StemOps(h + [op], p, s), l) == Logged(StemOps(h, p, s), l) + LogLine(op, l, p, s)
  {
    StemOpsAppend(h, op, p, s);
    LogsForRestrict(op, l);
    var es := StemOps(h, p, s);
    var e := LogEntry(op.kind, op.time, op.fmri.version, op.parts);
    if op.fmri.pub == p && op.fmri.stem == s {
      assert (es + [e])[..|es|] == es;
    } else {
      assert es + [] == es;
    }
  }

  lemma LogAppend(h: seq<Op>, op: Op, l: LogName, d: Nested<LogEntry>)
    requires LogIs(h, l, d)
    ensures LogIs(h + [op], l, if l in LogsFor(op) then Append(d, op, l.locale) else d)
  {
    var d' := if l in LogsFor(op) then Append(d, op, l.locale) else d;
    LineAppended(op, l, d);
    forall p: Publisher, s: string
      ensures Logged(StemOps(h + [op], p, s), l) == ListAt(d', p, s)
    {
      LoggedAppend(h, op, l, p, s);
    }
  }

  lemma LineAppended(op: Op, l: LogName, d: Nested<LogEntry>)
    requires NoEmpty(d)
    ensures var d' := if l in LogsFor(op) then Append(d, op, l.locale) else d;
            NoEmpty(d') && forall p: Publisher, s: string :: ListAt(d', p, s) == ListAt(d, p, s) + LogLine(op, l, p, s)
  {
    var f := op.fmri;
    var more := ListAt(d, f.pub, f.stem) + [LogEntry(op.kind, op.time, f.version, Restrict(op.parts, l.locale))];
    PutListAt(d, f.pub, f.stem, more);
    forall p: Publisher, s: string
      ensures ListAt(d, p, s) + [] == ListAt(d, p, s)
    {
    }
  }

  lemma LogsForRestrict(op: Op, l: LogName)
    ensures l in LogsFor(op) <==> Hour(op.time) == l.hour && Restrict(op.parts, l.locale) != map[]
  {
    if Restrict(op.parts, l.locale) != map[] {
      var n :| n in Restrict(op.parts, l.locale);
      assert LocaleOf(n) in Locales(op.parts);
    }
    if l in LogsFor(op) {
      var n :| n in op.parts && LocaleOf(n) == l.locale;
      assert n in Restrict(op.parts, l.locale);
    }
  }

  /** The log of nothing. */
  lemma LogEmpty(l: LogName)
    ensures LogIs([], l, map[])
  {
  }

  // ----- Every step keeps the server in step with its history

  lemma NowAfterAll(created: int, h: seq<Op>)
    requires GoodHistory(created, h)
    ensures forall i :: 0 <= i < |h| ==> h[i].time <= LastTime(created, h)
    ensures created <= LastTime(created, h)
  {
  }

  lemma PartsAfter(key: VersionKey, created: int, h: seq<Op>, v: View, op: Op)
    requires PartsAre(key, created, h, v.parts) && Accepts(v, op) && GoodOp(created, op)
    requires forall n :: Touched(h, n) ==> n in v.parts
    ensures PartsAre(key, created, h + [op], Touch(key, true, v.parts, op))
  {
    var ps := Touch(key, true, v.parts, op);
    forall n | n in ps
      ensures PartIs(key, created, h + [op], n, ps[n].data)
    {
      if n in op.parts {
        if n !in v.parts {
          PartEmpty(key, created, h, n);
        }
        PartChanged(key, created, h, op, n, DataOf(v.parts, n));
      } else {
        PartUnchanged(key, created, h, op, n, v.parts[n].data);
      }
    }
  }

  lemma LogTimeAfter(h: seq<Op>, now: int, op: Op, l: LogName, t: int)
    requires forall i :: 0 <= i < |h| ==> h[i].time <= now < op.time
    requires l in LogsFor(op) || LastLogged(h, l, t)
    ensures LastLogged(h + [op], l, if l in LogsFor(op) then op.time else t)
  {
    var g := h + [op];
    assert g[|h|] == op && forall i :: 0 <= i < |h| ==> g[i] == h[i];
    if l in LogsFor(op) {
      assert l in LogsFor(g[|h|]);
    } else {
      var i :| 0 <= i < |h| && l in LogsFor(h[i]) && h[i].time == t;
      assert l in LogsFor(g[i]);
    }
  }

  lemma StillTouched(h: seq<Op>, op: Op, a: int, n: PartName)
    requires 0 <= a <= |h|
    ensures (h + [op])[..a] == h[..a] && (h + [op])[a..] == h[a..] + [op]
    ensures Touched(h[a..], n) ==> Touched((h + [op])[a..], n)
  {
    TouchedAfter(h[a..], op, n);
  }

  /** A client that may be told to read logs after one more operation already was before it. */
  lemma MayReadBefore(h: seq<Op>, now: int, logs: set<LogName>, op: Op, a: int)
    requires 0 <= a <= |h| && op.time > now && forall i :: 0 <= i < |h| ==> h[i].time <= now
    requires MayRead(h + [op], op.time, logs + LogsFor(op), a)
    ensures MayRead(h, now, logs, a)
  {
    forall n | Touched(h[a..], n)
      ensures if Touched(h[..a], n) then BoundaryOffered(h, now, logs, a, n) else LocaleOf(n) != "C"
    {
      StillTouched(h, op, a, n);
      if Touched(h[..a], n) {
        assert BoundaryOffered(h + [op], op.time, logs + LogsFor(op), a, n);
        forall t | LastTouch(h[..a], n, t)
          ensures LogName(Hour(t), LocaleOf(n)) in logs || Hour(t) == Hour(now + 1)
        {
          HourMonotone(t, now);
          HourMonotone(now, now + 1);
          HourMonotone(now + 1, op.time);
          HourMonotone(op.time, op.time + 1);
        }
      }
    }
  }

  lemma RecordedAfter(d: Nested<LogEntry>, op: Op, l: LogName, other: Op)
    requires NoEmpty(d) && (Recorded(other, d) || other == op)
    ensures Recorded(other, Append(d, op, l.locale))
  {
    var f := op.fmri;
    var line := LogEntry(op.kind, op.time, f.version, Restrict(op.parts, l.locale));
    var lines := ListAt(d, f.pub, f.stem) + [line];
    PutListAt(d, f.pub, f.stem, lines);
    assert lines[|lines| - 1] == line && line in lines;
    if other != op {
      var e :| e in ListAt(d, other.fmri.pub, other.fmri.stem) && e.time == other.time;
      assert e in ListAt(Append(d, op, l.locale), other.fmri.pub, other.fmri.stem);
    }
  }

  lemma HeldAfter(logs: LogFiles, op: Op, other: Op, n: PartName)
    requires forall l :: l in logs ==> NoEmpty(logs[l].data)
    requires Held(other, n, logs) || (other == op && n in op.parts)
    ensures Held(other, n, Log(logs, op))
  {
    var l := LogName(Hour(other.time), LocaleOf(n));
    if other == op && n in op.parts {
      assert LocaleOf(n) in Locales(op.parts);
    }
    if l in LogsFor(op) {
      RecordedAfter(LogDataOf(logs, l), op, l, other);
    }
  }

  lemma NothingLostAfter(h: seq<Op>, now: int, logs: LogFiles, op: Op)
    requires NothingLost(h, now, logs) && op.time > now && forall i :: 0 <= i < |h| ==> h[i].time <= now
    requires forall l :: l in logs ==> NoEmpty(logs[l].data)
    ensures NothingLost(h + [op], op.time, Log(logs, op))
  {
    var g := h + [op];
    assert Log(logs, op).Keys == logs.Keys + LogsFor(op);
    forall a, i, n | 0 <= a <= i < |g| && n in g[i].parts && Touched(g[..a], n)
           && MayRead(g, op.time, Log(logs, op).Keys, a)
      ensures Held(g[i], n, Log(logs, op))
    {
      if i < |h| {
        MayReadBefore(h, now, logs.Keys, op, a);
        assert g[..a] == h[..a] && g[i] == h[i];
        assert Held(h[i], n, logs);
      }
      HeldAfter(logs, op, g[i], n);
    }
  }

  lemma LogEndsAfter(h: seq<Op>, op: Op, l: LogName, logs: LogFiles)
    requires l in Log(logs, op)
    requires l in logs ==> LogEnds(h, l, logs[l].data)
    ensures LogEnds(h + [op], l, Log(logs, op)[l].data)
  {
    var g := h + [op];
    if l in logs {
      var k :| 0 <= k <= |h| && LogIs(h[k..], l, logs[l].data);
      assert g[k..] == h[k..] + [op];
      LogAppend(h[k..], op, l, logs[l].data);
      assert LogIs(g[k..], l, Log(logs, op)[l].data);
    } else {
      LogEmpty(l);
      assert g[|h|..] == [] + [op];
      LogAppend([], op, l, map[]);
      assert LogIs(g[|h|..], l, Log(logs, op)[l].data);
    }
  }

  lemma LogsAfter(h: seq<Op>, now: int, logs: LogFiles, times: map<LogName, int>, op: Op)
    requires forall i :: 0 <= i < |h| ==> h[i].time <= now < op.time
    requires op.time > now && LogsAre(h, now, logs, times)
    ensures LogsAre(h + [op], op.time, Log(logs, op), Stamp(times, LogsFor(op), op.time))
  {
    NothingLostAfter(h, now, logs, op);
    forall l | l in Log(logs, op)
      ensures LogEnds(h + [op], l, Log(logs, op)[l].data)
      ensures LastLogged(h + [op], l, Stamp(times, LogsFor(op), op.time)[l])
    {
      LogEndsAfter(h, op, l, logs);
      LogTimeAfter(h, now, op, l, if l in times then times[l] else 0);
    }
  }

  lemma PartIsSorted(key: VersionKey, created: int, h: seq<Op>, n: PartName, d: Entries)
    requires PartIs(key, created, h, n, d)
    ensures AllSorted(key, d) && AllDistinct(d)
  {
    forall p: Publisher, s: string
      ensures Sorted(key, ListAt(d, p, s)) && Distinct(ListAt(d, p, s))
    {
      RunKeepsSortedDistinct(key, [], PartChanges(StemOps(h, p, s), n, created));
    }
  }

  /** An accepted operation keeps parts, times, logs and counts in step with the history. */
  lemma CommitKeeps(key: VersionKey, created: int, h: seq<Op>, now: int, v: View, op: Op)
    requires ServerIs(key, created, h, now, v) && Accepts(v, op) && op.time > now
    ensures ServerIs(key, created, h + [op], op.time, Commit(key, v, op))
  {
    NowAfterAll(created, h);
    HistoryAfter(created, h, op);
    TimesAfter(created, h, v.partTimes, op);
    PartsAfter(key, created, h, v, op);
    LogsAfter(h, now, v.logs, v.logTimes, op);
    forall n | n in v.parts
      ensures NoEmpty(v.parts[n].data) && AllDistinct(v.parts[n].data)
    {
      PartIsSorted(key, created, h, n, v.parts[n].data);
    }
    TouchCoheres(key, true, v.parts, op);
    CountsAfter(key, created, h + [op], Touch(key, true, v.parts, op));
  }

  lemma CountsAfter(key: VersionKey, created: int, h: seq<Op>, ps: PartFiles)
    requires PartsAre(key, created, h, ps)
    ensures CountsAre(DataOf(ps, Base), |Packages(DataOf(ps, Base))|, |Slots(DataOf(ps, Base))|)
  {
    if Base in ps {
      PartIsSorted(key, created, h, Base, ps[Base].data);
    }
    SlotsAreFmris(DataOf(ps, Base));
  }

  lemma ExpireKeeps(key: VersionKey, created: int, h: seq<Op>, now: int, v: View, drop: set<LogName>)
    requires ServerIs(key, created, h, now, v) && MayDrop(h, now, v, drop)
    ensures ServerIs(key, created, h, now, Expire(v, drop))
  {
    var w := Expire(v, drop);
    assert LogsAre(h, now, w.logs, w.logTimes);
  }

  /** A client that may be told to read logs later on already may be now. */
  lemma MayReadSooner(h: seq<Op>, now: int, later: int, logs: set<LogName>, a: int)
    requires 0 <= a <= |h| && now <= later && forall i :: 0 <= i < |h| ==> h[i].time <= now
    requires MayRead(h, later, logs, a)
    ensures MayRead(h, now, logs, a)
  {
    forall n | Touched(h[a..], n)
      ensures if Touched(h[..a], n) then BoundaryOffered(h, now, logs, a, n) else LocaleOf(n) != "C"
    {
      if Touched(h[..a], n) {
        assert BoundaryOffered(h, later, logs, a, n);
        forall t | LastTouch(h[..a], n, t)
          ensures LogName(Hour(t), LocaleOf(n)) in logs || Hour(t) == Hour(now + 1)
        {
          HourMonotone(t, now + 1);
          HourMonotone(now + 1, later + 1);
        }
      }
    }
  }

  /** The passing of time takes nothing away. */
  lemma TimePasses(key: VersionKey, created: int, h: seq<Op>, now: int, later: int, v: View)
    requires ServerIs(key, created, h, now, v) && now <= later
    ensures ServerIs(key, created, h, later, v)
  {
    NowAfterAll(created, h);
    NothingLostLater(h, now, later, v.logs);
  }

  lemma NothingLostLater(h: seq<Op>, now: int, later: int, logs: LogFiles)
    requires NothingLost(h, now, logs) && now <= later && forall i :: 0 <= i < |h| ==> h[i].time <= now
    ensures NothingLost(h, later, logs)
  {
    forall a, i, n | 0 <= a <= i < |h| && n in h[i].parts && Touched(h[..a], n) && MayRead(h, later, logs.Keys, a)
      ensures Held(h[i], n, logs)
    {
      MayReadSooner(h, now, later, logs.Keys, a);
    }
  }

  lemma MayReadMore(h: seq<Op>, now: int, logs: set<LogName>, more: set<LogName>, a: int)
    requires 0 <= a <= |h| && logs <= more && MayRead(h, now, logs, a)
    ensures MayRead(h, now, more, a)
  {
    forall n | Touched(h[a..], n)
      ensures if Touched(h[..a], n) then BoundaryOffered(h, now, more, a, n) else LocaleOf(n) != "C"
    {
      if Touched(h[..a], n) {
        assert BoundaryOffered(h, now, logs, a, n);
      }
    }
  }

  /** The last time a known part was touched. */
  lemma {:induction false} LastTouchExists(g: seq<Op>, n: PartName) returns (t: int)
    requires Touched(g, n) && Increasing(g)
    ensures LastTouch(g, n, t)
  {
    var last := |g| - 1;
    if n in g[last].parts {
      t := g[last].time;
    } else {
      var init := g[..last];
      assert g == init + [g[last]];
      TouchedAfter(init, g[last], n);
      t := LastTouchExists(init, n);
      var i :| 0 <= i < |init| && n in init[i].parts && init[i].time == t;
      assert g[i] == init[i];
    }
  }

  /** What a client that may read logs misses when logs are dropped oldest first was in a dropped log of
      the very hour in which the part had changed before, and which is not over. */
  lemma LostInOpenHour(h: seq<Op>, now: int, v: View, drop: set<LogName>, a: int, i: int, n: PartName) returns (t: int)
    requires Increasing(h) && forall j :: 0 <= j < |h| ==> h[j].time <= now
    requires NothingLost(h, now, v.logs) && OldestFirst(v, drop)
    requires 0 <= a <= i < |h| && n in h[i].parts && Touched(h[..a], n) && MayRead(h, now, (v.logs - drop).Keys, a)
    requires !Held(h[i], n, v.logs - drop)
    ensures LastTouch(h[..a], n, t) && Hour(t) == Hour(h[i].time) == Hour(now) == Hour(now + 1)
    ensures LogName(Hour(h[i].time), LocaleOf(n)) in drop
  {
    var kept := v.logs - drop;
    MayReadMore(h, now, kept.Keys, v.logs.Keys, a);
    assert Held(h[i], n, v.logs);
    t := LastTouchExists(h[..a], n);
    assert n in h[a..][i - a].parts;
    assert Touched(h[a..], n);
    assert BoundaryOffered(h, now, kept.Keys, a, n);
    var j :| 0 <= j < a && n in h[..a][j].parts && h[..a][j].time == t;
    HourMonotone(t, h[i].time);
    HourMonotone(h[i].time, now);
    HourMonotone(now, now + 1);
  }
}
