/** Small runs that there are: one in which a client catches up by reading an update log, and one in
    which dropping a log too early leaves a client that cannot. */
module SmallRuns {
  import opened CatalogParts
  import opened CatalogUpdates
  import opened History
  import opened NestedLists
  import opened Protocol
  import opened Replication
  import opened Runs
  import opened Synchronization
  import opened VersionLists
  import opened Wrappers
  import Expiry
  import Integrity
  import Strings

  // ----- Two packages, added one after the other

  /** An operation on the base part alone. */
  predicate OnBase(op: Op) {
    op.parts.Keys == {Base} && op.parts[Base].version == op.fmri.version
  }

  predicate OtherStem(op1: Op, op2: Op) {
    op1.fmri.pub != op2.fmri.pub || op1.fmri.stem != op2.fmri.stem
  }

  /** A catalog is created at time t, and two packages are added. */
  predicate TwoAdded(t: int, op1: Op, op2: Op) {
    && OnBase(op1) && OnBase(op2) && OtherStem(op1, op2)
    && op1.kind.Add? && op2.kind.Add? && t < op1.time < op2.time
  }

  /** The second package is removed again. */
  predicate Undoes(op: Op, op2: Op) {
    OnBase(op) && op.kind.Remove? && op.fmri == op2.fmri && op.time > op2.time
  }

  /** There are such operations, soon after the creation. */
  lemma SuchOperations(t: int) returns (op1: Op, op2: Op, op: Op)
    ensures TwoAdded(t, op1, op2) && Undoes(op, op2)
    ensures op1.time == t + 1 && op2.time == t + 2 && op.time == t + 3
  {
    op1 := Op(t + 1, Add, Fmri("p", "a", "1"), map[Base := Entry("1", map[], map[], [])]);
    op2 := Op(t + 2, Add, Fmri("p", "b", "1"), map[Base := Entry("1", map[], map[], [])]);
    op := Op(t + 3, Remove, Fmri("p", "b", "1"), map[Base := Entry("1", map[], map[], [])]);
  }

  ghost function One(key: VersionKey, t: int, op1: Op): View {
    Commit(key, Empty(t), op1)
  }

  ghost function Two(key: VersionKey, t: int, op1: Op, op2: Op): View {
    Commit(key, One(key, t, op1), op2)
  }

  /** The log that an operation goes into. */
  function LogAt(time: int): LogName {
    LogName(Hour(time), "C")
  }

  lemma LogOnBase(ls: LogFiles, op: Op)
    requires OnBase(op)
    ensures LogsFor(op) == {LogAt(op.time)}
    ensures Log(ls, op) == ls[LogAt(op.time) := LogFile(Append(LogDataOf(ls, LogAt(op.time)), op, "C"), op.time)]
  {
    assert LocaleOf(Base) == "C";
    assert Locales(op.parts) == {"C"};
  }

  lemma TouchOnBase(key: VersionKey, ps: PartFiles, op: Op)
    requires OnBase(op)
    ensures Touch(key, true, ps, op)
         == ps[Base := PartFile(Edit(key, true, op.kind, DataOf(ps, Base), op.fmri, op.parts[Base]), op.time)]
  {
  }

  lemma StampOne<K>(times: map<K, int>, n: K, t: int)
    ensures Stamp(times, {n}, t) == times[n := t]
  {
  }

  lemma CommitOn(key: VersionKey, v: View, op: Op)
    requires OnBase(op)
    ensures var w, l := Commit(key, v, op), LogAt(op.time);
            && w.created == v.created && w.lastModified == op.time
            && w.partTimes == v.partTimes[Base := op.time] && w.logTimes == v.logTimes[l := op.time]
            && w.parts == v.parts
                 [Base := PartFile(Edit(key, true, op.kind, DataOf(v.parts, Base), op.fmri, op.parts[Base]), op.time)]
            && w.logs == v.logs[l := LogFile(Append(LogDataOf(v.logs, l), op, "C"), op.time)]
  {
    LogOnBase(v.logs, op);
    TouchOnBase(key, v.parts, op);
    StampOne(v.partTimes, Base, op.time);
    StampOne(v.logTimes, LogAt(op.time), op.time);
  }

  /** A catalog with a base part only, and times for just the logs that it has. */
  predicate BaseOnly(v: View) {
    v.parts.Keys == v.partTimes.Keys <= {Base} && v.logs.Keys == v.logTimes.Keys
  }

  /** What an operation on the base part leaves, given the times of the logs before it. */
  predicate Leaves(w: View, created: int, op: Op, logs: map<LogName, int>) {
    && BaseOnly(w) && Base in w.parts && w.created == created && w.lastModified == op.time
    && w.partTimes == map[Base := op.time] && w.logTimes == logs[LogAt(op.time) := op.time]
  }

  lemma LeavesFrom(v: View, w: View, op: Op, file: PartFile, log: LogFile)
    requires BaseOnly(v) && w.created == v.created && w.lastModified == op.time
    requires w.parts == v.parts[Base := file] && w.logs == v.logs[LogAt(op.time) := log]
    requires w.partTimes == v.partTimes[Base := op.time] && w.logTimes == v.logTimes[LogAt(op.time) := op.time]
    ensures Leaves(w, v.created, op, v.logTimes)
  {
  }

  lemma CommitLeaves(key: VersionKey, v: View, op: Op)
    requires OnBase(op) && BaseOnly(v)
    ensures Leaves(Commit(key, v, op), v.created, op, v.logTimes)
  {
    CommitOn(key, v, op);
    var w := Commit(key, v, op);
    LeavesFrom(v, w, op, w.parts[Base], w.logs[LogAt(op.time)]);
  }

  lemma OneBaseOnly(key: VersionKey, t: int, op1: Op)
    requires OnBase(op1)
    ensures var v := One(key, t, op1);
            BaseOnly(v) && Base in v.parts && v.created == t && v.lastModified == op1.time
  {
    CommitLeaves(key, Empty(t), op1);
  }

  lemma TwoBaseOnly(key: VersionKey, t: int, op1: Op, op2: Op)
    requires OnBase(op1) && OnBase(op2)
    ensures var v := Two(key, t, op1, op2);
            BaseOnly(v) && Base in v.parts && v.created == t && v.lastModified == op2.time && LogAt(op2.time) in v.logs
  {
    OneBaseOnly(key, t, op1);
    CommitLeaves(key, One(key, t, op1), op2);
  }

  /** What an addition makes of the lists of the base part. */
  lemma ListsAfter(key: VersionKey, v: View, op: Op, p: Publisher, s: string)
    requires OnBase(op) && op.kind.Add? && NoEmpty(DataOf(v.parts, Base))
    ensures NoEmpty(DataOf(Commit(key, v, op).parts, Base))
    ensures ListAt(DataOf(Commit(key, v, op).parts, Base), p, s)
         == if p == op.fmri.pub && s == op.fmri.stem
            then StableSort(key, ListAt(DataOf(v.parts, Base), p, s) + [op.parts[Base]])
            else ListAt(DataOf(v.parts, Base), p, s)
  {
    CommitOn(key, v, op);
    var f, d := op.fmri, DataOf(v.parts, Base);
    StableSortCorrect(key, ListAt(d, f.pub, f.stem) + [op.parts[Base]]);
    PutListAt(d, f.pub, f.stem, Changed(key, true, op.kind, ListAt(d, f.pub, f.stem), op.parts[Base]));
  }

  lemma FirstAccepted(t: int, op1: Op, op2: Op)
    requires TwoAdded(t, op1, op2)
    ensures Accepts(Empty(t), op1)
  {
  }

  lemma SecondAccepted(key: VersionKey, t: int, op1: Op, op2: Op)
    requires TwoAdded(t, op1, op2)
    ensures Accepts(One(key, t, op1), op2)
  {
    OneBaseOnly(key, t, op1);
    ListsAfter(key, Empty(t), op1, op2.fmri.pub, op2.fmri.stem);
  }

  lemma AddedContains(key: VersionKey, v: View, op: Op)
    requires OnBase(op) && op.kind.Add? && NoEmpty(DataOf(v.parts, Base))
    ensures Contains(DataOf(Commit(key, v, op).parts, Base), op.fmri)
  {
    ListsAfter(key, v, op, op.fmri.pub, op.fmri.stem);
    var l := ListAt(DataOf(v.parts, Base), op.fmri.pub, op.fmri.stem) + [op.parts[Base]];
    assert l[|l| - 1].version == op.fmri.version;
    HasSort(key, l, op.fmri.version);
  }

  lemma OneIsClean(key: VersionKey, t: int, op1: Op)
    requires OnBase(op1) && op1.kind.Add?
    ensures NoEmpty(DataOf(One(key, t, op1).parts, Base))
  {
    ListsAfter(key, Empty(t), op1, op1.fmri.pub, op1.fmri.stem);
  }

  lemma RemovalAccepted(v: View, op: Op, drop: set<LogName>)
    requires OnBase(op) && op.kind.Remove? && op.time > v.lastModified
    requires v.parts.Keys <= {Base} && Contains(DataOf(v.parts, Base), op.fmri)
    ensures Accepts(Expire(v, drop), op)
  {
  }

  lemma UndoAccepted(key: VersionKey, t: int, op1: Op, op2: Op, op: Op, drop: set<LogName>)
    requires TwoAdded(t, op1, op2) && Undoes(op, op2)
    ensures Accepts(Expire(Two(key, t, op1, op2), drop), op)
  {
    TwoBaseOnly(key, t, op1, op2);
    OneIsClean(key, t, op1);
    AddedContains(key, One(key, t, op1), op2);
    RemovalAccepted(Two(key, t, op1, op2), op, drop);
  }

  /** The catalog after one and after two accepted operations. */
  lemma FirstIs(key: VersionKey, created: int, op: Op)
    requires Accepts(Empty(created), op)
    ensures ServerIs(key, created, [op], op.time, Commit(key, Empty(created), op))
  {
    EmptyServer(Setting(key, _ => "", created), created);
    CommitKeeps(key, created, [], created, Empty(created), op);
    assert [] + [op] == [op];
  }

  lemma SecondIs(key: VersionKey, created: int, op1: Op, op2: Op)
    requires Accepts(Empty(created), op1) && Accepts(Commit(key, Empty(created), op1), op2)
    ensures ServerIs(key, created, [op1, op2], op2.time, Commit(key, Commit(key, Empty(created), op1), op2))
  {
    FirstIs(key, created, op1);
    CommitKeeps(key, created, [op1], op1.time, Commit(key, Empty(created), op1), op2);
    assert [op1] + [op2] == [op1, op2];
  }

  lemma TwoIs(key: VersionKey, t: int, op1: Op, op2: Op)
    requires TwoAdded(t, op1, op2)
    ensures LogAt(op2.time) in Two(key, t, op1, op2).logs
    ensures ServerIs(key, t, [op1, op2], op2.time, Two(key, t, op1, op2))
  {
    TwoBaseOnly(key, t, op1, op2);
    FirstAccepted(t, op1, op2);
    SecondAccepted(key, t, op1, op2);
    SecondIs(key, t, op1, op2);
  }

  /** A client that lists the base part only is told to read the one log that has changed since. */
  lemma ReadsOneLog(a: Attrs, b: Attrs, l: LogName)
    requires a.created == b.created && a.lastModified != b.lastModified && a.parts.Keys == b.parts.Keys == {Base}
    requires a.parts[Base].lastModified < b.parts[Base].lastModified && BoundaryLog(a, Base) in b.updates
    requires l.locale == "C" && l in b.updates
    requires forall m :: m in b.updates && m.locale == "C" && b.updates[m] > a.parts[Base].lastModified <==> m == l
    ensures forall r :: Needed(a, Some(b), r) <==> r == Ok(UpdateLogs([l]))
  {
    assert LocaleOf(Base) == "C";
    assert ChangedParts(a, b) == {Base} && NewParts(a, b) == {};
    assert LocalesOf(ChangedParts(a, b)) == {"C"};
    assert Incremental(a, b) && !PartMissing(a, b) && !PartOlder(a, b);
    forall m
      ensures LogNeeded(a, b, m) <==> m == l
    {
    }
    assert l in [l];
    forall names: seq<LogName> | Ascending(names) && forall m :: m in names <==> m == l
      ensures names == [l]
    {
      OnlyName(names, l);
    }
  }

  lemma OnlyName(names: seq<LogName>, l: LogName)
    requires Ascending(names) && forall m :: m in names <==> m == l
    ensures names == [l]
  {
    assert l in names;
    if |names| > 1 {
      assert names[0] in names && names[1] in names;
      assert LogLess(names[0], names[1]);
      Strings.Irreflexive(l.locale);
    }
  }

  // ----- Catching up by reading a log

  ghost function Fetched(saved: Dir): Dir {
    Dir(saved.attrs, OnlyIn(saved.parts, {Base}), map[])
  }

  /** Reading the named logs can give a client, which has the base part only, the server's base part. */
  ghost predicate Readable(key: VersionKey, digest: Digest, c: Dir, s: Dir, names: seq<LogName>) {
    && c.attrs.Some? && s.attrs.Some? && Needed(c.attrs.value, s.attrs, Ok(UpdateLogs(names)))
    && HasBase(c) && Base in s.parts && SignatureHolds(digest, s.attrs.value, Base, s.parts[Base].data)
    && Replayed(key, true, s.logs, names, Base, c.attrs.value.parts[Base].lastModified, c.parts[Base].data,
                s.parts[Base].data)
  }

  lemma PairIsReadable(k: Setting, g: seq<Op>, h: seq<Op>, c: Dir, s: Dir, names: seq<LogName>)
    requires Pair(k.key, k.digest, k.created, g, h, c, s) && Base in c.parts
    requires Needed(c.attrs.value, s.attrs, Ok(UpdateLogs(names)))
    ensures Readable(k.key, k.digest, c, s, names)
  {
    PairPart(k.key, k.digest, k.created, g, h, c, s, Base);
    Expiry.NeededSelects(c.attrs.value, s.attrs, names);
    Expiry.CanReplay(k.key, k.digest, k.created, g, h, c, s, names, Base);
  }

  lemma SyncsByLogs(key: VersionKey, digest: Digest, c: Dir, s: Dir, names: seq<LogName>)
    requires Readable(key, digest, c, s, names) && c.parts.Keys == {Base} && c.logs == map[]
    ensures Sync(key, digest, c, s, Fetched(s), Ok(()))
  {
    assert SyncWith(key, digest, c, s, Ok(UpdateLogs(names)), Fetched(s), Ok(()));
  }

  /** A catalog as an operation on the base part has left it, saved. */
  ghost predicate LeftBy(k: Setting, s: System, op: Op, logs: map<LogName, int>) {
    && Leaves(s.server, k.created, op, logs)
    && s.clock == op.time && s.saved == Published(k.digest, s.server) && s.savedAt == |s.history|
  }

  function DoOp(s: System, op: Op, v: View): System {
    s.(clock := op.time, history := s.history + [op], server := v)
  }

  ghost function DoSave(k: Setting, s: System): System
    requires s.server.partTimes.Keys <= s.server.parts.Keys
  {
    s.(saved := Published(k.digest, s.server), savedAt := |s.history|)
  }

  ghost function DoFetch(s: System): System {
    s.(client := Some(Fetched(s.saved)), clientAt := s.savedAt)
  }

  lemma OpIsNext(k: Setting, s: System, op: Op, v: View)
    requires Accepts(s.server, op) && op.time > s.clock && OnBase(op) && v == Commit(k.key, s.server, op)
    ensures Next(k, s, DoOp(s, op, v))
  {
    assert Operate(k, s, DoOp(s, op, v), op);
  }

  lemma SaveIsNext(k: Setting, s: System)
    requires s.server.partTimes.Keys <= s.server.parts.Keys
    ensures Next(k, s, DoSave(k, s))
  {
    assert Save(k, s, DoSave(k, s));
  }

  lemma FetchIsNext(k: Setting, s: System)
    ensures Next(k, s, DoFetch(s))
  {
    assert Fetch(s, DoFetch(s), {Base});
  }

  lemma SyncIsNext(k: Setting, s: System, names: seq<LogName>)
    requires s.client.Some? && Readable(k.key, k.digest, s.client.value, s.saved, names)
    requires s.client.value.parts.Keys == {Base} && s.client.value.logs == map[]
    ensures SyncClient(k, s, DoFetch(s), Fetched(s.saved), Ok(()))
  {
    SyncsByLogs(k.key, k.digest, s.client.value, s.saved, names);
  }

  ghost function Start(k: Setting): System {
    System(k.created, [], Empty(k.created), Published(k.digest, Empty(k.created)), 0, None, 0)
  }

  lemma StartIsRun(k: Setting)
    ensures IsRun(k, [Start(k)])
  {
  }

  lemma GoesOn(k: Setting, run: seq<System>, t: System)
    requires IsRun(k, run) && Next(k, run[|run| - 1], t)
    ensures IsRun(k, run + [t])
  {
    var all := run + [t];
    forall i | 0 <= i < |all| - 1
      ensures Next(k, all[i], all[i + 1])
    {
      if i < |run| - 1 {
        assert Next(k, run[i], run[i + 1]);
      }
    }
  }

  lemma SavedLeaves(k: Setting, s: System, op: Op, v: View, logs: map<LogName, int>)
    requires Leaves(v, k.created, op, logs)
    ensures LeftBy(k, DoSave(k, DoOp(s, op, v)), op, logs)
  {
  }

  lemma OpLeaves(k: Setting, s: System, op: Op, v: View)
    requires OnBase(op) && BaseOnly(s.server) && s.server.created == k.created && v == Commit(k.key, s.server, op)
    ensures v.partTimes.Keys <= v.parts.Keys && LeftBy(k, DoSave(k, DoOp(s, op, v)), op, s.server.logTimes)
  {
    CommitLeaves(k.key, s.server, op);
    SavedLeaves(k, s, op, v, s.server.logTimes);
  }

  /** A run goes on by an operation that is then saved... */
  lemma OpAndSave(k: Setting, run: seq<System>, s: System, op: Op, v: View) returns (more: seq<System>)
    requires IsRun(k, run) && s == run[|run| - 1]
    requires OnBase(op) && BaseOnly(s.server) && s.server.created == k.created
    requires Accepts(s.server, op) && op.time > s.clock && v == Commit(k.key, s.server, op)
    ensures v.partTimes.Keys <= v.parts.Keys
    ensures IsRun(k, more) && more[|more| - 1] == DoSave(k, DoOp(s, op, v))
    ensures LeftBy(k, more[|more| - 1], op, s.server.logTimes)
  {
    OpLeaves(k, s, op, v);
    OpIsNext(k, s, op, v);
    GoesOn(k, run, DoOp(s, op, v));
    SaveIsNext(k, DoOp(s, op, v));
    more := run + [DoOp(s, op, v)] + [DoSave(k, DoOp(s, op, v))];
    GoesOn(k, run + [DoOp(s, op, v)], DoSave(k, DoOp(s, op, v)));
  }

  /** ... and by a client that fetches. */
  lemma FetchOn(k: Setting, run: seq<System>) returns (more: seq<System>)
    requires IsRun(k, run)
    ensures IsRun(k, more) && more[|more| - 1] == DoFetch(run[|run| - 1])
  {
    FetchIsNext(k, run[|run| - 1]);
    GoesOn(k, run, DoFetch(run[|run| - 1]));
    more := run + [DoFetch(run[|run| - 1])];
  }

  /** A client fetches after the first operation... */
  lemma FetchesFirst(k: Setting, op1: Op, op2: Op) returns (run: seq<System>, s: System)
    requires TwoAdded(k.created, op1, op2)
    ensures IsRun(k, run) && s == run[|run| - 1] && s.history == [op1]
    ensures LeftBy(k, s, op1, map[]) && Accepts(s.server, op2)
    ensures s.client == Some(Fetched(s.saved)) && s.clientAt == s.savedAt
  {
    StartIsRun(k);
    FirstAccepted(k.created, op1, op2);
    SecondAccepted(k.key, k.created, op1, op2);
    run := OpAndSave(k, [Start(k)], Start(k), op1, One(k.key, k.created, op1));
    run := FetchOn(k, run);
    s := run[|run| - 1];
  }

  /** ... and is behind once the second is saved. */
  lemma FallsBehind(k: Setting, op1: Op, op2: Op, first: seq<System>, s: System) returns (run: seq<System>, z: System)
    requires IsRun(k, first) && s == first[|first| - 1] && LeftBy(k, s, op1, map[]) && s.history == [op1]
    requires OnBase(op2) && op1.time < op2.time && Accepts(s.server, op2)
    ensures IsRun(k, run) && z == run[|run| - 1] && |z.history| == 2
    ensures LeftBy(k, z, op2, map[LogAt(op1.time) := op1.time])
    ensures z.client == s.client && z.clientAt == s.clientAt
  {
    run := OpAndSave(k, first, s, op2, Commit(k.key, s.server, op2));
    z := run[|run| - 1];
  }

  lemma SecondLogNeeded(k: Setting, s: System, z: System, op1: Op, op2: Op)
    requires LeftBy(k, s, op1, map[]) && LeftBy(k, z, op2, map[LogAt(op1.time) := op1.time]) && op1.time < op2.time
    ensures Needed(Fetched(s.saved).attrs.value, z.saved.attrs, Ok(UpdateLogs([LogAt(op2.time)])))
  {
    assert LocaleOf(Base) == "C";
    ReadsOneLog(Fetched(s.saved).attrs.value, z.saved.attrs.value, LogAt(op2.time));
  }

  lemma FetchedBase(k: Setting, s: System, op: Op, logs: map<LogName, int>)
    requires LeftBy(k, s, op, logs)
    ensures Fetched(s.saved).parts.Keys == {Base} && Fetched(s.saved).logs == map[]
  {
  }

  /** The client is told to read just that log, and has caught up once it has. */
  ghost predicate CatchesUp(k: Setting, s: System, l: LogName) {
    && s.client.Some? && s.client.value.attrs.Some? && s.clientAt < s.savedAt == |s.history|
    && Needed(s.client.value.attrs.value, s.saved.attrs, Ok(UpdateLogs([l])))
    && SyncClient(k, s, DoFetch(s), Fetched(s.saved), Ok(()))
  }

  lemma ReadableCatchesUp(k: Setting, s: System, l: LogName)
    requires s.client.Some? && Readable(k.key, k.digest, s.client.value, s.saved, [l])
    requires s.client.value.parts.Keys == {Base} && s.client.value.logs == map[]
             && s.clientAt < s.savedAt == |s.history|
    ensures CatchesUp(k, s, l)
  {
    SyncIsNext(k, s, [l]);
  }

  /** The invariant of runs says that the client can replay what it is told to read. */
  lemma RunIsReadable(k: Setting, run: seq<System>, s: System, names: seq<LogName>)
    requires IsRun(k, run) && s == run[|run| - 1] && s.client.Some? && Base in s.client.value.parts
    requires s.client.value.attrs.Some? && Needed(s.client.value.attrs.value, s.saved.attrs, Ok(UpdateLogs(names)))
    ensures Readable(k.key, k.digest, s.client.value, s.saved, names)
  {
    RunKeeps(k, run, |run| - 1);
    ClientPair(k, s);
    PairIsReadable(k, s.history[..s.clientAt], s.history[..s.savedAt], s.client.value, s.saved, names);
  }

  /** In some runs a client fetches, falls behind, and catches up by reading just the log that the second
      package was added to. */
  lemma CatchesUpByReading(k: Setting, op1: Op, op2: Op) returns (run: seq<System>)
    requires TwoAdded(k.created, op1, op2)
    ensures IsRun(k, run) && CatchesUp(k, run[|run| - 1], LogAt(op2.time))
  {
    var first, s := FetchesFirst(k, op1, op2);
    var z;
    run, z := FallsBehind(k, op1, op2, first, s);
    SecondLogNeeded(k, s, z, op1, op2);
    FetchedBase(k, s, op1, map[]);
    RunIsReadable(k, run, z, [LogAt(op2.time)]);
    ReadableCatchesUp(k, z, LogAt(op2.time));
  }

  // ----- Losing an update

  lemma TwiceInAnHour(created: int, h: seq<Op>, now: int, v: View)
    requires GoodHistory(created, h) && now >= LastTime(created, h) && |h| == 2 && OnBase(h[0]) && OnBase(h[1])
    requires Hour(h[0].time) == Hour(now + 1) && LogAt(now + 1) in v.logs
    ensures !MayDrop(h, now, v, v.logs.Keys)
  {
    assert LocaleOf(Base) == "C";
    Expiry.TouchedTwiceMustStay(created, h, now, v, v.logs.Keys, Base);
  }

  lemma LoggedNow(t: int, time: int, v: View)
    requires t <= time && Hour(t) == Hour(time + 1) && LogAt(time) in v.logs
    ensures LogAt(time + 1) in v.logs
  {
    HourMonotone(t, time);
    HourMonotone(time, time + 1);
  }

  /** When two packages have been added within an hour, as in `TwoIs`, and all logs go before the hour is
      over, that is too early. */
  lemma TooEarly(key: VersionKey, t: int, h: seq<Op>, v: View)
    requires |h| == 2 && TwoAdded(t, h[0], h[1]) && Hour(h[0].time) == Hour(h[1].time + 1)
    requires ServerIs(key, t, h, h[1].time, v) && LogAt(h[1].time) in v.logs
    ensures OldestFirst(v, v.logs.Keys) && !MayDrop(h, h[1].time, v, v.logs.Keys)
  {
    LoggedNow(h[0].time, h[1].time, v);
    TwiceInAnHour(t, h, h[1].time, v);
  }

  /** So there are server catalogs, and drops oldest first, that `Expiry.DropLoses` is about. */
  lemma TooEarlyForTwo(key: VersionKey, t: int, h: seq<Op>, v: View)
    requires |h| == 2 && TwoAdded(t, h[0], h[1]) && Hour(h[0].time) == Hour(h[1].time + 1)
    requires h == [h[0], h[1]] && v == Two(key, t, h[0], h[1])
    ensures ServerIs(key, t, h, h[1].time, v)
    ensures OldestFirst(v, v.logs.Keys) && !MayDrop(h, h[1].time, v, v.logs.Keys)
  {
    TwoIs(key, t, h[0], h[1]);
    TooEarly(key, t, h, v);
  }

  /** The catalog once the log has gone and the second package has been removed again. */
  ghost function Undone(key: VersionKey, t: int, op1: Op, op2: Op, op: Op): View {
    Commit(key, Expire(Two(key, t, op1, op2), Two(key, t, op1, op2).logs.Keys), op)
  }

  lemma DroppedIs(v: View)
    requires v.logs.Keys == v.logTimes.Keys
    ensures Expire(v, v.logs.Keys) == v.(logs := map[], logTimes := map[])
  {
  }

  lemma TwoDropped(key: VersionKey, t: int, op1: Op, op2: Op)
    requires OnBase(op1) && OnBase(op2)
    ensures var v := Expire(Two(key, t, op1, op2), Two(key, t, op1, op2).logs.Keys);
            && v.logs == map[] && v.logTimes == map[] && v.partTimes.Keys == v.parts.Keys == {Base} && v.created == t
  {
    TwoBaseOnly(key, t, op1, op2);
    DroppedIs(Two(key, t, op1, op2));
  }

  /** A catalog with just the base part, and just the log that one operation has started. */
  ghost predicate Alone(w: View, created: int, op: Op) {
    var l := LogAt(op.time);
    && w.partTimes == map[Base := op.time] && w.parts.Keys == {Base} && w.created == created
       && w.lastModified == op.time
    && w.logTimes == map[l := op.time] && w.logs.Keys == {l} && w.logs[l].data == Append(map[], op, "C")
  }

  lemma AloneFrom(v: View, w: View, op: Op, file: PartFile, log: LogFile)
    requires v.logs == map[] && v.logTimes == map[] && v.partTimes.Keys == v.parts.Keys == {Base}
    requires w.created == v.created && w.lastModified == op.time && log.data == Append(map[], op, "C")
    requires w.parts == v.parts[Base := file] && w.logs == v.logs[LogAt(op.time) := log]
    requires w.partTimes == v.partTimes[Base := op.time] && w.logTimes == v.logTimes[LogAt(op.time) := op.time]
    ensures Alone(w, v.created, op)
  {
  }

  lemma CommitAlone(key: VersionKey, v: View, op: Op)
    requires OnBase(op) && v.logs == map[] && v.logTimes == map[] && v.partTimes.Keys == v.parts.Keys == {Base}
    ensures Alone(Commit(key, v, op), v.created, op)
  {
    CommitOn(key, v, op);
    var w := Commit(key, v, op);
    assert LogDataOf(v.logs, LogAt(op.time)) == map[];
    AloneFrom(v, w, op, w.parts[Base], w.logs[LogAt(op.time)]);
  }

  /** The removal is accepted, and the log it starts holds nothing else. */
  lemma UndoFollows(key: VersionKey, t: int, op1: Op, op2: Op, op: Op)
    requires TwoAdded(t, op1, op2) && Undoes(op, op2)
    ensures Accepts(Expire(Two(key, t, op1, op2), Two(key, t, op1, op2).logs.Keys), op)
    ensures Alone(Undone(key, t, op1, op2, op), t, op)
  {
    UndoAccepted(key, t, op1, op2, op, Two(key, t, op1, op2).logs.Keys);
    TwoDropped(key, t, op1, op2);
    CommitAlone(key, Expire(Two(key, t, op1, op2), Two(key, t, op1, op2).logs.Keys), op);
  }

  // ----- What a client that has seen the first package only makes of it

  lemma HasFirstOnly(key: VersionKey, op: Op, created: int, c: Dir, p: Publisher, s: string)
    requires ClientIs(key, created, [op], c) && OnBase(op) && (op.fmri.pub != p || op.fmri.stem != s)
    ensures c.attrs.value.parts.Keys == {Base} && c.attrs.value.parts[Base].lastModified == op.time
            && c.parts.Keys == {Base}
    ensures c.attrs.value.lastModified == op.time && c.attrs.value.created == created
    ensures ListAt(c.parts[Base].data, p, s) == []
  {
    var times := PartTimes(c.attrs.value);
    assert Base in [op][0].parts;
    forall n
      ensures n in times <==> n == Base
    {
      assert Touched([op], n) <==> n in [op][0].parts;
    }
    assert c.attrs.value.parts.Keys == times.Keys;
    assert Base in times && LastTouch([op], Base, times[Base]);
    assert StemOps([op], p, s) == [] by {
      assert [op][..0] == [];
    }
    assert PartChanges(StemOps([op], p, s), Base, created) == [];
  }

  lemma OneLogPending(logs: LogFiles, l: LogName, n: PartName, after: int, p: Publisher, s: string)
    ensures Pending(logs, [l], n, after, p, s) == PartChanges(ListAt(LogDataOf(logs, l), p, s), n, after)
  {
    var es := ListAt(LogDataOf(logs, l), p, s);
    assert [l][..0] == [];
    assert StemLogs(logs, [l], p, s) == [] + [es];
    LogsChangesAppend([], es, n, after);
    NothingBefore(PartChanges(es, n, after));
  }

  lemma NothingBefore<T>(s: seq<T>)
    ensures [] + s == s
  {
  }

  lemma OneEntryChanges(e: LogEntry, n: PartName, after: int)
    ensures PartChanges([e], n, after) == OneChange(e, n, after)
  {
    PartChangesAppend([], e, n, after);
    NothingBefore([e]);
    NothingBefore(OneChange(e, n, after));
  }

  lemma FreshLogHas(op: Op, p: Publisher, s: string)
    ensures ListAt(Append(map[], op, "C"), p, s)
         == if p == op.fmri.pub && s == op.fmri.stem
            then [LogEntry(op.kind, op.time, op.fmri.version, Restrict(op.parts, "C"))]
            else []
  {
    NothingBefore([LogEntry(op.kind, op.time, op.fmri.version, Restrict(op.parts, "C"))]);
  }

  lemma OnlyTheRemoval(logs: LogFiles, op: Op, after: int, p: Publisher, s: string)
    requires OnBase(op) && op.time > after && logs.Keys == {LogAt(op.time)}
    requires logs[LogAt(op.time)].data == Append(map[], op, "C")
    ensures Pending(logs, [LogAt(op.time)], Base, after, p, s)
         == if p == op.fmri.pub && s == op.fmri.stem
            then [Change(op.kind, op.parts[Base].(version := op.fmri.version))] else []
  {
    var e := LogEntry(op.kind, op.time, op.fmri.version, Restrict(op.parts, "C"));
    assert LocaleOf(Base) == "C";
    OneLogPending(logs, LogAt(op.time), Base, after, p, s);
    FreshLogHas(op, p, s);
    OneEntryChanges(e, Base, after);
  }

  lemma RejectsUnknown(key: VersionKey, c: Change)
    requires c.kind.Remove?
    ensures Run(key, false, [], [c]).None?
  {
    assert [c][..0] == [];
  }

  lemma RejectsTheRemoval(key: VersionKey, logs: LogFiles, op: Op, after: int, d: Entries)
    requires OnBase(op) && op.time > after && logs.Keys == {LogAt(op.time)} && op.kind.Remove?
    requires logs[LogAt(op.time)].data == Append(map[], op, "C") && ListAt(d, op.fmri.pub, op.fmri.stem) == []
    ensures ReplayFails(key, logs, [LogAt(op.time)], Base, after, d)
  {
    OnlyTheRemoval(logs, op, after, op.fmri.pub, op.fmri.stem);
    RejectsUnknown(key, Change(op.kind, op.parts[Base].(version := op.fmri.version)));
  }

  lemma RejectsNothingElse(key: VersionKey, logs: LogFiles, op: Op, after: int, d: Entries, e: CatalogError)
    requires OnBase(op) && op.time > after && logs.Keys == {LogAt(op.time)} && op.kind.Remove?
    requires logs[LogAt(op.time)].data == Append(map[], op, "C")
    requires ReplayRejects(key, logs, [LogAt(op.time)], Base, after, d, e)
    ensures e == UnknownCatalogEntry(op.fmri)
  {
    var p: Publisher, s: string, k: nat :|
      && RejectsAt(key, ListAt(d, p, s), Pending(logs, [LogAt(op.time)], Base, after, p, s), k)
      && e == RefusalOf(p, s, Pending(logs, [LogAt(op.time)], Base, after, p, s)[k]);
    OnlyTheRemoval(logs, op, after, p, s);
  }

  lemma TellsOfOneLog(digest: Digest, created: int, op1: Op, op: Op, a: Attrs, w: View)
    requires Alone(w, created, op) && op.time > op1.time && LogAt(op.time) == LogAt(op1.time)
    requires a.created == created && a.lastModified == op1.time && a.parts.Keys == {Base}
             && a.parts[Base].lastModified == op1.time
    ensures forall r :: Needed(a, Published(digest, w).attrs, r) <==> r == Ok(UpdateLogs([LogAt(op.time)]))
  {
    assert LocaleOf(Base) == "C";
    ReadsOneLog(a, Published(digest, w).attrs.value, LogAt(op.time));
  }

  lemma OneAnswer(key: VersionKey, digest: Digest, c: Dir, s: Dir, a: Answer, c': Dir, r: Result<(), CatalogError>)
    requires c.attrs.Some? && Sync(key, digest, c, s, c', r)
    requires forall b :: Needed(c.attrs.value, s.attrs, b) <==> b == Ok(a)
    ensures Needed(c.attrs.value, s.attrs, Ok(a)) && SyncWith(key, digest, c, s, Ok(a), c', r)
  {
  }

  /** A sync that reads the log of one removal, of a package that the client does not list. */
  lemma RefusedForTheRemoval(key: VersionKey, digest: Digest, op: Op, c: Dir, s: Dir, c': Dir,
                             r: Result<(), CatalogError>)
    requires c.attrs.Some? && Needed(c.attrs.value, s.attrs, Ok(UpdateLogs([LogAt(op.time)])))
    requires SyncWith(key, digest, c, s, Ok(UpdateLogs([LogAt(op.time)])), c', r)
    requires c.attrs.value.parts.Keys == c.parts.Keys == {Base} && op.time > c.attrs.value.parts[Base].lastModified
    requires OnBase(op) && s.logs.Keys == {LogAt(op.time)} && op.kind.Remove?
    requires s.logs[LogAt(op.time)].data == Append(map[], op, "C")
    requires ListAt(c.parts[Base].data, op.fmri.pub, op.fmri.stem) == []
    ensures r == Err(UnknownCatalogEntry(op.fmri)) && c' == c
  {
    var after, d := c.attrs.value.parts[Base].lastModified, c.parts[Base].data;
    RejectsTheRemoval(key, s.logs, op, after, d);
    Integrity.FailingRejects(key, c, s, [LogAt(op.time)], Base, digest, c', r);
    RejectsNothingElse(key, s.logs, op, after, d, r.error);
  }

  /** A client that has seen the first of two operations, and finds just the log in which what the second
      did is undone, fails for a package it does not know, not for a signature. */
  lemma RemovalIsUnknown(key: VersionKey, digest: Digest, created: int, op1: Op, op: Op, c: Dir, w: View, c': Dir,
                         r: Result<(), CatalogError>)
    requires ClientIs(key, created, [op1], c) && OnBase(op1) && OnBase(op)
    requires op.kind.Remove? && OtherStem(op, op1)
    requires Alone(w, created, op) && op.time > op1.time && LogAt(op.time) == LogAt(op1.time)
    requires Sync(key, digest, c, Published(digest, w), c', r)
    ensures r == Err(UnknownCatalogEntry(op.fmri)) && c' == c
  {
    HasFirstOnly(key, op1, created, c, op.fmri.pub, op.fmri.stem);
    TellsOfOneLog(digest, created, op1, op, c.attrs.value, w);
    OneAnswer(key, digest, c, Published(digest, w), UpdateLogs([LogAt(op.time)]), c', r);
    RefusedForTheRemoval(key, digest, op, c, Published(digest, w), c', r);
  }
}
