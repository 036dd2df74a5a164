/** When update logs may be dropped.  Oldest first is not enough: a log of the hour that is not over is
    started afresh by the next operation, and a client that knew the old one takes the new one for
    the whole.  What may be dropped is stated exactly. */
module Expiry {
  import opened CatalogParts
  import opened CatalogUpdates
  import opened History
  import opened Integrity
  import opened NestedLists
  import opened Protocol
  import opened Replication
  import opened ReplaySteps
  import opened Synchronization
  import opened UpdatesNeeded
  import opened VersionLists
  import opened Wrappers

  // ----- Futures

  /** The catalog after some more operations. */
  ghost function After(key: VersionKey, v: View, ops: seq<Op>): View {
    if ops == [] then v else Commit(key, After(key, v, ops[..|ops| - 1]), ops[|ops| - 1])
  }

  ghost predicate FollowsAt(key: VersionKey, now: int, v: View, ops: seq<Op>, k: int)
    requires 0 <= k < |ops|
  {
    Accepts(After(key, v, ops[..k]), ops[k]) && ops[k].time > now
  }

  /** The operations are accepted one after another, all of them after now. */
  ghost predicate Follow(key: VersionKey, now: int, v: View, ops: seq<Op>) {
    forall k :: 0 <= k < |ops| ==> FollowsAt(key, now, v, ops, k)
  }

  lemma FollowsAtFirst(key: VersionKey, now: int, v: View, ops: seq<Op>, m: nat, k: nat)
    requires k < m <= |ops|
    ensures FollowsAt(key, now, v, ops[..m], k) == FollowsAt(key, now, v, ops, k)
  {
    assert ops[..m][..k] == ops[..k];
  }

  lemma FollowInit(key: VersionKey, now: int, v: View, ops: seq<Op>)
    requires Follow(key, now, v, ops) && ops != []
    ensures Follow(key, now, v, ops[..|ops| - 1])
    ensures Accepts(After(key, v, ops[..|ops| - 1]), ops[|ops| - 1]) && ops[|ops| - 1].time > now
  {
    var init := ops[..|ops| - 1];
    assert FollowsAt(key, now, v, ops, |ops| - 1);
    forall k | 0 <= k < |init|
      ensures FollowsAt(key, now, v, init, k)
    {
      FollowsAtFirst(key, now, v, ops, |ops| - 1, k);
    }
  }

  /** The time once the operations are through. */
  function TimeAfter(now: int, ops: seq<Op>): int {
    if ops == [] then now else ops[|ops| - 1].time
  }

  lemma {:induction false} FutureKeeps(key: VersionKey, created: int, h: seq<Op>, now: int, v: View, ops: seq<Op>)
    requires ServerIs(key, created, h, now, v) && Follow(key, now, v, ops)
    ensures ServerIs(key, created, h + ops, TimeAfter(now, ops), After(key, v, ops))
  {
    if ops == [] {
      assert h + ops == h;
    } else {
      var init := ops[..|ops| - 1];
      FollowInit(key, now, v, ops);
      FutureKeeps(key, created, h, now, v, init);
      TimesFollow(key, now, v, ops);
      OneMore(key, created, h, TimeAfter(now, init), After(key, v, init), ops);
    }
  }

  lemma TimesFollow(key: VersionKey, now: int, v: View, ops: seq<Op>)
    requires Follow(key, now, v, ops) && ops != []
    ensures TimeAfter(now, ops[..|ops| - 1]) < ops[|ops| - 1].time
  {
    var init := ops[..|ops| - 1];
    assert FollowsAt(key, now, v, ops, |ops| - 1);
    if init != [] {
      assert After(key, v, init).lastModified == init[|init| - 1].time;
    }
  }

  lemma OneMore(key: VersionKey, created: int, h: seq<Op>, now: int, w: View, ops: seq<Op>)
    requires ops != [] && ServerIs(key, created, h + ops[..|ops| - 1], now, w)
    requires Accepts(w, ops[|ops| - 1]) && ops[|ops| - 1].time > now
    ensures ServerIs(key, created, h + ops, ops[|ops| - 1].time, Commit(key, w, ops[|ops| - 1]))
  {
    CommitKeeps(key, created, h + ops[..|ops| - 1], now, w, ops[|ops| - 1]);
    assert (h + ops[..|ops| - 1]) + [ops[|ops| - 1]] == h + ops;
  }

  /** The client is told to read certain logs, and no way of replaying them gives the server's part. */
  ghost predicate Loses(key: VersionKey, c: Dir, s: Dir) {
    && c.attrs.Some?
    && exists names, n :: Needed(c.attrs.value, s.attrs, Ok(UpdateLogs(names))) && NeverReplayed(key, c, s, names, n)
  }

  ghost predicate NeverReplayed(key: VersionKey, c: Dir, s: Dir, names: seq<LogName>, n: PartName) {
    && c.attrs.Some? && n in c.attrs.value.parts && n in c.parts && n in s.parts
    && HasUnseen(s.logs, names, n, c.attrs.value.parts[n].lastModified)
    && forall d ::
         Replayed(key, HasBase(c), s.logs, names, n, c.attrs.value.parts[n].lastModified, c.parts[n].data, d) ==>
                     d != s.parts[n].data
  }

  ghost predicate LosesWith(key: VersionKey, digest: Digest, c: Dir, v: View) {
    v.partTimes.Keys <= v.parts.Keys && Loses(key, c, Published(digest, v))
  }

  /** What losing comes to: a list rejects a change, or the sync is refused for its signature, unless the
      digest of the wrong data happens to be the one of the right data. */
  lemma LosingIsRefused(key: VersionKey, digest: Digest, c: Dir, s: Dir, names: seq<LogName>, n: PartName,
                        c': Dir, r: Result<(), CatalogError>)
    requires c.attrs.Some? && s.attrs.Some? && Needed(c.attrs.value, s.attrs, Ok(UpdateLogs(names)))
    requires NeverReplayed(key, c, s, names, n)
    requires n in s.attrs.value.parts && s.attrs.value.parts[n].signature == Some(digest(s.parts[n].data))
    requires SyncWith(key, digest, c, s, Ok(UpdateLogs(names)), c', r)
    ensures r.Err? && IsRejection(r.error) <==> exists m :: NoReplay(key, c, s, names, m)
    ensures r.Err? && !IsRejection(r.error) ==> r.error.BadCatalogSignatures?
    ensures r.Ok? ==> c'.parts[n].data != s.parts[n].data && digest(c'.parts[n].data) == digest(s.parts[n].data)
  {
    RejectedExactly(key, digest, c, s, names, c', r);
    UnseenIsNamed(s.logs, names, n, c.attrs.value.parts[n].lastModified);
  }

  // ----- Nothing is lost that may not be

  /** Replaying what is selected can give the server's part. */
  lemma CanReplay(key: VersionKey, digest: Digest, created: int, g: seq<Op>, h: seq<Op>, c: Dir, s: Dir,
                  names: seq<LogName>, n: PartName)
    requires Pair(key, digest, created, g, h, c, s) && Selected(c.attrs.value, s.attrs.value, names)
    requires n in c.parts && n in c.attrs.value.parts && n in s.parts
    ensures Replayed(key, HasBase(c), s.logs, names, n, c.attrs.value.parts[n].lastModified, c.parts[n].data,
                     s.parts[n].data)
  {
    var a, b := c.attrs.value, s.attrs.value;
    var t := a.parts[n].lastModified;
    PairPart(key, digest, created, g, h, c, s, n);
    PairAttrs(key, digest, created, g, h, c, s);
    assert n in PartTimes(a) && LastTouch(g, n, t);
    forall p: Publisher, x: string
      ensures var r := Run(key, false, ListAt(c.parts[n].data, p, x), Pending(s.logs, names, n, t, p, x));
              r.Some? && ListAt(s.parts[n].data, p, x) == StableSort(key, r.value)
    {
      PendingIsUnseen(created, g, h, a, b, s.logs, names, n, p, x);
      CatchUp(key, created, g, h, n, t, c.parts[n].data, s.parts[n].data, p, x);
    }
    assert RunThrough(key, true, s.logs, names, n, t, c.parts[n].data, s.parts[n].data);
  }

  lemma NeededSelects(a: Attrs, offered: Option<Attrs>, names: seq<LogName>)
    requires Needed(a, offered, Ok(UpdateLogs(names)))
    ensures offered.Some? && Selected(a, offered.value, names)
  {
  }

  lemma PairReplays(key: VersionKey, digest: Digest, created: int, g: seq<Op>, h: seq<Op>, c: Dir, s: Dir,
                    names: seq<LogName>, n: PartName)
    requires Pair(key, digest, created, g, h, c, s) && Needed(c.attrs.value, s.attrs, Ok(UpdateLogs(names)))
    ensures !NeverReplayed(key, c, s, names, n)
  {
    if NeverReplayed(key, c, s, names, n) {
      NeededSelects(c.attrs.value, s.attrs, names);
      CanReplay(key, digest, created, g, h, c, s, names, n);
    }
  }

  lemma PairLosesNothing(key: VersionKey, digest: Digest, created: int, g: seq<Op>, h: seq<Op>, c: Dir, s: Dir)
    requires Pair(key, digest, created, g, h, c, s)
    ensures !Loses(key, c, s)
  {
    forall names, n | Needed(c.attrs.value, s.attrs, Ok(UpdateLogs(names)))
      ensures !NeverReplayed(key, c, s, names, n)
    {
      PairReplays(key, digest, created, g, h, c, s, names, n);
    }
  }

  lemma NothingIsLost(key: VersionKey, digest: Digest, created: int, h: seq<Op>, now: int, v: View, ops: seq<Op>,
                      a: nat, c: Dir)
    requires ServerIs(key, created, h, now, v) && Follow(key, now, v, ops) && a <= |h|
             && ClientIs(key, created, h[..a], c)
    ensures !LosesWith(key, digest, c, After(key, v, ops))
  {
    var w := After(key, v, ops);
    FutureKeeps(key, created, h, now, v, ops);
    PublishedIs(key, digest, created, h + ops, TimeAfter(now, ops), w);
    assert (h + ops)[..a] == h[..a];
    PairLosesNothing(key, digest, created, h[..a], h + ops, c, Published(digest, w));
  }

  // ----- Clients of the past

  /** An operation of the history was taken by the parts as they were. */
  lemma OpTaken(key: VersionKey, created: int, h: seq<Op>, a: nat, n: PartName, d: Entries, e: Entries)
    requires GoodHistory(created, h) && a < |h| && n in h[a].parts
    requires PartIs(key, created, h, n, d) && PartIs(key, created, h[..a], n, e)
    ensures h[a].kind == Add ==> !Contains(e, h[a].fmri)
    ensures h[a].kind == Remove ==> Contains(e, h[a].fmri)
  {
    var f := h[a].fmri;
    var cs, c := PartChanges(StemOps(h[..a], f.pub, f.stem), n, created), Change(h[a].kind, h[a].parts[n]);
    var all := PartChanges(StemOps(h, f.pub, f.stem), n, created);
    ChangesBegin(created, h, a, n);
    RunTaken(key, cs, c, all, ListAt(e, f.pub, f.stem));
  }

  /** A change in the middle of a run that is accepted was accepted. */
  lemma RunTaken(key: VersionKey, cs: seq<Change>, c: Change, all: seq<Change>, l: seq<Entry>)
    requires cs + [c] <= all && Run(key, true, [], all).Some? && Run(key, true, [], cs) == Some(l)
    ensures Apply(key, true, l, c).Some?
  {
    assert all[..|cs + [c]|] == cs + [c];
    RunPrefix(key, true, [], all, |cs + [c]|);
    RunAppend(key, true, [], cs, c);
  }

  lemma ChangesBegin(created: int, h: seq<Op>, a: nat, n: PartName)
    requires a < |h| && GoodOp(created, h[a]) && n in h[a].parts
    ensures var f := h[a].fmri;
            PartChanges(StemOps(h[..a], f.pub, f.stem), n, created) + [Change(h[a].kind, h[a].parts[n])]
            <= PartChanges(StemOps(h, f.pub, f.stem), n, created)
  {
    var f := h[a].fmri;
    ChangesAppend(created, h[..a], h[a], n, f.pub, f.stem);
    assert h[..a + 1] == h[..a] + [h[a]];
    ChangesOfPrefix(h, a + 1, n, created, f.pub, f.stem);
  }

  lemma ChangesOfPrefix(h: seq<Op>, m: nat, n: PartName, created: int, p: Publisher, s: string)
    requires m <= |h|
    ensures PartChanges(StemOps(h[..m], p, s), n, created) <= PartChanges(StemOps(h, p, s), n, created)
  {
    assert h == h[..m] + h[m..];
    StemOpsConcat(h[..m], h[m..], p, s);
    ChangesOnward(StemOps(h[..m], p, s), StemOps(h[m..], p, s), n, created);
  }

  lemma ChangesOnward(es: seq<LogEntry>, fs: seq<LogEntry>, n: PartName, after: int)
    ensures PartChanges(es, n, after) <= PartChanges(es + fs, n, after)
  {
    PartChangesConcat(es, fs, n, after);
  }

  lemma PrefixIsGood(created: int, h: seq<Op>, a: nat)
    requires GoodHistory(created, h) && a <= |h|
    ensures GoodHistory(created, h[..a])
  {
    EarlierIsGood(created, h[..a], h);
  }

  /** Every part that was touched is there. */
  ghost predicate AllTouched(h: seq<Op>, ps: PartFiles) {
    forall n :: Touched(h, n) ==> n in ps
  }

  ghost predicate StateIs(key: VersionKey, created: int, g: seq<Op>, ps: PartFiles, times: map<PartName, int>) {
    && PartsAre(key, created, g, ps) && TimesAre(created, g, LastTime(created, g), times)
    && ps.Keys == times.Keys
  }

  /** The parts and times at any earlier point. */
  lemma {:induction false} PastState(key: VersionKey, created: int, h: seq<Op>, ps: PartFiles, a: nat)
    returns (qs: PartFiles, times: map<PartName, int>)
    requires GoodHistory(created, h) && PartsAre(key, created, h, ps) && a <= |h|
    requires AllTouched(h, ps)
    ensures StateIs(key, created, h[..a], qs, times)
    decreases a, 0
  {
    if a == 0 {
      qs, times := map[], map[];
      NoState(key, created, h[..0]);
    } else {
      qs, times := PastNext(key, created, h, ps, a - 1);
    }
  }

  lemma {:induction false} PastNext(key: VersionKey, created: int, h: seq<Op>, ps: PartFiles, a: nat)
    returns (qs: PartFiles, times: map<PartName, int>)
    requires GoodHistory(created, h) && PartsAre(key, created, h, ps) && a < |h| && AllTouched(h, ps)
    ensures StateIs(key, created, h[..a + 1], qs, times)
    decreases a, 1
  {
    var was, before := PastState(key, created, h, ps, a);
    qs, times := PastStep(key, created, h, ps, a, was, before);
  }

  lemma NoState(key: VersionKey, created: int, h: seq<Op>)
    requires h == []
    ensures StateIs(key, created, h, map[], map[])
  {
  }

  lemma PastStep(key: VersionKey, created: int, h: seq<Op>, ps: PartFiles, a: nat, was: PartFiles,
                 before: map<PartName, int>)
    returns (qs: PartFiles, times: map<PartName, int>)
    requires GoodHistory(created, h) && PartsAre(key, created, h, ps) && a < |h| && AllTouched(h, ps)
    requires StateIs(key, created, h[..a], was, before)
    ensures StateIs(key, created, h[..a + 1], qs, times)
  {
    qs, times := Touch(key, true, was, h[a]), Stamp(before, h[a].parts.Keys, h[a].time);
    PrefixIsGood(created, h, a);
    assert h[..a + 1] == h[..a] + [h[a]];
    assert GoodOp(created, h[a]) && h[a].time > LastTime(created, h[..a]);
    TimesAfter(created, h[..a], before, h[a]);
    TouchedAreThere(created, h[..a], was, before);
    PastParts(key, created, h, ps, a, was);
  }

  lemma TouchedAreThere(created: int, g: seq<Op>, qs: PartFiles, times: map<PartName, int>)
    requires TimesAre(created, g, LastTime(created, g), times) && qs.Keys == times.Keys
    ensures AllTouched(g, qs)
  {
    forall n | Touched(g, n)
      ensures n in qs
    {
      assert n in times;
    }
  }

  lemma PastParts(key: VersionKey, created: int, h: seq<Op>, ps: PartFiles, a: nat, was: PartFiles)
    requires GoodHistory(created, h) && PartsAre(key, created, h, ps) && a < |h| && AllTouched(h, ps)
    requires PartsAre(key, created, h[..a], was) && AllTouched(h[..a], was)
    ensures PartsAre(key, created, h[..a] + [h[a]], Touch(key, true, was, h[a]))
  {
    var op, qs := h[a], Touch(key, true, was, h[a]);
    forall n | n in qs
      ensures PartIs(key, created, h[..a] + [op], n, qs[n].data)
    {
      if n in op.parts {
        assert Touched(h, n);
        if n !in was {
          PartEmpty(key, created, h[..a], n);
        }
        OpTaken(key, created, h, a, n, ps[n].data, DataOf(was, n));
        PartChanged(key, created, h[..a], op, n, DataOf(was, n));
      } else {
        PartUnchanged(key, created, h[..a], op, n, was[n].data);
      }
    }
  }

  /** A client that stopped at any earlier point, with all the parts there were. */
  lemma PastClient(key: VersionKey, created: int, h: seq<Op>, now: int, v: View, a: nat) returns (c: Dir)
    requires ServerIs(key, created, h, now, v) && a <= |h|
    ensures ClientIs(key, created, h[..a], c)
    ensures forall n :: Touched(h[..a], n) ==> n in c.parts
  {
    TouchedAreThere(created, h, v.parts, v.partTimes);
    var qs, times := PastState(key, created, h, v.parts, a);
    c := ClientOf(key, created, h[..a], qs, times);
    TouchedAreThere(created, h[..a], qs, times);
  }

  lemma ClientOf(key: VersionKey, created: int, g: seq<Op>, qs: PartFiles, times: map<PartName, int>) returns (c: Dir)
    requires PartsAre(key, created, g, qs) && TimesAre(created, g, LastTime(created, g), times) && qs.Keys == times.Keys
    ensures ClientIs(key, created, g, c) && c.parts == qs
  {
    var attrs := Attrs(created, LastTime(created, g), 0, 0, map n | n in times :: PartAttr(times[n], None), map[]);
    assert PartTimes(attrs) == times;
    assert attrs.parts.Keys == times.Keys;
    c := Dir(Some(attrs), qs, map[]);
  }


  // ----- Something is lost that may not be dropped

  /** Part n was changed by operation i, whose log of the last hour is dropped, after point a. */
  ghost predicate Missed(h: seq<Op>, hour: int, drop: set<LogName>, a: int, i: int, n: PartName)
    requires 0 <= a <= |h|
  {
    a <= i < |h| && n in h[i].parts && Touched(h[..a], n) && LogName(hour, LocaleOf(n)) in drop
  }

  /** The last operation that is missed. */
  lemma {:induction false} LastMissed(h: seq<Op>, hour: int, drop: set<LogName>, a: int, i: int, n: PartName)
    returns (j: int, m: PartName)
    requires 0 <= a <= |h| && Missed(h, hour, drop, a, i, n)
    ensures Missed(h, hour, drop, a, j, m)
    ensures forall k, x :: k > j ==> !Missed(h, hour, drop, a, k, x)
    decreases |h| - i
  {
    if k, x :| k > i && Missed(h, hour, drop, a, k, x) {
      j, m := LastMissed(h, hour, drop, a, k, x);
    } else {
      j, m := i, n;
    }
  }

  lemma TouchedIn(h: seq<Op>, a: int, b: int, n: PartName)
    requires 0 <= a <= b <= |h|
    ensures Touched(h[..a], n) ==> Touched(h[..b], n)
    ensures Touched(h[b..], n) ==> Touched(h[a..], n)
  {
    if Touched(h[..a], n) {
      var i :| 0 <= i < a && n in h[..a][i].parts;
      assert h[..b][i] == h[..a][i];
    }
    if Touched(h[b..], n) {
      var i :| 0 <= i < |h[b..]| && n in h[b..][i].parts;
      assert h[a..][i + b - a] == h[b..][i];
    }
  }

  /** Clients that saw more, all of it in the last hour, may be told to read logs as well. */
  lemma MayReadLater(h: seq<Op>, now: int, logs: set<LogName>, a: int, b: int)
    requires 0 <= a <= b <= |h| && MayRead(h, now, logs, a)
    requires forall i :: a <= i < |h| ==> Hour(h[i].time) == Hour(now + 1)
    ensures MayRead(h, now, logs, b)
  {
    forall n | Touched(h[b..], n)
      ensures if Touched(h[..b], n) then BoundaryOffered(h, now, logs, b, n) else LocaleOf(n) != "C"
    {
      TouchedIn(h, a, b, n);
      forall t | LastTouch(h[..b], n, t)
        ensures LogName(Hour(t), LocaleOf(n)) in logs || Hour(t) == Hour(now + 1)
      {
        LaterBoundary(h, now, logs, a, b, n, t);
      }
    }
  }

  lemma LaterBoundary(h: seq<Op>, now: int, logs: set<LogName>, a: int, b: int, n: PartName, t: int)
    requires 0 <= a <= b <= |h| && MayRead(h, now, logs, a) && Touched(h[a..], n) && LastTouch(h[..b], n, t)
    requires forall i :: a <= i < |h| ==> Hour(h[i].time) == Hour(now + 1)
    ensures LogName(Hour(t), LocaleOf(n)) in logs || Hour(t) == Hour(now + 1)
  {
    var j :| 0 <= j < b && n in h[..b][j].parts && h[..b][j].time == t;
    if j < a {
      assert h[..a][j] == h[..b][j];
      assert Touched(h[..a], n);
      forall i | 0 <= i < a && n in h[..a][i].parts
        ensures h[..a][i].time <= t
      {
        assert h[..b][i] == h[..a][i];
      }
      assert LastTouch(h[..a], n, t);
      assert BoundaryOffered(h, now, logs, a, n);
    }
  }

  // ----- An operation on a new package

  lemma {:induction false} LongerThanAll(ss: set<string>) returns (n: nat)
    ensures forall s :: s in ss ==> |s| < n
    decreases ss
  {
    if ss == {} {
      n := 0;
    } else {
      var s :| s in ss;
      var m := LongerThanAll(ss - {s});
      n := if |s| < m then m else |s| + 1;
    }
  }

  ghost function StemsListed(ps: PartFiles): set<string> {
    set n, p, s | n in ps && p in ps[n].data && s in ps[n].data[p] :: s
  }

  /** A package stem that no part lists. */
  lemma FreshStem(ps: PartFiles, other: string) returns (stem: string)
    ensures stem != other && forall n, p: Publisher :: ListAt(DataOf(ps, n), p, stem) == []
  {
    var n := LongerThanAll(StemsListed(ps) + {other});
    stem := seq(n, _ => 'x');
    forall m, p: Publisher
      ensures ListAt(DataOf(ps, m), p, stem) == []
    {
      assert stem !in StemsListed(ps);
      assert stem in Stems(DataOf(ps, m), p) ==> stem in StemsListed(ps);
    }
  }

  /** The parts known at point a that have changed since. */
  ghost function ChangedSince(h: seq<Op>, ps: PartFiles, a: int): set<PartName>
    requires 0 <= a <= |h|
  {
    set n | n in ps && Touched(h[..a], n) && Touched(h[a..], n)
  }

  /** A package is added to all of them. */
  ghost function NextAdd(now: int, pub: Publisher, stem: string, names: set<PartName>): Op {
    Op(now + 1, Add, Fmri(pub, stem, "1"), map n | n in names :: Entry("1", map[], map[], []))
  }

  lemma NextAddAccepted(now: int, v: View, pub: Publisher, stem: string, names: set<PartName>)
    requires v.lastModified <= now && Base in names && forall n, p: Publisher ::
               ListAt(DataOf(v.parts, n), p, stem) == []
    ensures Accepts(v, NextAdd(now, pub, stem, names))
  {
  }

  // ----- The gap

  /** Operation i was the last on part n, which had changed before in the same hour; that hour is
      not over, its log of the part's locale is to be dropped, and a client at point i may be told to
      read logs. */
  ghost predicate GapAt(h: seq<Op>, now: int, kept: set<LogName>, drop: set<LogName>, i: int, n: PartName) {
    && 0 <= i < |h| && n in h[i].parts && Touched(h[..i], n)
    && (forall k :: i < k < |h| ==> n !in h[k].parts)
    && LogName(Hour(now), LocaleOf(n)) in drop && Hour(now) == Hour(now + 1)
    && MayRead(h, now, kept, i)
  }

  ghost predicate Gap(key: VersionKey, created: int, h: seq<Op>, now: int, v: View, drop: set<LogName>, i: int,
                      n: PartName)
  {
    && ServerIs(key, created, h, now, v) && OldestFirst(v, drop)
    && GapAt(h, now, (v.logs - drop).Keys, drop, i, n)
  }

  lemma LaterInHour(created: int, h: seq<Op>, now: int, a: int, n: PartName, t: int)
    requires GoodHistory(created, h) && now >= LastTime(created, h) && 0 <= a <= |h| && LastTouch(h[..a], n, t)
    requires Hour(t) == Hour(now) == Hour(now + 1)
    ensures forall i :: a <= i < |h| ==> Hour(h[i].time) == Hour(now + 1)
  {
    NowAfterAll(created, h);
    var j :| 0 <= j < a && n in h[..a][j].parts && h[..a][j].time == t;
    forall i | a <= i < |h|
      ensures Hour(h[i].time) == Hour(now + 1)
    {
      HourMonotone(h[j].time, h[i].time);
      HourMonotone(h[i].time, now);
    }
  }

  lemma GapFrom(created: int, h: seq<Op>, now: int, kept: set<LogName>, drop: set<LogName>, a: int, i0: int,
                n0: PartName, t: int)
    returns (i: int, n: PartName)
    requires GoodHistory(created, h) && now >= LastTime(created, h) && 0 <= a <= i0 < |h|
    requires n0 in h[i0].parts && Touched(h[..a], n0) && MayRead(h, now, kept, a)
    requires LastTouch(h[..a], n0, t) && Hour(t) == Hour(now) == Hour(now + 1)
             && LogName(Hour(now), LocaleOf(n0)) in drop
    ensures GapAt(h, now, kept, drop, i, n)
  {
    LaterInHour(created, h, now, a, n0, t);
    assert Missed(h, Hour(now), drop, a, i0, n0);
    i, n := LastMissed(h, Hour(now), drop, a, i0, n0);
    MayReadLater(h, now, kept, a, i);
    TouchedIn(h, a, i, n);
    forall k | i < k < |h|
      ensures n !in h[k].parts
    {
      assert !Missed(h, Hour(now), drop, a, k, n);
    }
  }

  lemma FindGap(key: VersionKey, created: int, h: seq<Op>, now: int, v: View, drop: set<LogName>)
    returns (i: int, n: PartName)
    requires ServerIs(key, created, h, now, v) && OldestFirst(v, drop) && !MayDrop(h, now, v, drop)
    ensures Gap(key, created, h, now, v, drop, i, n)
  {
    i, n := FindGapAt(created, h, now, v, drop);
  }

  lemma FindGapAt(created: int, h: seq<Op>, now: int, v: View, drop: set<LogName>) returns (i: int, n: PartName)
    requires GoodHistory(created, h) && now >= LastTime(created, h) && NothingLost(h, now, v.logs)
    requires OldestFirst(v, drop) && !MayDrop(h, now, v, drop)
    ensures GapAt(h, now, (v.logs - drop).Keys, drop, i, n)
  {
    NowAfterAll(created, h);
    var a, i0, n0 := SomeLost(h, now, v.logs - drop);
    var t := LostInOpenHour(h, now, v, drop, a, i0, n0);
    i, n := GapFrom(created, h, now, (v.logs - drop).Keys, drop, a, i0, n0, t);
  }

  lemma SomeLost(h: seq<Op>, now: int, kept: LogFiles) returns (a: int, i: int, n: PartName)
    requires !NothingLost(h, now, kept)
    ensures 0 <= a <= i < |h| && n in h[i].parts && Touched(h[..a], n) && MayRead(h, now, kept.Keys, a)
            && !Held(h[i], n, kept)
  {
    a, i, n :| 0 <= a <= i < |h| && n in h[i].parts && Touched(h[..a], n)
               && MayRead(h, now, kept.Keys, a) && !Held(h[i], n, kept);
  }

  /** The operation that comes next, and the catalog after it. */
  ghost function Next(h: seq<Op>, now: int, v: View, i: int, stem: string): Op
    requires 0 <= i < |h|
  {
    NextAdd(now, h[i].fmri.pub, stem, ChangedSince(h, v.parts, i))
  }

  ghost predicate Fresh(v: View, op: Op, stem: string) {
    stem != op.fmri.stem && forall n, p: Publisher :: ListAt(DataOf(v.parts, n), p, stem) == []
  }

  /** A part that changed before point i and by operation i, and the base part with it. */
  lemma ChangedAround(created: int, h: seq<Op>, ps: PartFiles, i: int, n: PartName)
    requires GoodHistory(created, h) && 0 <= i < |h| && n in h[i].parts && Touched(h[..i], n)
    requires forall m :: Touched(h, m) ==> m in ps
    ensures n in ChangedSince(h, ps, i) && Base in ChangedSince(h, ps, i)
  {
    assert h[i..][0] == h[i];
    var j :| 0 <= j < i && n in h[..i][j].parts;
    assert GoodOp(created, h[i]) && GoodOp(created, h[j]) && h[..i][j] == h[j];
    assert n in h[i..][0].parts && Base in h[i..][0].parts;
    assert Base in h[..i][j].parts;
    assert n in h[j].parts && Base in h[j].parts;
    assert Touched(h, n) && Touched(h, Base);
  }

  lemma NextFits(now: int, v: View, w: View, h: seq<Op>, i: int, stem: string)
    requires 0 <= i < |h| && Fresh(v, h[i], stem) && Base in ChangedSince(h, v.parts, i)
    requires w.parts == v.parts && w.lastModified <= now
    ensures Accepts(w, Next(h, now, v, i, stem))
  {
    NextAddAccepted(now, w, h[i].fmri.pub, stem, ChangedSince(h, v.parts, i));
  }

  lemma TouchedPartsAre(key: VersionKey, created: int, h: seq<Op>, now: int, v: View)
    requires ServerIs(key, created, h, now, v)
    ensures GoodHistory(created, h) && forall m :: Touched(h, m) ==> m in v.parts
  {
  }

  lemma NextAccepted(key: VersionKey, created: int, h: seq<Op>, now: int, v: View, drop: set<LogName>, i: int,
                     n: PartName, stem: string)
    requires Gap(key, created, h, now, v, drop, i, n) && Fresh(v, h[i], stem)
    ensures n in ChangedSince(h, v.parts, i) && Accepts(Expire(v, drop), Next(h, now, v, i, stem))
  {
    TouchedPartsAre(key, created, h, now, v);
    ChangedAround(created, h, v.parts, i, n);
    NextFits(now, v, Expire(v, drop), h, i, stem);
  }

  ghost function Nextly(key: VersionKey, h: seq<Op>, now: int, v: View, drop: set<LogName>, i: int, stem: string): View
    requires 0 <= i < |h|
  {
    Commit(key, Expire(v, drop), Next(h, now, v, i, stem))
  }

  /** What remains true of times and parts, whatever logs were dropped. */
  lemma TimesAndParts(key: VersionKey, created: int, h: seq<Op>, now: int, v: View, drop: set<LogName>, op: Op)
    requires ServerIs(key, created, h, now, v) && Accepts(Expire(v, drop), op)
    ensures var w := Commit(key, Expire(v, drop), op);
            && GoodHistory(created, h + [op]) && TimesAre(created, h + [op], w.lastModified, w.partTimes)
            && w.created == created && w.lastModified == op.time
            && PartsAre(key, created, h + [op], w.parts) && w.parts.Keys == w.partTimes.Keys
  {
    ServerTimes(key, created, h, now, v, op);
    ServerParts(key, created, h, now, v, drop, op);
  }

  lemma ServerParts(key: VersionKey, created: int, h: seq<Op>, now: int, v: View, drop: set<LogName>, op: Op)
    requires ServerIs(key, created, h, now, v) && Accepts(Expire(v, drop), op) && GoodOp(created, op)
    ensures PartsAre(key, created, h + [op], Touch(key, true, v.parts, op))
  {
    TouchedAreThere(created, h, v.parts, v.partTimes);
    PartsAfter(key, created, h, Expire(v, drop), op);
  }

  lemma ServerTimes(key: VersionKey, created: int, h: seq<Op>, now: int, v: View, op: Op)
    requires ServerIs(key, created, h, now, v) && GoodOp(created, op) && op.time > v.lastModified
    ensures GoodHistory(created, h + [op])
            && TimesAre(created, h + [op], op.time, Stamp(v.partTimes, op.parts.Keys, op.time))
  {
    HistoryAfter(created, h, op);
    TimesAfter(created, h, v.partTimes, op);
  }

  lemma NextState(key: VersionKey, created: int, h: seq<Op>, now: int, v: View, drop: set<LogName>, i: int,
                  n: PartName, stem: string)
    requires Gap(key, created, h, now, v, drop, i, n) && Fresh(v, h[i], stem)
    ensures var w, h' := Nextly(key, h, now, v, drop, i, stem), h + [Next(h, now, v, i, stem)];
            && Earlier(created, h[..i], h') && TimesAre(created, h', w.lastModified, w.partTimes)
            && w.created == created && w.lastModified == now + 1
            && PartsAre(key, created, h', w.parts) && w.parts.Keys == w.partTimes.Keys
  {
    NextAccepted(key, created, h, now, v, drop, i, n, stem);
    TimesAndParts(key, created, h, now, v, drop, Next(h, now, v, i, stem));
    FirstOnes(h, Next(h, now, v, i, stem), i);
  }

  lemma FirstOnes(h: seq<Op>, op: Op, i: nat)
    requires i <= |h|
    ensures (h + [op])[..i] == h[..i]
  {
  }


  // ----- What the client is told

  /** A client's attributes at point i, and the catalog's after the next operation. */
  ghost predicate BothAttrs(created: int, h: seq<Op>, op: Op, i: int, a: Attrs, b: Attrs) {
    && 0 <= i <= |h| && Earlier(created, h[..i], h + [op])
    && TimesAre(created, h[..i], a.lastModified, PartTimes(a))
       && TimesAre(created, h + [op], b.lastModified, PartTimes(b))
    && forall m :: m in op.parts ==> Touched(h[i..], m)
  }

  lemma ChangedAfter(created: int, h: seq<Op>, op: Op, i: int, a: Attrs, b: Attrs, m: PartName)
    requires BothAttrs(created, h, op, i, a, b) && m in ChangedParts(a, b)
    ensures Touched(h[..i], m) && Touched(h[i..], m) && LastTouch(h[..i], m, a.parts[m].lastModified)
  {
    assert m in PartTimes(a) && m in PartTimes(b);
    TouchedLater(h, op, i, m, a.parts[m].lastModified, b.parts[m].lastModified);
  }

  lemma TouchedLater(h: seq<Op>, op: Op, i: int, m: PartName, t: int, u: int)
    requires 0 <= i <= |h| && LastTouch(h[..i], m, t) && LastTouch(h + [op], m, u) && t < u
    requires m in op.parts ==> Touched(h[i..], m)
    ensures Touched(h[..i], m) && Touched(h[i..], m)
  {
    var h' := h + [op];
    var j :| 0 <= j < |h'| && m in h'[j].parts && h'[j].time == u;
    assert forall k :: 0 <= k < i ==> h[..i][k] == h'[k];
    if j < |h| {
      assert h[i..][j - i] == h'[j];
    }
  }

  lemma BoundaryAfter(created: int, h: seq<Op>, now: int, kept: set<LogName>, op: Op, i: int, a: Attrs, b: Attrs,
                      m: PartName)
    requires BothAttrs(created, h, op, i, a, b) && m in ChangedParts(a, b)
    requires MayRead(h, now, kept, i) && op.time == now + 1
    requires b.updates.Keys == kept + LogsFor(op)
    requires Touched(h[..i], m) && Touched(h[i..], m) ==> m in op.parts
    ensures BoundaryLog(a, m) in b.updates
  {
    ChangedAfter(created, h, op, i, a, b, m);
    assert BoundaryOffered(h, now, kept, i, m);
    InItsLog(op, m);
  }

  lemma NoneNewAfter(created: int, h: seq<Op>, now: int, kept: set<LogName>, op: Op, i: int, a: Attrs, b: Attrs)
    requires BothAttrs(created, h, op, i, a, b) && MayRead(h, now, kept, i)
    ensures NewParts(a, b) == {}
  {
    forall x | x in b.parts && x !in a.parts
      ensures LocaleOf(x) !in {"C"} + LocalesOf(ChangedParts(a, b))
    {
      assert x in PartTimes(b) && x !in PartTimes(a);
      NewSince(h, op, i, x);
      OneOfItsLocale(a, b, x);
    }
  }

  /** Locales other than "C" have one part only. */
  lemma OneOfItsLocale(a: Attrs, b: Attrs, x: PartName)
    requires LocaleOf(x) != "C" && x !in a.parts
    ensures LocaleOf(x) !in LocalesOf(ChangedParts(a, b))
  {
    assert forall m :: m in ChangedParts(a, b) ==> LocaleOf(m) != LocaleOf(x);
  }

  lemma NewSince(h: seq<Op>, op: Op, i: int, x: PartName)
    requires 0 <= i <= |h| && Touched(h + [op], x) && !Touched(h[..i], x)
    requires forall m :: m in op.parts ==> Touched(h[i..], m)
    ensures Touched(h[i..], x)
  {
    var j :| 0 <= j < |h + [op]| && x in (h + [op])[j].parts;
    assert forall k :: 0 <= k < i ==> h[..i][k] == (h + [op])[k];
    if j < |h| {
      assert h[i..][j - i] == (h + [op])[j];
    }
  }

  lemma {:induction false} MaxName(names: set<LogName>) returns (m: LogName)
    requires names != {}
    ensures m in names && forall l :: l in names && l != m ==> LogLess(l, m)
    decreases names
  {
    var x :| x in names;
    if names == {x} {
      m := x;
    } else {
      var y := MaxName(names - {x});
      LogLessTotal(x, y);
      m := if LogLess(x, y) then y else x;
      forall l | l in names && l != m
        ensures LogLess(l, m)
      {
        if l != x && l != y && m == x {
          LogLessTransitive(l, y, x);
        }
      }
    }
  }

  lemma {:induction false} SortedNames(names: set<LogName>) returns (r: seq<LogName>)
    ensures Ascending(r) && forall l :: l in r <==> l in names
    decreases names
  {
    if names == {} {
      r := [];
    } else {
      var m := MaxName(names);
      var init := SortedNames(names - {m});
      r := init + [m];
    }
  }

  /** The client is told to read logs. */
  lemma ToldToRead(created: int, h: seq<Op>, now: int, kept: set<LogName>, op: Op, i: int, a: Attrs, b: Attrs,
                   n: PartName)
    returns (names: seq<LogName>)
    requires BothAttrs(created, h, op, i, a, b) && a.created == b.created && now >= LastTime(created, h)
    requires MayRead(h, now, kept, i) && op.time == now + 1
    requires b.updates.Keys == kept + LogsFor(op)
    requires forall m :: Touched(h[..i], m) && Touched(h[i..], m) ==> m in op.parts
    requires i < |h| && n in h[i].parts && Touched(h[..i], n)
    ensures Needed(a, Some(b), Ok(UpdateLogs(names))) && n in a.parts
    ensures forall l :: l in names ==> l in b.updates
  {
    assert n in PartTimes(a) && (h + [op])[i] == h[i];
    PartTimeGrows(created, h[..i], h + [op], a, b, n);
    assert n in ChangedParts(a, b);
    forall m | m in a.parts
      ensures m in b.parts && a.parts[m].lastModified <= b.parts[m].lastModified
    {
      PartTimeGrows(created, h[..i], h + [op], a, b, m);
    }
    forall m | m in ChangedParts(a, b)
      ensures BoundaryLog(a, m) in b.updates
    {
      BoundaryAfter(created, h, now, kept, op, i, a, b, m);
    }
    NoneNewAfter(created, h, now, kept, op, i, a, b);
    assert Incremental(a, b);
    names := SortedNames(set l | l in b.updates && LogNeeded(a, b, l));
    NewerThan(created, h[..i], h + [op], i);
  }

  // ----- What the client reads

  lemma {:induction false} PendingNone(logs: LogFiles, names: seq<LogName>, n: PartName, after: int, p: Publisher,
                                       s: string)
    requires forall l :: l in names ==> PartChanges(ListAt(LogDataOf(logs, l), p, s), n, after) == []
    ensures Pending(logs, names, n, after, p, s) == []
  {
    if names != [] {
      var init, l := names[..|names| - 1], names[|names| - 1];
      assert l in names;
      PendingNone(logs, init, n, after, p, s);
      LogsChangesAppend(StemLogs(logs, init, p, s), ListAt(LogDataOf(logs, l), p, s), n, after);
    }
  }

  lemma {:induction false} PendingSome(logs: LogFiles, names: seq<LogName>, l: LogName, n: PartName, after: int,
                                       p: Publisher, s: string)
    requires l in names && PartChanges(ListAt(LogDataOf(logs, l), p, s), n, after) != []
    ensures Pending(logs, names, n, after, p, s) != []
  {
    var init, last := names[..|names| - 1], names[|names| - 1];
    assert names == init + [last];
    if l in init {
      PendingSome(logs, init, l, n, after, p, s);
    }
    LogsChangesAppend(StemLogs(logs, init, p, s), ListAt(LogDataOf(logs, last), p, s), n, after);
  }

  /** No log of the locale is kept. */
  lemma NoneKept(h: seq<Op>, now: int, v: View, drop: set<LogName>, n: PartName, l: LogName)
    requires OldestFirst(v, drop) && LogName(Hour(now), LocaleOf(n)) in drop
    requires forall j :: 0 <= j < |h| ==> h[j].time <= now
    requires l in v.logs && l in v.logTimes && LastLogged(h, l, v.logTimes[l]) && l.locale == LocaleOf(n)
    ensures l in drop
  {
    var j :| 0 <= j < |h| && l in LogsFor(h[j]) && h[j].time == v.logTimes[l];
    HourMonotone(h[j].time, now);
  }

  /** A log of another locale says nothing of the part. */
  lemma OtherLocale(h: seq<Op>, l: LogName, d: Nested<LogEntry>, n: PartName, after: int, p: Publisher, s: string)
    requires LogEnds(h, l, d) && l.locale != LocaleOf(n)
    ensures PartChanges(ListAt(d, p, s), n, after) == []
  {
    var k :| 0 <= k <= |h| && LogIs(h[k..], l, d);
    PartChangesOfLogged(StemOps(h[k..], p, s), l, n, after);
  }

  /** The new log holds the next operation and nothing else. */
  lemma NewLog(op: Op, l: LogName, n: PartName, after: int, p: Publisher, s: string)
    requires n in op.parts && l == LogName(Hour(op.time), LocaleOf(n)) && op.time > after
    ensures var d := Append(map[], op, l.locale);
            PartChanges(ListAt(d, p, s), n, after) != [] <==> p == op.fmri.pub && s == op.fmri.stem
  {
    var line := LogEntry(op.kind, op.time, op.fmri.version, Restrict(op.parts, l.locale));
    PutListAt(map[], op.fmri.pub, op.fmri.stem, [line]);
    assert n in line.parts;
    assert [line][..0] == [];
    assert ListAt<LogEntry>(map[], p, s) == [];
    assert PartChanges([line], n, after) == PartChanges([], n, after) + OneChange(line, n, after);
  }

  /** Whatever logs the client reads, it finds nothing of the missed list... */
  lemma ReadsNothing(h: seq<Op>, now: int, v: View, drop: set<LogName>, op: Op, n: PartName, after: int, p: Publisher,
                     s: string, l: LogName)
    requires OldestFirst(v, drop) && LogName(Hour(now), LocaleOf(n)) in drop
    requires forall j :: 0 <= j < |h| ==> h[j].time <= now
    requires LogsAre(h, now, v.logs, v.logTimes)
    requires n in op.parts && Hour(op.time) == Hour(now) && op.time > after && s != op.fmri.stem
    requires l in Log(v.logs - drop, op)
    ensures PartChanges(ListAt(Log(v.logs - drop, op)[l].data, p, s), n, after) == []
  {
    var kept := v.logs - drop;
    if l.locale != LocaleOf(n) {
      LogEndsAfter(h, op, l, kept);
      OtherLocale(h + [op], l, Log(kept, op)[l].data, n, after, p, s);
    } else {
      if l in v.logs {
        NoneKept(h, now, v, drop, n, l);
      }
      assert l !in kept && l in LogsFor(op);
      NewLog(op, l, n, after, p, s);
    }
  }

  /** ... but it does find something of the part. */
  lemma ReadsSomething(h: seq<Op>, now: int, v: View, drop: set<LogName>, op: Op, n: PartName, after: int)
    requires LogName(Hour(now), LocaleOf(n)) in drop
    requires n in op.parts && Hour(op.time) == Hour(now) && op.time > after
    ensures var l, logs := LogName(Hour(op.time), LocaleOf(n)), Log(v.logs - drop, op);
            && l in LogsFor(op) && l in logs
            && PartChanges(ListAt(LogDataOf(logs, l), op.fmri.pub, op.fmri.stem), n, after) != []
  {
    var l := LogName(Hour(op.time), LocaleOf(n));
    InItsLog(op, n);
    assert l !in v.logs - drop;
    NewLog(op, l, n, after, op.fmri.pub, op.fmri.stem);
  }

  // ----- What the server has

  /** The list of the last operation on the part differs from the one before it. */
  lemma ListDiffers(key: VersionKey, created: int, h: seq<Op>, op: Op, i: int, n: PartName, d: Entries, e: Entries)
    requires GoodHistory(created, h + [op]) && 0 <= i < |h| && n in h[i].parts && op.fmri.stem != h[i].fmri.stem
    requires forall k :: i < k < |h| ==> n !in h[k].parts
    requires PartIs(key, created, h[..i], n, d) && PartIs(key, created, h + [op], n, e)
    ensures ListAt(d, h[i].fmri.pub, h[i].fmri.stem) != ListAt(e, h[i].fmri.pub, h[i].fmri.stem)
  {
    var f, h' := h[i].fmri, h + [op];
    var cs, c := PartChanges(StemOps(h[..i], f.pub, f.stem), n, created), Change(h[i].kind, h[i].parts[n]);
    OnlyOneMore(created, h, op, i, n);
    RunAppend(key, true, [], cs, c);
    ApplyDiffers(key, ListAt(d, f.pub, f.stem), c);
  }

  lemma ApplyDiffers(key: VersionKey, l: seq<Entry>, c: Change)
    ensures Apply(key, true, l, c) != Some(l)
  {
    StableSortCorrect(key, l + [c.entry]);
    DeleteHas(l, c.entry.version);
  }

  lemma OnlyOneMore(created: int, h: seq<Op>, op: Op, i: int, n: PartName)
    requires GoodHistory(created, h + [op]) && 0 <= i < |h| && n in h[i].parts && op.fmri.stem != h[i].fmri.stem
    requires forall k :: i < k < |h| ==> n !in h[k].parts
    ensures var f := h[i].fmri;
            PartChanges(StemOps(h + [op], f.pub, f.stem), n, created)
            == PartChanges(StemOps(h[..i], f.pub, f.stem), n, created) + [Change(h[i].kind, h[i].parts[n])]
  {
    var f, first, rest := h[i].fmri, h[..i] + [h[i]], (h + [op])[i + 1..];
    assert h + [op] == first + rest;
    StemOpsConcat(first, rest, f.pub, f.stem);
    PartChangesConcat(StemOps(first, f.pub, f.stem), StemOps(rest, f.pub, f.stem), n, created);
    assert (h + [op])[i] == h[i];
    ChangesAppend(created, h[..i], h[i], n, f.pub, f.stem);
    RestSilent(created, h, op, i, n, f.pub, f.stem);
  }

  lemma RestSilent(created: int, h: seq<Op>, op: Op, i: int, n: PartName, p: Publisher, s: string)
    requires 0 <= i < |h| && op.fmri.stem != s && forall k :: i < k < |h| ==> n !in h[k].parts
    ensures PartChanges(StemOps((h + [op])[i + 1..], p, s), n, created) == []
  {
    var rest := h[i + 1..];
    assert (h + [op])[i + 1..] == rest + [op];
    StemOpsAppend(rest, op, p, s);
    StemOpsFrom(rest, p, s);
    forall e | e in StemOps(rest, p, s)
      ensures n !in e.parts
    {
      var j :| 0 <= j < |rest| && rest[j] == Op(e.time, e.kind, Fmri(p, s, e.version), e.parts);
      assert rest[j] == h[i + 1 + j];
    }
    NoChangesBefore(StemOps(rest, p, s), n, created);
    assert StemOps(rest, p, s) + [] == StemOps(rest, p, s);
  }

  // ----- The loss

  lemma GapAttrs(key: VersionKey, digest: Digest, created: int, h: seq<Op>, now: int, v: View, drop: set<LogName>,
                 i: int, n: PartName, stem: string, c: Dir)
    requires Gap(key, created, h, now, v, drop, i, n) && Fresh(v, h[i], stem) && ClientIs(key, created, h[..i], c)
    ensures var op, w := Next(h, now, v, i, stem), Nextly(key, h, now, v, drop, i, stem);
            && w.partTimes.Keys <= w.parts.Keys
            && BothAttrs(created, h, op, i, c.attrs.value, Published(digest, w).attrs.value)
            && Published(digest, w).attrs.value.created == created
            && Published(digest, w).attrs.value.updates.Keys == (v.logs - drop).Keys + LogsFor(op)
  {
    NextState(key, created, h, now, v, drop, i, n, stem);
    var w := Nextly(key, h, now, v, drop, i, stem);
    PublishedView(digest, w);
    assert PartTimes(Published(digest, w).attrs.value) == w.partTimes;
    NextLogTimes(key, v, drop, Next(h, now, v, i, stem));
    NextParts(h, now, v, i, stem);
  }

  lemma NextLogTimes(key: VersionKey, v: View, drop: set<LogName>, op: Op)
    requires v.logs.Keys == v.logTimes.Keys
    ensures Commit(key, Expire(v, drop), op).logTimes.Keys == (v.logs - drop).Keys + LogsFor(op)
    ensures forall l :: l in LogsFor(op) ==> Commit(key, Expire(v, drop), op).logTimes[l] == op.time
  {
  }

  lemma NextParts(h: seq<Op>, now: int, v: View, i: int, stem: string)
    requires 0 <= i < |h|
    ensures forall m :: m in Next(h, now, v, i, stem).parts ==> Touched(h[i..], m)
  {
  }

  /** The client is told to read certain logs; all of them are there. */
  lemma GapTold(key: VersionKey, digest: Digest, created: int, h: seq<Op>, now: int, v: View, drop: set<LogName>,
                i: int, n: PartName, stem: string, c: Dir) returns (names: seq<LogName>)
    requires Gap(key, created, h, now, v, drop, i, n) && Fresh(v, h[i], stem) && ClientIs(key, created, h[..i], c)
    ensures var w := Nextly(key, h, now, v, drop, i, stem);
            && w.partTimes.Keys <= w.parts.Keys && n in c.attrs.value.parts
            && Needed(c.attrs.value, Published(digest, w).attrs, Ok(UpdateLogs(names)))
            && forall l :: l in names ==> l in w.logs
  {
    GapAttrs(key, digest, created, h, now, v, drop, i, n, stem, c);
    TouchedAreThere(created, h, v.parts, v.partTimes);
    ChangedAreNamed(h, v.parts, i);
    names := ToldToRead(created, h, now, (v.logs - drop).Keys, Next(h, now, v, i, stem), i, c.attrs.value,
                        Published(digest, Nextly(key, h, now, v, drop, i, stem)).attrs.value, n);
  }

  lemma ChangedAreNamed(h: seq<Op>, ps: PartFiles, i: int)
    requires 0 <= i <= |h| && forall n :: Touched(h, n) ==> n in ps
    ensures forall m :: Touched(h[..i], m) && Touched(h[i..], m) ==> m in ChangedSince(h, ps, i)
  {
    forall m | Touched(h[..i], m) && Touched(h[i..], m)
      ensures m in ChangedSince(h, ps, i)
    {
      var j :| 0 <= j < i && m in h[..i][j].parts;
      assert m in h[j].parts;
      assert Touched(h, m);
    }
  }

  /** The new log is among them. */
  lemma NewLogNeeded(created: int, h: seq<Op>, op: Op, i: int, a: Attrs, b: Attrs, n: PartName, names: seq<LogName>)
    requires BothAttrs(created, h, op, i, a, b) && Needed(a, Some(b), Ok(UpdateLogs(names))) && n in ChangedParts(a, b)
    requires LogName(Hour(op.time), LocaleOf(n)) in b.updates
             && b.updates[LogName(Hour(op.time), LocaleOf(n))] == op.time
    requires op.time > LastTime(created, h[..i])
    ensures LogName(Hour(op.time), LocaleOf(n)) in names
  {
    EarlierIsGood(created, h[..i], h + [op]);
    OldTimes(created, h[..i], a);
    assert LogNeeded(a, b, LogName(Hour(op.time), LocaleOf(n)));
  }

  /** A list with nothing pending stays as it is. */
  lemma ListStays(key: VersionKey, sorts: bool, logs: LogFiles, names: seq<LogName>, n: PartName, after: int,
                  d: Entries, d': Entries, p: Publisher, s: string)
    requires Replayed(key, sorts, logs, names, n, after, d, d') && Pending(logs, names, n, after, p, s) == []
    requires Sorted(key, ListAt(d, p, s))
    ensures ListAt(d', p, s) == ListAt(d, p, s)
  {
    SortOfSorted(key, ListAt(d, p, s));
  }

  /** The client at the gap finds something of the part, but not what it missed, so that no replay gives it
      the part the server has. */
  lemma GapNeverReplayed(key: VersionKey, created: int, h: seq<Op>, now: int, v: View, drop: set<LogName>, i: int,
                         n: PartName, stem: string, c: Dir, s: Dir, names: seq<LogName>)
    requires Gap(key, created, h, now, v, drop, i, n) && Fresh(v, h[i], stem) && ClientIs(key, created, h[..i], c)
             && n in c.parts
    requires var w := Nextly(key, h, now, v, drop, i, stem); s.logs == w.logs && s.parts == w.parts && n in s.parts
    requires forall l :: l in names ==> l in s.logs
    requires LogName(Hour(now), LocaleOf(n)) in names && n in c.attrs.value.parts
    ensures NeverReplayed(key, c, s, names, n)
  {
    var op, f, t := Next(h, now, v, i, stem), h[i].fmri, c.attrs.value.parts[n].lastModified;
    NowAfterAll(created, h);
    NextAccepted(key, created, h, now, v, drop, i, n, stem);
    NextState(key, created, h, now, v, drop, i, n, stem);
    PrefixIsGood(created, h, i);
    OldTimes(created, h[..i], c.attrs.value);
    assert t < op.time;
    ReadsSomething(h, now, v, drop, op, n, t);
    PendingSome(s.logs, names, LogName(Hour(op.time), LocaleOf(n)), n, t, op.fmri.pub, op.fmri.stem);
    forall l | l in names
      ensures PartChanges(ListAt(LogDataOf(s.logs, l), f.pub, f.stem), n, t) == []
    {
      ReadsNothing(h, now, v, drop, op, n, t, f.pub, f.stem, l);
    }
    PendingNone(s.logs, names, n, t, f.pub, f.stem);
    PartIsSorted(key, created, h[..i], n, c.parts[n].data);
    ListDiffers(key, created, h, op, i, n, c.parts[n].data, s.parts[n].data);
    forall d | Replayed(key, HasBase(c), s.logs, names, n, t, c.parts[n].data, d)
      ensures d != s.parts[n].data
    {
      ListStays(key, HasBase(c), s.logs, names, n, t, c.parts[n].data, d, f.pub, f.stem);
    }
  }

  lemma GapLoses(key: VersionKey, digest: Digest, created: int, h: seq<Op>, now: int, v: View, drop: set<LogName>,
                 i: int, n: PartName, stem: string, c: Dir)
    requires Gap(key, created, h, now, v, drop, i, n) && Fresh(v, h[i], stem) && ClientIs(key, created, h[..i], c)
             && n in c.parts
    ensures LosesWith(key, digest, c, Nextly(key, h, now, v, drop, i, stem))
  {
    var op, w := Next(h, now, v, i, stem), Nextly(key, h, now, v, drop, i, stem);
    var names := GapTold(key, digest, created, h, now, v, drop, i, n, stem, c);
    var a, b := c.attrs.value, Published(digest, w).attrs.value;
    GapAttrs(key, digest, created, h, now, v, drop, i, n, stem, c);
    NextAccepted(key, created, h, now, v, drop, i, n, stem);
    GapChanged(created, h, op, i, a, b, n);
    NextLogTimes(key, v, drop, op);
    InItsLog(op, n);
    NowAfterAll(created, h);
    NewLogNeeded(created, h, op, i, a, b, n, names);
    NextState(key, created, h, now, v, drop, i, n, stem);
    GapNeverReplayed(key, created, h, now, v, drop, i, n, stem, c, Published(digest, w), names);
  }

  lemma GapChanged(created: int, h: seq<Op>, op: Op, i: int, a: Attrs, b: Attrs, n: PartName)
    requires BothAttrs(created, h, op, i, a, b) && i < |h| && n in h[i].parts && n in a.parts
    ensures n in ChangedParts(a, b) && n in b.parts
  {
    assert (h + [op])[i] == h[i];
    PartTimeGrows(created, h[..i], h + [op], a, b, n);
  }

  // ----- The exact condition

  /** Every client at every point, with what the catalog has saved after any further operations, either
      reads no logs or can get the server's parts from them. */
  ghost predicate EverSafe(key: VersionKey, digest: Digest, created: int, h: seq<Op>, now: int, v: View) {
    forall ops, a, c :: Follow(key, now, v, ops) && 0 <= a <= |h| && ClientIs(key, created, h[..a], c) ==>
      !LosesWith(key, digest, c, After(key, v, ops))
  }

  /** If logs may go, no client, however far behind, and no future operations can ever make a sync lose
      something; when they go oldest first, only then. */
  lemma DropIsSafeExactly(key: VersionKey, digest: Digest, created: int, h: seq<Op>, now: int, v: View,
                          drop: set<LogName>)
    requires ServerIs(key, created, h, now, v)
    ensures MayDrop(h, now, v, drop) ==> EverSafe(key, digest, created, h, now, Expire(v, drop))
    ensures OldestFirst(v, drop) && EverSafe(key, digest, created, h, now, Expire(v, drop)) ==> MayDrop(h, now, v, drop)
  {
    if MayDrop(h, now, v, drop) {
      ExpireKeeps(key, created, h, now, v, drop);
      forall ops, a, c | Follow(key, now, Expire(v, drop), ops) && 0 <= a <= |h| && ClientIs(key, created, h[..a], c)
        ensures !LosesWith(key, digest, c, After(key, Expire(v, drop), ops))
      {
        NothingIsLost(key, digest, created, h, now, Expire(v, drop), ops, a, c);
      }
    } else if OldestFirst(v, drop) {
      var ops, a, c := DropLoses(key, digest, created, h, now, v, drop);
    }
  }

  /** Otherwise one more operation is enough for some client. */
  lemma DropLoses(key: VersionKey, digest: Digest, created: int, h: seq<Op>, now: int, v: View, drop: set<LogName>)
    returns (ops: seq<Op>, a: int, c: Dir)
    requires ServerIs(key, created, h, now, v) && OldestFirst(v, drop) && !MayDrop(h, now, v, drop)
    ensures Follow(key, now, Expire(v, drop), ops) && 0 <= a <= |h| && ClientIs(key, created, h[..a], c)
    ensures LosesWith(key, digest, c, After(key, Expire(v, drop), ops))
  {
    var i, n := FindGap(key, created, h, now, v, drop);
    var stem := FreshStem(v.parts, h[i].fmri.stem);
    a := i;
    c := PastClient(key, created, h, now, v, i);
    NextAccepted(key, created, h, now, v, drop, i, n, stem);
    GapLoses(key, digest, created, h, now, v, drop, i, n, stem, c);
    ops := [Next(h, now, v, i, stem)];
    OneFollows(key, now, Expire(v, drop), Next(h, now, v, i, stem));
  }

  lemma OneFollows(key: VersionKey, now: int, v: View, op: Op)
    requires Accepts(v, op) && op.time > now
    ensures Follow(key, now, v, [op]) && After(key, v, [op]) == Commit(key, v, op)
  {
    assert [op][..0] == [];
  }

  /** Logs of hours that are over may go.  In the hour that is not over a log may go if no part of its
      locale was touched twice in that hour, as when it holds one operation. */
  lemma TouchedOnceMayGo(key: VersionKey, created: int, h: seq<Op>, now: int, v: View, drop: set<LogName>)
    requires ServerIs(key, created, h, now, v) && OldestFirst(v, drop)
    requires forall i, j, n :: 0 <= i < j < |h| && n in h[i].parts && n in h[j].parts
                               && Hour(h[i].time) == Hour(h[j].time) == Hour(now + 1) ==>
                                 LogName(Hour(h[j].time), LocaleOf(n)) !in drop
    ensures MayDrop(h, now, v, drop)
  {
    NowAfterAll(created, h);
    if !NothingLost(h, now, v.logs - drop) {
      var a, i, n := SomeLost(h, now, v.logs - drop);
      var t := LostInOpenHour(h, now, v, drop, a, i, n);
      var j := TouchedBefore(h, a, n, t);
    }
  }

  /** So all of them may go, oldest first, once the hours of all operations are over. */
  lemma QuietHoursMayGo(key: VersionKey, created: int, h: seq<Op>, now: int, v: View, drop: set<LogName>)
    requires ServerIs(key, created, h, now, v) && OldestFirst(v, drop)
    requires forall i :: 0 <= i < |h| ==> Hour(h[i].time) < Hour(now + 1)
    ensures MayDrop(h, now, v, drop)
  {
    TouchedOnceMayGo(key, created, h, now, v, drop);
  }

  lemma TouchedBefore(h: seq<Op>, a: int, n: PartName, t: int) returns (j: int)
    requires 0 <= a <= |h| && LastTouch(h[..a], n, t)
    ensures 0 <= j < a && n in h[j].parts && h[j].time == t
  {
    j :| 0 <= j < a && n in h[..a][j].parts && h[..a][j].time == t;
  }

  /** Two operations on the same parts, the last ones and of the hour that is not over, are enough for their
      logs to have to stay. */
  lemma TouchedTwiceMustStay(created: int, h: seq<Op>, now: int, v: View, drop: set<LogName>, n: PartName)
    requires GoodHistory(created, h) && now >= LastTime(created, h) && |h| >= 2 && n in h[|h| - 1].parts
    requires h[|h| - 2].parts.Keys == h[|h| - 1].parts.Keys
    requires Hour(h[|h| - 2].time) == Hour(now + 1) && LogName(Hour(now + 1), LocaleOf(n)) in drop
    ensures !MayDrop(h, now, v, drop)
  {
    var a, kept := |h| - 1, v.logs - drop;
    MayReadLast(created, h, now, kept.Keys);
    assert h[..a][a - 1] == h[a - 1];
    assert n in h[..a][a - 1].parts;
    NowAfterAll(created, h);
    HourMonotone(h[a - 1].time, h[a].time);
    HourMonotone(h[a].time, now + 1);
    LostHere(h, now, kept, a, a, n);
  }

  lemma LostHere(h: seq<Op>, now: int, kept: LogFiles, a: int, i: int, n: PartName)
    requires 0 <= a <= i < |h| && n in h[i].parts && Touched(h[..a], n) && MayRead(h, now, kept.Keys, a)
             && !Held(h[i], n, kept)
    ensures !NothingLost(h, now, kept)
  {
  }

  lemma MayReadLast(created: int, h: seq<Op>, now: int, kept: set<LogName>)
    requires GoodHistory(created, h) && |h| >= 2 && h[|h| - 2].parts.Keys == h[|h| - 1].parts.Keys
    requires Hour(h[|h| - 2].time) == Hour(now + 1)
    ensures MayRead(h, now, kept, |h| - 1)
  {
    var a := |h| - 1;
    var g := h[..a];
    assert g[a - 1] == h[a - 1] && h[a..] == [h[a]];
    forall m | Touched(h[a..], m)
      ensures Touched(g, m) && BoundaryOffered(h, now, kept, a, m)
    {
      assert m in g[a - 1].parts;
      forall t | LastTouch(g, m, t)
        ensures t == h[a - 1].time
      {
        var j := TouchedBefore(h, a, m, t);
      }
    }
  }
}
