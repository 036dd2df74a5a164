/** Every run of a server catalog and a client of it: operations, expiry of old update logs, saves
    on the server's side, a first fetch and any number of syncs on the client's. */
module Runs {
  import opened CatalogParts
  import opened CatalogSteps
  import opened CatalogUpdates
  import opened History
  import opened NestedLists
  import opened Protocol
  import opened Replication
  import opened Synchronization
  import opened VersionLists
  import opened Wrappers

  /** What is fixed during a run: the order of versions, the digest, the time of creation. */
  datatype Setting = Setting(key: VersionKey, digest: Digest, created: int)

  /** clock: the time, which all operations to come are after; history: the accepted operations so far;
      savedAt and clientAt: how many of them the saved directory and the client's have seen. */
  datatype System = System(clock: int, history: seq<Op>, server: View, saved: Dir, savedAt: nat, client: Option<Dir>,
                           clientAt: nat)

  function Empty(created: int): View {
    View(created, created, 0, 0, map[], map[], map[], map[])
  }

  ghost predicate Init(k: Setting, s: System) {
    && s.history == [] && s.server == Empty(k.created) && s.clock >= k.created
    && s.saved == Published(k.digest, s.server) && s.savedAt == 0
    && s.client.None?
  }

  ghost predicate Operate(k: Setting, s: System, s': System, op: Op) {
    && Accepts(s.server, op) && op.time > s.clock && (forall n :: n in op.parts ==> WellFormed(n))
    && s' == s.(clock := op.time, history := s.history + [op], server := Commit(k.key, s.server, op))
  }

  ghost predicate Tick(s: System, s': System) {
    s'.clock >= s.clock && s' == s.(clock := s'.clock)
  }

  /** Logs are dropped that no client will miss: oldest first and of hours that are over, for one. */
  ghost predicate ExpireLogs(s: System, s': System, drop: set<LogName>) {
    MayDrop(s.history, s.clock, s.server, drop) && s' == s.(server := Expire(s.server, drop))
  }

  ghost predicate Save(k: Setting, s: System, s': System) {
    && s.server.partTimes.Keys <= s.server.parts.Keys
    && s' == s.(saved := Published(k.digest, s.server), savedAt := |s.history|)
  }

  /** A client that starts anew takes the attributes and the parts it wants, the base part always. */
  ghost predicate Fetch(s: System, s': System, names: set<PartName>) {
    && (Base in s.saved.parts ==> Base in names)
    && s' == s.(client := Some(Dir(s.saved.attrs, OnlyIn(s.saved.parts, names), map[])), clientAt := s.savedAt)
  }

  ghost predicate SyncClient(k: Setting, s: System, s': System, c: Dir, r: Result<(), CatalogError>) {
    && s.client.Some? && s.client.value.attrs.Some?
    && Sync(k.key, k.digest, s.client.value, s.saved, c, r)
    && s' == s.(client := Some(c), clientAt := if r.Ok? then s.savedAt else s.clientAt)
  }

  ghost predicate Next(k: Setting, s: System, s': System) {
    || (exists op :: Operate(k, s, s', op))
    || Tick(s, s')
    || (exists drop :: ExpireLogs(s, s', drop))
    || Save(k, s, s')
    || (exists names :: Fetch(s, s', names))
    || (exists c, r :: SyncClient(k, s, s', c, r))
  }

  ghost predicate IsRun(k: Setting, run: seq<System>) {
    && run != [] && Init(k, run[0])
    && forall i :: 0 <= i < |run| - 1 ==> Next(k, run[i], run[i + 1])
  }

  // ----- The invariant

  ghost predicate PlainNames<T>(m: map<PartName, T>) {
    forall n :: n in m ==> WellFormed(n)
  }

  /** A part is as old as the attributes say. */
  ghost predicate Timed(v: View) {
    forall n :: n in v.parts && n in v.partTimes ==> v.parts[n].lastModified == v.partTimes[n]
  }

  ghost predicate SavedGood(k: Setting, s: System) {
    && s.savedAt <= |s.history|
    && SavedIs(k.key, k.digest, k.created, s.history[..s.savedAt], s.saved)
    && PlainNames(s.saved.attrs.value.parts) && Timed(AsView(s.saved))
  }

  ghost predicate ClientGood(k: Setting, s: System) {
    s.client.Some? ==>
      && s.clientAt <= s.savedAt <= |s.history|
      && ClientIs(k.key, k.created, s.history[..s.clientAt], s.client.value)
      && PlainNames(s.client.value.attrs.value.parts) && s.client.value.logs == map[]
  }

  ghost predicate Inv(k: Setting, s: System) {
    && ServerIs(k.key, k.created, s.history, s.clock, s.server) && PlainNames(s.server.partTimes) && Timed(s.server)
    && SavedGood(k, s) && ClientGood(k, s)
  }

  lemma EmptyServer(k: Setting, now: int)
    requires now >= k.created
    ensures ServerIs(k.key, k.created, [], now, Empty(k.created))
  {
    assert Packages(map[]) == {} && Fmris(map[]) == {};
    assert Touched([], Base) == false;
    var v := Empty(k.created);
    assert TimesAre(k.created, [], v.lastModified, v.partTimes);
    assert LogsAre([], now, v.logs, v.logTimes);
  }

  lemma SavedNow(k: Setting, s: System, s': System)
    requires Inv(k, s) && Save(k, s, s')
    ensures Inv(k, s')
  {
    PublishedIs(k.key, k.digest, k.created, s.history, s.clock, s.server);
    assert s.history[..|s.history|] == s.history;
    PublishedView(k.digest, s.server);
    assert s'.saved.attrs.value.parts.Keys == s.server.partTimes.Keys;
  }

  lemma InitHolds(k: Setting, s: System)
    requires Init(k, s)
    ensures Inv(k, s)
  {
    EmptyServer(k, s.clock);
    PublishedIs(k.key, k.digest, k.created, [], s.clock, s.server);
    assert s.history[..0] == [];
    assert s.saved.attrs.value.parts.Keys == {};
  }

  lemma OperateKeeps(k: Setting, s: System, s': System, op: Op)
    requires Inv(k, s) && Operate(k, s, s', op)
    ensures Inv(k, s')
  {
    CommitKeeps(k.key, k.created, s.history, s.clock, s.server, op);
    assert s'.history[..s.savedAt] == s.history[..s.savedAt];
    if s.client.Some? {
      assert s'.history[..s.clientAt] == s.history[..s.clientAt];
    }
  }

  lemma FetchedClient(k: Setting, h: seq<Op>, saved: Dir, names: set<PartName>)
    requires SavedIs(k.key, k.digest, k.created, h, saved)
    requires Base in saved.parts ==> Base in names
    ensures ClientIs(k.key, k.created, h, Dir(saved.attrs, OnlyIn(saved.parts, names), map[]))
  {
    SyncedClient(k.key, k.digest, k.created, h, saved, Dir(saved.attrs, OnlyIn(saved.parts, names), map[]));
  }

  lemma FetchKeeps(k: Setting, s: System, s': System, names: set<PartName>)
    requires Inv(k, s) && Fetch(s, s', names)
    ensures Inv(k, s')
  {
    FetchedClient(k, s.history[..s.savedAt], s.saved, names);
    assert s'.client.value.attrs == s.saved.attrs;
  }

  /** The client and the saved server catalog are as of two points of one history. */
  lemma ClientPair(k: Setting, s: System)
    requires SavedGood(k, s) && ClientGood(k, s) && s.client.Some?
    requires GoodHistory(k.created, s.history)
    ensures Pair(k.key, k.digest, k.created, s.history[..s.clientAt], s.history[..s.savedAt], s.client.value, s.saved)
  {
    assert s.history[..s.savedAt][..s.clientAt] == s.history[..s.clientAt];
  }

  lemma SyncKeeps(k: Setting, s: System, s': System, c: Dir, r: Result<(), CatalogError>)
    requires Inv(k, s) && SyncClient(k, s, s', c, r)
    ensures r.Ok? && Inv(k, s') && s'.clientAt == s.savedAt
    ensures CaughtUp(k.key, k.created, s.history[..s.savedAt], s.client.value, s.saved, c)
  {
    ClientPair(k, s);
    SyncCatchesUp(k.key, k.digest, k.created, s.history[..s.clientAt], s.history[..s.savedAt], s.client.value,
                  s.saved, c, r);
  }

  /** What is saved, and what a client holds, are directories a catalog can be opened on. */
  lemma DirectoriesAreClean(k: Setting, s: System)
    requires Inv(k, s)
    ensures CleanDir(s.saved)
    ensures s.client.Some? ==> CleanDir(s.client.value)
  {
    SavedKeys(k.key, k.digest, k.created, s.history[..s.savedAt], s.saved);
    forall n | n in s.saved.parts
      ensures NoEmpty(s.saved.parts[n].data)
    {
      SavedPart(k.key, k.digest, k.created, s.history[..s.savedAt], s.saved, n);
    }
  }

  lemma NextKeeps(k: Setting, s: System, s': System)
    requires Inv(k, s) && Next(k, s, s')
    ensures Inv(k, s') && s.history <= s'.history
  {
    if op :| Operate(k, s, s', op) {
      OperateKeeps(k, s, s', op);
    } else if Tick(s, s') {
      TimePasses(k.key, k.created, s.history, s.clock, s'.clock, s.server);
    } else if drop :| ExpireLogs(s, s', drop) {
      ExpireKeeps(k.key, k.created, s.history, s.clock, s.server, drop);
    } else if Save(k, s, s') {
      SavedNow(k, s, s');
    } else if names :| Fetch(s, s', names) {
      FetchKeeps(k, s, s', names);
    } else {
      var c, r :| SyncClient(k, s, s', c, r);
      SyncKeeps(k, s, s', c, r);
    }
  }

  lemma {:induction false} RunKeeps(k: Setting, run: seq<System>, i: nat)
    requires IsRun(k, run) && i < |run|
    ensures Inv(k, run[i]) && forall j :: 0 <= j <= i ==> run[j].history <= run[i].history
  {
    if i == 0 {
      InitHolds(k, run[0]);
    } else {
      RunKeeps(k, run, i - 1);
      assert Next(k, run[i - 1], run[i - 1 + 1]);
      NextKeeps(k, run[i - 1], run[i]);
    }
  }

  /** In every state of every run, every package of any part is in the base part, every list is in
      order without duplicates, nothing is left empty, and the recorded counts are the real ones. */
  lemma ServerIsConsistent(k: Setting, run: seq<System>, i: nat)
    requires IsRun(k, run) && i < |run|
    ensures var v := run[i].server;
            && BaseCovers(v.parts)
            && (forall n :: n in v.parts ==>
                  NoEmpty(v.parts[n].data) && AllSorted(k.key, v.parts[n].data) && AllDistinct(v.parts[n].data))
            && v.packageCount == |Packages(DataOf(v.parts, Base))| && v.versionCount == |Fmris(DataOf(v.parts, Base))|
  {
    RunKeeps(k, run, i);
    var v := run[i].server;
    forall n | n in v.parts
      ensures NoEmpty(v.parts[n].data) && AllSorted(k.key, v.parts[n].data) && AllDistinct(v.parts[n].data)
    {
      PartIsSorted(k.key, k.created, run[i].history, n, v.parts[n].data);
    }
  }

  // ----- The theorems

  /** Whenever the server's time equals the client's, or did so at some earlier point of the run, the
      client's parts are the server's parts of that point: a client always holds parts exactly as
      of its recorded time. */
  lemma ClientHoldsServerState(k: Setting, run: seq<System>, i: nat, j: nat, n: PartName)
    requires IsRun(k, run) && j <= i < |run|
    requires run[i].client.Some? && n in run[i].client.value.parts
    requires run[i].client.value.attrs.Some? ==>
               run[j].server.lastModified == run[i].client.value.attrs.value.lastModified
    ensures run[i].client.value.attrs.Some?
    ensures n in run[j].server.parts && run[i].client.value.parts[n].data == run[j].server.parts[n].data
  {
    RunKeeps(k, run, i);
    RunKeeps(k, run, j);
    var s, h := run[i], run[j].history;
    var g := s.history[..s.clientAt];
    SamePoint(k, s.history, g, h);
    PartHeld(k, g, run[j].clock, s.client.value, run[j].server, n);
  }

  /** Two points of one history at the same time are the same point. */
  lemma SamePoint(k: Setting, all: seq<Op>, g: seq<Op>, h: seq<Op>)
    requires GoodHistory(k.created, all) && g <= all && h <= all
    requires LastTime(k.created, g) == LastTime(k.created, h)
    ensures g == h
  {
    assert |g| == |h|;
  }

  lemma PartHeld(k: Setting, g: seq<Op>, now: int, c: Dir, v: View, n: PartName)
    requires ClientIs(k.key, k.created, g, c) && ServerIs(k.key, k.created, g, now, v) && n in c.parts
    ensures n in v.parts && c.parts[n].data == v.parts[n].data
  {
    assert n in PartTimes(c.attrs.value);
    PartUnique(k.key, k.created, g, n, c.parts[n].data, v.parts[n].data);
  }

  /** The point that a client is at was once the server's present. */
  lemma {:induction false} SavedPointOccurred(k: Setting, run: seq<System>, i: nat)
    requires IsRun(k, run) && i < |run|
    ensures exists j :: 0 <= j <= i && run[i].savedAt == |run[j].history|
    ensures run[i].client.Some? ==> exists j :: 0 <= j <= i && run[i].clientAt == |run[j].history|
  {
    if i == 0 {
      assert run[0].savedAt == |run[0].history|;
    } else {
      var s, s' := run[i - 1], run[i];
      SavedPointOccurred(k, run, i - 1);
      assert Next(k, run[i - 1], run[i - 1 + 1]);
      var j :| 0 <= j <= i - 1 && s.savedAt == |run[j].history|;
      PointMoves(k, s, s');
      if s'.savedAt != s.savedAt {
        assert s'.savedAt == |run[i].history|;
      } else {
        assert s'.savedAt == |run[j].history|;
      }
      if s'.client.Some? && s'.clientAt != s.savedAt {
        assert s.client.Some? && s'.clientAt == s.clientAt;
      } else if s'.client.Some? {
        assert s'.clientAt == |run[j].history|;
      }
    }
  }

  /** Saving moves the saved point to the present, fetching and syncing the client's to the saved one. */
  lemma PointMoves(k: Setting, s: System, s': System)
    requires Next(k, s, s')
    ensures s'.savedAt == s.savedAt || s'.savedAt == |s.history| == |s'.history|
    ensures s'.client.Some? ==> s'.clientAt == s.savedAt || (s.client.Some? && s'.clientAt == s.clientAt)
  {
  }

  /** So, in every state of every run, each part that the client holds is the server's part as of the
      client's recorded time. */
  lemma ClientIsAPastServer(k: Setting, run: seq<System>, i: nat)
    requires IsRun(k, run) && i < |run| && run[i].client.Some?
    ensures run[i].client.value.attrs.Some?
    ensures exists j :: 0 <= j <= i && run[j].server.lastModified == run[i].client.value.attrs.value.lastModified
                        && forall n :: n in run[i].client.value.parts ==>
                             n in run[j].server.parts
                             && run[i].client.value.parts[n].data == run[j].server.parts[n].data
  {
    SavedPointOccurred(k, run, i);
    var j :| 0 <= j <= i && run[i].clientAt == |run[j].history|;
    PointTime(k, run, i, j);
    var c := run[i].client.value;
    forall n | n in c.parts
      ensures n in run[j].server.parts && c.parts[n].data == run[j].server.parts[n].data
    {
      ClientHoldsServerState(k, run, i, j, n);
    }
  }

  lemma PointTime(k: Setting, run: seq<System>, i: nat, j: nat)
    requires IsRun(k, run) && j <= i < |run| && run[i].client.Some? && run[i].clientAt == |run[j].history|
    ensures run[i].client.value.attrs.Some?
    ensures run[j].server.lastModified == run[i].client.value.attrs.value.lastModified
  {
    RunKeeps(k, run, i);
    RunKeeps(k, run, j);
    assert run[i].history[..run[i].clientAt] == run[j].history;
  }

  /** In every state of every run, a sync with what the server has saved succeeds, keeps the client's parts,
      adds the new ones of the locale "C", and leaves all of them as they were saved; saved just now,
      that is the server's present. */
  lemma SyncReachesPresent(k: Setting, run: seq<System>, i: nat, c: Dir, r: Result<(), CatalogError>)
    requires IsRun(k, run) && i < |run|
    requires run[i].client.Some? && run[i].client.value.attrs.Some?
    requires Sync(k.key, k.digest, run[i].client.value, run[i].saved, c, r)
    ensures r.Ok? && run[i].savedAt <= |run[i].history|
    ensures CaughtUp(k.key, k.created, run[i].history[..run[i].savedAt], run[i].client.value, run[i].saved, c)
    ensures run[i].savedAt == |run[i].history| ==>
              c.attrs.Some? && c.attrs.value.lastModified == run[i].server.lastModified
              && forall n :: n in c.parts ==> n in run[i].server.parts && c.parts[n].data == run[i].server.parts[n].data
  {
    RunKeeps(k, run, i);
    var s := run[i];
    var s' := s.(client := Some(c), clientAt := if r.Ok? then s.savedAt else s.clientAt);
    SyncKeeps(k, s, s', c, r);
    if s.savedAt == |s.history| {
      assert s.history[..s.savedAt] == s.history;
      forall n | n in c.parts
        ensures n in s.server.parts && c.parts[n].data == s.server.parts[n].data
      {
        PartHeld(k, s.history, s.clock, c, s.server, n);
      }
    }
  }
}
