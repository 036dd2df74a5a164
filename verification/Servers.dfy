/** The catalog object in the roles of the replication protocol: each operation on a server's
    catalog, and each sync of a client's, is one step of a run. */
module Servers {
  import opened Actions
  import opened CatalogParts
  import opened CatalogSteps
  import opened Catalogs
  import opened History
  import opened NestedLists
  import opened Outcomes
  import opened Protocol
  import opened Replication
  import opened Runs
  import opened Synchronization
  import opened VersionLists
  import opened Wrappers

  /** The object is a settled server catalog in the state v. */
  ghost predicate Shows(k: Setting, v: View, server: Catalog)
    reads server
  {
    && server.Valid() && server.Settled() && server.logUpdates && !server.batchMode
    && server.key == k.key && server.digest == k.digest
    && server.Abs() == v
  }

  /** The object is the server catalog of the system. */
  ghost predicate Serves(k: Setting, s: System, server: Catalog)
    reads server
  {
    Inv(k, s) && Shows(k, s.server, server)
  }

  lemma SavedSettled(k: Setting, h: seq<Op>, s: Dir)
    requires SavedIs(k.key, k.digest, k.created, h, s) && Timed(AsView(s))
    ensures SettledIn(k.digest, s.attrs.value, {}, s.parts)
  {
    SavedKeys(k.key, k.digest, k.created, h, s);
  }

  /** A server catalog that is opened again is what was saved. */
  method Reopen(k: Setting, ghost s: System, saved: Dir, now: int) returns (server: Catalog)
    requires Inv(k, s) && saved == s.saved && saved.attrs.Some? && s.server == AsView(saved)
    ensures fresh(server) && Serves(k, s, server)
  {
    DirectoriesAreClean(k, s);
    SavedSettled(k, s.history[..s.savedAt], saved);
    server := Open(k, saved, now);
  }

  method Open(k: Setting, saved: Dir, now: int) returns (server: Catalog)
    requires CleanDir(saved) && saved.attrs.Some? && SettledIn(k.digest, saved.attrs.value, {}, saved.parts)
    ensures fresh(server) && Shows(k, AsView(saved), server)
  {
    server := new Catalog(k.key, k.digest, saved, false, true, now);
    assert server.Current() == saved.parts && server.CurrentLogs() == saved.logs;
  }

  method Add(k: Setting, ghost v: View, server: Catalog, f: Fmri, m: Option<Manifest>, metadata: map<string, string>,
             time: int)
    returns (r: Result<(), CatalogError>)
    requires Shows(k, v, server)
    requires (forall n :: n in Targets(f, m, metadata) ==> CanAdd(v.parts, f, n)) <==>
             !Contains(DataOf(v.parts, Base), f)
    modifies server
    ensures r.Err? <==> Contains(DataOf(v.parts, Base), f)
    ensures r.Err? ==> Shows(k, v, server)
    ensures r.Ok? ==> Shows(k, Commit(k.key, v, Op(time, Kind.Add, f, Targets(f, m, metadata))), server)
  {
    ghost var was, loaded := server.attrs, server.parts.Keys;
    ghost var op;
    r, op := server.AddPackage(f, m, metadata, time);
    if r.Err? {
      Refused(server.key, v.parts, op, was);
      assert server.Current() == v.parts && server.attrs == was;
      StillSettled(k.digest, was, loaded, server.parts.Keys, v.parts);
    } else {
      assert op == Op(time, Kind.Add, f, Targets(f, m, metadata));
    }
  }

  lemma Refused(key: VersionKey, ps: PartFiles, op: Op, a: Attrs)
    requires op.parts == map[]
    ensures Touch(key, true, ps, op) == ps
    ensures KnownAll(a, op.parts.Keys, op.time) == a
  {
    TouchNone(key, true, ps, op);
    KnownNone(a, op.time);
  }

  /** An add is a step of the run, or is refused because the package is there, and changes nothing. */
  method Publish(k: Setting, ghost s: System, server: Catalog, f: Fmri, m: Option<Manifest>,
                 metadata: map<string, string>, time: int)
    returns (r: Result<(), CatalogError>, ghost s': System)
    requires Serves(k, s, server) && time > s.clock && PlainLocales(m)
    modifies server
    ensures Serves(k, s', server)
    ensures r.Err? <==> Contains(DataOf(s.server.parts, Base), f)
    ensures r.Err? ==> s' == s
    ensures r.Ok? ==> Operate(k, s, s', Op(time, Kind.Add, f, Targets(f, m, metadata)))
  {
    AddRefusedExactly(s.server.parts, f, m, metadata);
    r := Add(k, s.server, server, f, m, metadata, time);
    if r.Err? {
      s' := s;
    } else {
      AddAccepted(s.server, f, m, metadata, time);
      s' := Operated(k, s, Op(time, Kind.Add, f, Targets(f, m, metadata)));
    }
  }

  /** The state after an accepted operation. */
  ghost function Operated(k: Setting, s: System, op: Op): (s': System)
    requires Inv(k, s) && Accepts(s.server, op) && op.time > s.clock && PlainNames(op.parts)
    ensures Operate(k, s, s', op) && Inv(k, s')
  {
    var s' := s.(clock := op.time, history := s.history + [op], server := Commit(k.key, s.server, op));
    OperateKeeps(k, s, s', op);
    s'
  }

  method Remove(k: Setting, ghost v: View, server: Catalog, f: Fmri, time: int)
    returns (r: Result<(), CatalogError>, ghost op: Op)
    requires Shows(k, v, server) && BaseCovers(v.parts) && time > v.lastModified
    modifies server
    ensures op == Op(time, Kind.Remove, f, op.parts)
    ensures r.Err? <==> Base in v.parts && !Contains(DataOf(v.parts, Base), f)
    ensures r.Ok? ==> Accepts(v, op)
    ensures r.Err? ==> Shows(k, v, server)
    ensures r.Ok? ==> Shows(k, Commit(k.key, v, op), server)
  {
    ghost var was, wasAttrs, loaded := server.attrs.parts.Keys, server.attrs, server.parts.Keys;
    assert was == v.parts.Keys;
    r, op := server.RemovePackage(f, time);
    if r.Err? {
      ghost var names :| names <= was && RemovedFrom(k.key, true, op, names, v.parts, server.Current());
      NothingTaken(k.key, op, names, v.parts, server.Current());
      assert server.Current() == v.parts && server.attrs == wasAttrs;
      StillSettled(k.digest, wasAttrs, loaded, server.parts.Keys, v.parts);
    } else {
      RemoveAccepted(k.key, true, v, op, was, server.Current());
    }
  }

  /** A removal is a step of the run, or is refused because the package is not there, and changes
      nothing; a catalog that never had a package refuses no removal. */
  method Withdraw(k: Setting, ghost s: System, server: Catalog, f: Fmri, time: int)
    returns (r: Result<(), CatalogError>, ghost s': System)
    requires Serves(k, s, server) && time > s.clock
    modifies server
    ensures Serves(k, s', server)
    ensures r.Err? <==> s.server.parts != map[] && !Contains(DataOf(s.server.parts, Base), f)
    ensures r.Err? ==> s' == s
    ensures r.Ok? ==> exists op: Op ::
              op.kind == Kind.Remove && op.fmri == f && op.time == time && Operate(k, s, s', op)
  {
    BaseFirst(k, s);
    ghost var op;
    r, op := Remove(k, s.server, server, f, time);
    if r.Err? {
      s' := s;
    } else {
      assert PlainNames(op.parts);
      s' := Operated(k, s, op);
    }
  }

  lemma NothingTaken(key: VersionKey, op: Op, names: set<PartName>, was: PartFiles, ps: PartFiles)
    requires names <= was.Keys && RemovedFrom(key, true, op, names, was, ps)
    requires BaseCovers(was) && !Contains(DataOf(was, Base), op.fmri)
    ensures ps == was
  {
    RemoveRefusedUntouched(key, true, op, names, was, ps);
    assert Widened(was, names, op.time) == was;
    TouchNone(key, true, was, op);
  }

  /** A server that has any part has the base part. */
  lemma BaseFirst(k: Setting, s: System)
    requires Inv(k, s)
    ensures s.server.parts != map[] <==> Base in s.server.parts
  {
    if n :| n in s.server.parts {
      BaseTouched(k.created, s.history, n);
    }
  }

  lemma BaseTouched(created: int, h: seq<Op>, n: PartName)
    requires GoodHistory(created, h) && Touched(h, n)
    ensures Touched(h, Base)
  {
    var i :| 0 <= i < |h| && n in h[i].parts;
    assert Base in h[i].parts;
  }

  /** Saving is the saving step. */
  method Store(k: Setting, ghost s: System, server: Catalog) returns (ghost s': System)
    requires Serves(k, s, server)
    modifies server
    ensures Serves(k, s', server) && Save(k, s, s') && server.disk == s'.saved
  {
    server.Save();
    s' := s.(saved := Published(k.digest, s.server), savedAt := |s.history|);
    SavedNow(k, s, s');
  }

  /** A sync of a freshly opened client with what the server saved: it succeeds, and every part the
      client then holds is the part the server saved. */
  method Update(k: Setting, ghost s: System, held: Dir, saved: Dir, now: int)
    returns (client: Catalog, r: Result<(), CatalogError>, ghost s': System)
    requires Inv(k, s) && s.client == Some(held) && saved == s.saved
    ensures r.Ok? && Inv(k, s') && s'.client == Some(client.disk) && SyncClient(k, s, s', client.disk, r)
    ensures held.parts.Keys <= client.disk.parts.Keys
    ensures forall n :: n in client.disk.parts ==> n in saved.parts && client.disk.parts[n].data == saved.parts[n].data
  {
    DirectoriesAreClean(k, s);
    client := new Catalog(k.key, k.digest, held, false, false, now);
    r := client.ApplyUpdates(saved);
    s' := s.(client := Some(client.disk), clientAt := if r.Ok? then s.savedAt else s.clientAt);
    SyncKeeps(k, s, s', client.disk, r);
  }
}
