/** Making a repository a clone of another one: which publishers are synced, how each publisher's
    catalog is replaced with a backup kept, and what becomes of the backups. */
module Cloning {
  import opened CatalogParts
  import opened NestedLists
  import opened VersionLists
  import opened Wrappers

  /** A publisher's catalog in the source repository.  An empty one may have no directory at all. */
  type Source = Option<set<Fmri>>

  function Offers(src: Source): set<Fmri> {
    if src.Some? then src.value else {}
  }

  // ----- Which publishers

  datatype Abort = NotInSource(pub: string) | NotInTarget(pubs: set<string>)

  /** The publishers to sync, and those of them to create first: those named, all of them for "*", and those
      that the target has when none are named. */
  method SelectPublishers(sources: seq<string>, targets: set<string>, named: seq<string>)
    returns (r: Result<(seq<string>, set<string>), Abort>)
    requires forall i, j :: 0 <= i < j < |sources| ==> sources[i] != sources[j]
    ensures r.Err? <==> (exists p :: p in named && p != "*" && p !in sources)
                        || (named == [] && exists p :: p in sources && p !in targets)
    ensures r.Ok? ==>
              && (forall p :: p in r.value.0 <==>
                                p in sources && (p in named || "*" in named || (named == [] && p in targets)))
              && (forall i, j :: 0 <= i < j < |r.value.0| ==> r.value.0[i] != r.value.0[j])
              && (forall p :: p in r.value.1 <==> p in r.value.0 && p !in targets)
  {
    for i := 0 to |named|
      invariant forall j :: 0 <= j < i ==> named[j] in sources || named[j] == "*"
    {
      if named[i] !in sources && named[i] != "*" {
        return Err(NotInSource(named[i]));
      }
    }
    var sync: seq<string>, create: set<string>, unknown: set<string> := [], {}, {};
    for i := 0 to |sources|
      invariant forall p :: p in sync <==>
                              p in sources[..i] && (p in named || "*" in named || (named == [] && p in targets))
      invariant forall j, k :: 0 <= j < k < |sync| ==> sync[j] != sync[k]
      invariant forall p :: p in create <==> p in sync && p !in targets
      invariant forall p :: p in unknown <==> named == [] && p in sources[..i] && p !in targets
    {
      var p := sources[i];
      assert sources[..i + 1] == sources[..i] + [p];
      assert p !in sources[..i];
      if p !in targets && (p in named || "*" in named) {
        create := create + {p};
        sync := sync + [p];
      } else if p in targets && (p in named || "*" in named || named == []) {
        sync := sync + [p];
      } else if named == [] {
        unknown := unknown + {p};
      }
    }
    assert sources[..|sources|] == sources;
    if unknown != {} {
      return Err(NotInTarget(unknown));
    }
    r := Ok((sync, create));
  }

  // ----- What syncing comes to

  function ListedIn(catalogs: map<string, set<Fmri>>, pub: string): set<Fmri> {
    if pub in catalogs then catalogs[pub] else {}
  }

  /** The packages of one listing without an equal one in the other.  Versions that differ in the build
      release alone are equal here, so a catalog can list several equal packages. */
  function Missing(key: VersionKey, a: set<Fmri>, b: set<Fmri>): set<Fmri> {
    set f | f in a && !Member(key, f, b)
  }

  /** r has of equal packages of s one. */
  ghost predicate Represents(key: VersionKey, s: set<Fmri>, r: set<Fmri>) {
    r <= s && TieFree(key, r) && forall f :: f in s ==> Member(key, f, r)
  }

  /** The set that Python makes of a catalog's packages. */
  method AsSet(key: VersionKey, s: set<Fmri>) returns (r: set<Fmri>)
    ensures Represents(key, s, r)
  {
    r := {};
    var todo := s;
    while todo != {}
      invariant todo <= s && r <= s && TieFree(key, r)
      invariant forall f :: f in s - todo ==> Member(key, f, r)
      decreases todo
    {
      var f :| f in todo;
      todo := todo - {f};
      ghost var was := r;
      if !Member(key, f, r) {
        r := r + {f};
      }
      Represented(key, f, was, r);
    }
  }

  lemma Represented(key: VersionKey, f: Fmri, was: set<Fmri>, r: set<Fmri>)
    requires TieFree(key, was) && r == if Member(key, f, was) then was else was + {f}
    ensures TieFree(key, r) && Member(key, f, r)
    ensures forall g :: Member(key, g, was) ==> Member(key, g, r)
  {
    assert Tied(key, f, f);
    forall g | Member(key, g, was)
      ensures Member(key, g, r)
    {
      var h :| h in was && Tied(key, g, h);
      assert h in r;
    }
  }

  lemma MemberTied(key: VersionKey, f: Fmri, g: Fmri, s: set<Fmri>)
    requires Tied(key, f, g)
    ensures Member(key, f, s) <==> Member(key, g, s)
  {
    if Member(key, f, s) {
      var h :| h in s && Tied(key, f, h);
      assert Tied(key, g, h);
    }
    if Member(key, g, s) {
      var h :| h in s && Tied(key, g, h);
      assert Tied(key, f, h);
    }
  }

  lemma MemberRepresents(key: VersionKey, s: set<Fmri>, r: set<Fmri>, f: Fmri)
    requires Represents(key, s, r)
    ensures Member(key, f, s) <==> Member(key, f, r)
  {
    if Member(key, f, s) {
      var g :| g in s && Tied(key, f, g);
      MemberTied(key, f, g, r);
    }
  }

  /** The difference of two such sets. */
  method Difference(key: VersionKey, a: set<Fmri>, b: set<Fmri>) returns (d: set<Fmri>)
    ensures Represents(key, Missing(key, a, b), d)
    ensures d == {} <==> Missing(key, a, b) == {}
  {
    var ra := AsSet(key, a);
    var rb := AsSet(key, b);
    d := Missing(key, ra, rb);
    forall f
      ensures Member(key, f, b) <==> Member(key, f, rb)
    {
      MemberRepresents(key, b, rb, f);
    }
    forall f | f in Missing(key, a, b)
      ensures Member(key, f, d)
    {
      var g :| g in ra && Tied(key, f, g);
      MemberTied(key, f, g, rb);
    }
    if d != {} {
      var f :| f in d;
      assert f in Missing(key, a, b);
    }
  }

  /** What of a listing is kept when the packages that the source does not have are removed: of equal ones,
      only one is. */
  ghost predicate Kept(key: VersionKey, target: set<Fmri>, offered: set<Fmri>, kept: set<Fmri>) {
    kept <= target && Represents(key, Missing(key, target, offered), target - kept)
  }

  lemma KeptAfter(key: VersionKey, target: set<Fmri>, offered: set<Fmri>, removed: set<Fmri>)
    requires Represents(key, Missing(key, target, offered), removed)
    ensures Kept(key, target, offered, target - removed)
  {
    assert target - (target - removed) == removed;
  }

  ghost predicate SameUpToTies(key: VersionKey, a: set<Fmri>, b: set<Fmri>) {
    Missing(key, a, b) == {} && Missing(key, b, a) == {}
  }

  lemma MissingTieFree(key: VersionKey, a: set<Fmri>, b: set<Fmri>)
    requires TieFree(key, a + b)
    ensures Missing(key, a, b) == a - b
  {
    forall f | f in a
      ensures Member(key, f, b) <==> f in b
    {
      assert Tied(key, f, f);
      if Member(key, f, b) {
        var g :| g in b && Tied(key, f, g);
        assert f in a + b && g in a + b;
      }
    }
  }

  /** Without ties between the packages of the two listings, being the same up to ties is being the same,
      and what is kept is what both list. */
  lemma WithoutTies(key: VersionKey, target: set<Fmri>, offered: set<Fmri>, kept: set<Fmri>)
    requires TieFree(key, target + offered)
    ensures SameUpToTies(key, target, offered) <==> target == offered
    ensures Kept(key, target, offered, kept) <==> kept == target * offered
  {
    MissingTieFree(key, target, offered);
    assert target + offered == offered + target;
    MissingTieFree(key, offered, target);
    if target - offered == {} && offered - target == {} {
      assert forall f :: f in target ==> f !in target - offered;
      assert forall f :: f in offered ==> f !in offered - target;
      assert target == offered;
    }
    var gone := target - kept;
    if Kept(key, target, offered, kept) {
      assert gone == target - offered by {
        forall f | f in target - offered
          ensures f in gone
        {
          var g :| g in gone && Tied(key, f, g);
          assert f in target + offered && g in target + offered;
        }
      }
      assert kept == target - gone;
    }
    if kept == target * offered {
      assert gone == target - offered;
      forall f | f in gone
        ensures Member(key, f, gone)
      {
        assert Tied(key, f, f);
      }
      forall f, g | f in gone && g in gone && Tied(key, f, g)
        ensures f == g
      {
        assert f in target + offered && g in target + offered;
      }
    }
  }

  /** Packages of a publisher have to be removed. */
  predicate Shrinks(key: VersionKey, was: map<string, set<Fmri>>, sources: map<string, Source>, pub: string)
    requires pub in sources
  {
    Missing(key, ListedIn(was, pub), Offers(sources[pub])) != {}
  }

  predicate Grows(key: VersionKey, was: map<string, set<Fmri>>, sources: map<string, Source>, pub: string)
    requires pub in sources
  {
    Missing(key, Offers(sources[pub]), ListedIn(was, pub)) != {}
  }

  predicate Modified(key: VersionKey, was: map<string, set<Fmri>>, sources: map<string, Source>, pub: string)
    requires pub in sources
  {
    Shrinks(key, was, sources, pub) || Grows(key, was, sources, pub)
  }

  /** Packages have been removed from this publisher or from one synced before it. */
  ghost predicate Deleted(key: VersionKey, was: map<string, set<Fmri>>, sources: map<string, Source>,
                          order: seq<string>, i: int)
    requires forall p :: p in order ==> p in sources
  {
    exists j :: 0 <= j <= i && j < |order| && Shrinks(key, was, sources, order[j])
  }

  /** The publisher's catalog is replaced by the source's: also without need, after a deletion. */
  ghost predicate Copied(key: VersionKey, was: map<string, set<Fmri>>, sources: map<string, Source>,
                         order: seq<string>, i: int)
    requires 0 <= i < |order| && forall p :: p in order ==> p in sources
  {
    Grows(key, was, sources, order[i]) || Deleted(key, was, sources, order, i)
  }

  /** The synced publisher number i has the catalog it should have, and a backup if that was copied. */
  ghost predicate Synced(key: VersionKey, was: map<string, set<Fmri>>, sources: map<string, Source>,
                         order: seq<string>, i: int,
                         catalogs: map<string, set<Fmri>>, backups: map<string, set<Fmri>>)
    requires 0 <= i < |order| && forall p :: p in order ==> p in sources
  {
    var pub, copied := order[i], Copied(key, was, sources, order, i);
    && (pub in backups <==> copied)
    && (copied ==> Kept(key, ListedIn(was, pub), Offers(sources[pub]), backups[pub]))
    && (pub in catalogs <==> sources[pub].Some? || !copied)
    && (pub in catalogs ==> catalogs[pub] == if copied then Offers(sources[pub]) else ListedIn(was, pub))
  }

  /** What syncing one publisher does, given whether packages have been removed by then. */
  ghost predicate SyncStep(key: VersionKey, src: Source, pub: string, deleted: bool, kept: set<Fmri>,
                           c: map<string, set<Fmri>>, b: map<string, set<Fmri>>,
                           c': map<string, set<Fmri>>, b': map<string, set<Fmri>>)
    requires pub in c
  {
    var copied := Missing(key, Offers(src), c[pub]) != {} || deleted;
    && Kept(key, c[pub], Offers(src), kept)
    && b' == (if copied then b[pub := kept] else b)
    && c' == (if !copied then c else if src.None? then c - {pub} else c[pub := src.value])
  }

  ghost predicate Untouched(was: map<string, set<Fmri>>, p: string, catalogs: map<string, set<Fmri>>,
                            backups: map<string, set<Fmri>>)
  {
    p !in backups && (p in catalogs <==> p in was) && (p in was ==> catalogs[p] == was[p])
  }

  lemma SyncedNext(key: VersionKey, was: map<string, set<Fmri>>, sources: map<string, Source>, order: seq<string>,
                   i: int, kept: set<Fmri>, c: map<string, set<Fmri>>, b: map<string, set<Fmri>>,
                   c': map<string, set<Fmri>>, b': map<string, set<Fmri>>)
    requires 0 <= i < |order| && forall p :: p in order ==> p in sources
    requires Untouched(was, order[i], c, b) && order[i] in c
    requires SyncStep(key, sources[order[i]], order[i], Deleted(key, was, sources, order, i), kept, c, b, c', b')
    ensures Synced(key, was, sources, order, i, c', b')
    ensures forall j :: 0 <= j < |order| && order[j] != order[i] && Synced(key, was, sources, order, j, c, b) ==>
              Synced(key, was, sources, order, j, c', b')
    ensures forall p :: p != order[i] && Untouched(was, p, c, b) ==> Untouched(was, p, c', b')
  {
  }

  /** The first n publishers are synced, and the others untouched. */
  ghost predicate SyncedUpTo(key: VersionKey, was: map<string, set<Fmri>>, sources: map<string, Source>,
                             order: seq<string>, n: int,
                             deleted: bool, modified: set<string>, c: map<string, set<Fmri>>, b: map<string, set<Fmri>>)
    requires 0 <= n <= |order| && forall p :: p in order ==> p in sources
  {
    && (deleted <==> Deleted(key, was, sources, order, n - 1))
    && (forall j :: 0 <= j < n ==> Synced(key, was, sources, order, j, c, b))
    && (forall p :: p in modified <==> p in order[..n] && Modified(key, was, sources, p))
    && forall p :: p !in order[..n] ==> Untouched(was, p, c, b)
  }

  lemma UntouchedNext(key: VersionKey, was: map<string, set<Fmri>>, sources: map<string, Source>, order: seq<string>,
                      n: int,
                      deleted: bool, modified: set<string>, c: map<string, set<Fmri>>, b: map<string, set<Fmri>>)
    requires 0 <= n < |order| && forall p :: p in order ==> p in sources
    requires forall i, j :: 0 <= i < j < |order| ==> order[i] != order[j]
    requires SyncedUpTo(key, was, sources, order, n, deleted, modified, c, b)
    ensures Untouched(was, order[n], c, b)
  {
    assert order[n] !in order[..n];
  }

  lemma SyncedUpToNext(key: VersionKey, was: map<string, set<Fmri>>, sources: map<string, Source>, order: seq<string>,
                       n: int, kept: set<Fmri>,
                       deleted: bool, modified: set<string>, c: map<string, set<Fmri>>, b: map<string, set<Fmri>>,
                       deleted': bool, changed: bool, c': map<string, set<Fmri>>, b': map<string, set<Fmri>>)
    requires 0 <= n < |order| && forall p :: p in order ==> p in sources
    requires forall i, j :: 0 <= i < j < |order| ==> order[i] != order[j]
    requires SyncedUpTo(key, was, sources, order, n, deleted, modified, c, b) && order[n] in c && order[n] in was
    requires deleted' == (deleted || Missing(key, c[order[n]], Offers(sources[order[n]])) != {})
    requires SyncStep(key, sources[order[n]], order[n], deleted', kept, c, b, c', b')
    requires changed <==> !SameUpToTies(key, c[order[n]], Offers(sources[order[n]]))
    ensures SyncedUpTo(key, was, sources, order, n + 1, deleted', if changed then modified + {order[n]} else modified,
                       c', b')
  {
    UntouchedNext(key, was, sources, order, n, deleted, modified, c, b);
    DeletedNext(key, was, sources, order, n);
    SyncedNext(key, was, sources, order, n, kept, c, b, c', b');
    assert order[..n + 1] == order[..n] + [order[n]];
  }

  /** The target repository: the catalogs that have a directory, and the old ones kept aside. */
  class Repository {
    var catalogs: map<string, set<Fmri>>
    var backups: map<string, set<Fmri>>

    /** Put the source's catalog in the place of the publisher's, which is kept as a backup. */
    method CopyCatalog(src: Source, pub: string)
      requires pub in catalogs
      modifies this
      ensures backups == old(backups)[pub := old(catalogs)[pub]]
      ensures catalogs == if src.Some? then old(catalogs)[pub := src.value] else old(catalogs) - {pub}
    {
      backups := backups[pub := catalogs[pub]];
      catalogs := catalogs - {pub};
      if src.Some? {
        catalogs := catalogs[pub := src.value];
      }
    }

    /** Sync one publisher; deleted says whether packages have been removed so far. */
    method SyncPublisher(key: VersionKey, src: Source, pub: string, dryRun: bool, deleted: bool)
      returns (processed: nat, deleted': bool, modified: bool, ghost kept: set<Fmri>)
      requires if dryRun then !deleted else pub in catalogs
      modifies this
      ensures dryRun ==>
                catalogs == old(catalogs) && backups == old(backups) && processed == 0 && !modified
                && deleted' == deleted
      ensures !dryRun ==>
                && deleted' == (deleted || Missing(key, old(catalogs)[pub], Offers(src)) != {})
                && SyncStep(key, src, pub, deleted', kept, old(catalogs), old(backups), catalogs, backups)
                && (modified <==> !SameUpToTies(key, old(catalogs)[pub], Offers(src))) && (processed > 0 <==> modified)
    {
      processed, deleted', modified := 0, deleted, false;
      var target := ListedIn(catalogs, pub);
      var toAdd := Difference(key, Offers(src), target);
      var toRemove := Difference(key, target, Offers(src));
      kept := target - toRemove;
      if !dryRun {
        KeptAfter(key, target, Offers(src), toRemove);
        if toRemove != {} {
          catalogs := catalogs[pub := catalogs[pub] - toRemove];
          deleted' := true;
          processed := processed + |toRemove|;
          modified := true;
        } else {
          assert kept == target;
        }
      }
      assert !dryRun ==> ListedIn(catalogs, pub) == kept;
      if toAdd == {} {
        if deleted' {
          CopyCatalog(src, pub);
        }
        return;
      }
      if dryRun {
        return;
      }
      processed := processed + |toAdd|;
      modified := true;
      CopyCatalog(src, pub);
    }

    /** Sync publishers one after another. */
    method SyncAll(key: VersionKey, sources: map<string, Source>, order: seq<string>, dryRun: bool)
      returns (processed: nat, modified: set<string>)
      requires forall p :: p in order ==> p in sources && (!dryRun ==> p in catalogs)
      requires forall i, j :: 0 <= i < j < |order| ==> order[i] != order[j]
      requires backups == map[]
      modifies this
      ensures dryRun ==> catalogs == old(catalogs) && backups == map[] && processed == 0 && modified == {}
      ensures !dryRun ==>
                && (forall i :: 0 <= i < |order| ==> Synced(key, old(catalogs), sources, order, i, catalogs, backups))
                && (forall p :: p in modified <==> p in order && Modified(key, old(catalogs), sources, p))
                && (processed > 0 <==> modified != {})
                && (forall p :: p !in order ==> Untouched(old(catalogs), p, catalogs, backups))
    {
      processed, modified := 0, {};
      var deleted := false;
      ghost var was := catalogs;
      for i := 0 to |order|
        invariant dryRun ==> catalogs == was && backups == map[] && processed == 0 && modified == {} && !deleted
        invariant !dryRun ==> SyncedUpTo(key, was, sources, order, i, deleted, modified, catalogs, backups)
        invariant processed > 0 <==> modified != {}
      {
        var pub := order[i];
        ghost var c, b, wasDeleted := catalogs, backups, deleted;
        if !dryRun {
          UntouchedNext(key, was, sources, order, i, deleted, modified, c, b);
        }
        var n, changed;
        ghost var kept;
        n, deleted, changed, kept := SyncPublisher(key, sources[pub], pub, dryRun, deleted);
        if !dryRun {
          SyncedUpToNext(key, was, sources, order, i, kept, wasDeleted, modified, c, b, deleted, changed, catalogs,
                         backups);
        }
        processed := processed + n;
        if changed {
          modified := modified + {pub};
        }
      }
      assert order[..|order|] == order;
    }

    /** Put the backups of the modified publishers back after a failure, or drop them.  A publisher whose
        new catalog is not there to be removed is left as it is. */
    method CleanUp(modified: set<string>, failed: bool)
      requires forall p :: p in modified ==> p in backups
      modifies this
      ensures CleanedUp(modified, failed, old(catalogs), old(backups), catalogs, backups)
    {
      var todo := modified;
      ghost var c, b := catalogs, backups;
      while todo != {}
        invariant todo <= modified && catalogs.Keys == c.Keys
        invariant forall p :: p in backups <==> p in b && !(p in modified - todo && (failed ==> p in c))
        invariant forall p :: p in backups ==> backups[p] == b[p]
        invariant forall p :: p in catalogs ==> catalogs[p] == if p in modified - todo && failed then b[p] else c[p]
        decreases todo
      {
        var pub :| pub in todo;
        todo := todo - {pub};
        if failed {
          if pub !in catalogs {
            continue;
          }
          catalogs := catalogs[pub := backups[pub]];
          backups := backups - {pub};
        } else {
          backups := backups - {pub};
        }
      }
    }

    /** Clone the source's catalogs; verified is the verdict of checking the repository afterwards. */
    method CloneRepo(key: VersionKey, named: seq<string>, sourceOrder: seq<string>, sources: map<string, Source>,
                     dryRun: bool, verified: bool)
      returns (r: Result<bool, Abort>, ghost order: seq<string>)
      requires forall i, j :: 0 <= i < j < |sourceOrder| ==> sourceOrder[i] != sourceOrder[j]
      requires forall p :: p in sourceOrder <==> p in sources
      requires backups == map[]
      modifies this
      ensures forall p :: p in order ==> p in sources
      ensures r.Err? || dryRun ==> catalogs == old(catalogs) && backups == map[]
      ensures r.Ok? ==>
                forall p :: p in order <==>
                              p in sources && (p in named || "*" in named || (named == [] && p in old(catalogs)))
      ensures r.Ok? && !dryRun ==>
                && (r.value <==> verified || forall p :: p in order ==> !Modified(key, old(catalogs), sources, p))
                && (forall i ::
                    0 <= i < |order| ==> Concluded(key, old(catalogs), sources, order, i, r.value, catalogs, backups))
                && (forall p :: p !in order ==> Untouched(old(catalogs), p, catalogs, backups))
    {
      order := [];
      ghost var was := catalogs;
      var selected := SelectPublishers(sourceOrder, catalogs.Keys, named);
      if selected.Err? {
        return Err(selected.error), order;
      }
      order := selected.value.0;
      if !dryRun {
        catalogs := map p | p in catalogs.Keys + selected.value.1 :: ListedIn(catalogs, p);
      }
      ghost var start := catalogs;
      var processed, modified := SyncAll(key, sources, selected.value.0, dryRun);
      if dryRun {
        return Ok(true), order;
      }
      var failed := processed > 0 && !verified;
      ghost var c, b := catalogs, backups;
      BackedUp(key, start, sources, order, modified, c, b);
      CleanUp(modified, failed);
      ConcludeAll(key, was, start, sources, order, modified, !failed, c, b, catalogs, backups);
      r := Ok(!failed);
    }
  }

  lemma DeletedNext(key: VersionKey, was: map<string, set<Fmri>>, sources: map<string, Source>, order: seq<string>,
                    i: int)
    requires 0 <= i < |order| && forall p :: p in order ==> p in sources
    ensures Deleted(key, was, sources, order, i) <==>
            Deleted(key, was, sources, order, i - 1) || Shrinks(key, was, sources, order[i])
  {
  }

  ghost predicate CleanedUp(modified: set<string>, failed: bool, c: map<string, set<Fmri>>, b: map<string, set<Fmri>>,
                            c': map<string, set<Fmri>>, b': map<string, set<Fmri>>)
  {
    && (forall p :: p in b' <==> p in b && !(p in modified && (failed ==> p in c)))
    && (forall p :: p in b' ==> b'[p] == b[p])
    && c'.Keys == c.Keys
    && (forall p ::
        p in c' ==> (p in modified && failed ==> p in b) && c'[p] == if p in modified && failed then b[p] else c[p])
  }

  /** What has become of the publisher number i.  A catalog that was replaced lists what the source offers;
      one that was not lists what it did, which is the same up to ties.  But when a modified one fails, it
      lists what had been kept of it, or nothing if the source's catalog has no directory.  There is a
      backup if a catalog was replaced without need, or could not be put back. */
  ghost predicate Concluded(key: VersionKey, was: map<string, set<Fmri>>, sources: map<string, Source>,
                            order: seq<string>, i: int,
                            success: bool, catalogs: map<string, set<Fmri>>, backups: map<string, set<Fmri>>)
    requires 0 <= i < |order| && forall p :: p in order ==> p in sources
  {
    var pub := order[i];
    var before, now, offered := ListedIn(was, pub), ListedIn(catalogs, pub), Offers(sources[pub]);
    var copied, modified := Copied(key, was, sources, order, i), Modified(key, was, sources, pub);
    && (copied && (success || !modified) ==> now == offered)
    && (!copied ==> now == before && SameUpToTies(key, before, offered))
    && (!success && modified ==> if sources[pub].Some? then Kept(key, before, offered, now) else now == {})
    && (pub in catalogs <==> sources[pub].Some? || !copied)
    && (pub in backups <==> copied && (modified ==> !success && sources[pub].None?))
    && (pub in backups ==> Kept(key, before, offered, backups[pub]))
  }

  lemma Conclude(key: VersionKey, was: map<string, set<Fmri>>, start: map<string, set<Fmri>>, sources: map<string,
                 Source>, order: seq<string>, i: int,
                 modified: set<string>, success: bool, c: map<string, set<Fmri>>, b: map<string, set<Fmri>>,
                 c': map<string, set<Fmri>>, b': map<string, set<Fmri>>)
    requires 0 <= i < |order| && forall p :: p in order ==> p in sources
    requires ListedIn(start, order[i]) == ListedIn(was, order[i])
    requires Copied(key, start, sources, order, i) <==> Copied(key, was, sources, order, i)
    requires Synced(key, start, sources, order, i, c, b)
    requires order[i] in modified <==> Modified(key, was, sources, order[i])
    requires order[i] in modified ==> order[i] in b
    requires CleanedUp(modified, !success, c, b, c', b')
    ensures Concluded(key, was, sources, order, i, success, c', b')
  {
    assert Shrinks(key, was, sources, order[i]) ==> Deleted(key, was, sources, order, i);
  }

  lemma ConcludeAll(key: VersionKey, was: map<string, set<Fmri>>, start: map<string, set<Fmri>>, sources: map<string,
                    Source>, order: seq<string>,
                    modified: set<string>, success: bool, c: map<string, set<Fmri>>, b: map<string, set<Fmri>>,
                    c': map<string, set<Fmri>>, b': map<string, set<Fmri>>)
    requires forall p :: p in order ==> p in sources
    requires forall p :: ListedIn(start, p) == ListedIn(was, p)
    requires forall i :: 0 <= i < |order| ==> Synced(key, start, sources, order, i, c, b)
    requires forall p :: p in modified <==> p in order && Modified(key, start, sources, p)
    requires CleanedUp(modified, !success, c, b, c', b')
    ensures forall i :: 0 <= i < |order| ==> Concluded(key, was, sources, order, i, success, c', b')
    ensures forall p :: p in modified <==> p in order && Modified(key, was, sources, p)
  {
    SameLists(key, was, start, sources, order);
    BackedUp(key, start, sources, order, modified, c, b);
    forall i | 0 <= i < |order|
      ensures Concluded(key, was, sources, order, i, success, c', b')
    {
      Conclude(key, was, start, sources, order, i, modified, success, c, b, c', b');
    }
  }

  lemma SameLists(key: VersionKey, was: map<string, set<Fmri>>, start: map<string, set<Fmri>>, sources: map<string,
                  Source>, order: seq<string>)
    requires forall p :: p in order ==> p in sources
    requires forall p :: ListedIn(start, p) == ListedIn(was, p)
    ensures forall i :: 0 <= i < |order| ==>
              (Copied(key, start, sources, order, i) <==> Copied(key, was, sources, order, i))
    ensures forall p :: p in order ==> (Modified(key, start, sources, p) <==> Modified(key, was, sources, p))
  {
    forall i | 0 <= i < |order|
      ensures Copied(key, start, sources, order, i) <==> Copied(key, was, sources, order, i)
    {
      forall j | 0 <= j <= i
        ensures Shrinks(key, start, sources, order[j]) <==> Shrinks(key, was, sources, order[j])
      {
      }
      assert Deleted(key, start, sources, order, i) <==> Deleted(key, was, sources, order, i);
    }
  }

  /** Every modified publisher has a backup: what was kept of its packages. */
  lemma BackedUp(key: VersionKey, was: map<string, set<Fmri>>, sources: map<string, Source>, order: seq<string>,
                 modified: set<string>, catalogs: map<string, set<Fmri>>, backups: map<string, set<Fmri>>)
    requires forall p :: p in order ==> p in sources
    requires forall i :: 0 <= i < |order| ==> Synced(key, was, sources, order, i, catalogs, backups)
    requires forall p :: p in modified <==> p in order && Modified(key, was, sources, p)
    ensures forall p :: p in modified ==> p in backups && Kept(key, ListedIn(was, p), Offers(sources[p]), backups[p])
  {
    forall p | p in modified
      ensures p in backups && Kept(key, ListedIn(was, p), Offers(sources[p]), backups[p])
    {
      var i :| 0 <= i < |order| && order[i] == p;
      assert Synced(key, was, sources, order, i, catalogs, backups);
      assert Shrinks(key, was, sources, p) ==> Deleted(key, was, sources, order, i);
    }
  }

  // ----- Whether the clone is one

  /** After a successful clone, the publisher's catalog lists what the source's does exactly when it was
      replaced or listed that already; so in any case, if none of the packages are tied. */
  lemma ClonedExactly(key: VersionKey, was: map<string, set<Fmri>>, sources: map<string, Source>, order: seq<string>,
                      i: int, catalogs: map<string, set<Fmri>>, backups: map<string, set<Fmri>>)
    requires 0 <= i < |order| && forall p :: p in order ==> p in sources
    requires Concluded(key, was, sources, order, i, true, catalogs, backups)
    ensures ListedIn(catalogs, order[i]) == Offers(sources[order[i]])
            <==> Copied(key, was, sources, order, i) || ListedIn(was, order[i]) == Offers(sources[order[i]])
    ensures TieFree(key, ListedIn(was, order[i]) + Offers(sources[order[i]])) ==>
              ListedIn(catalogs, order[i]) == Offers(sources[order[i]])
  {
    if TieFree(key, ListedIn(was, order[i]) + Offers(sources[order[i]])) {
      WithoutTies(key, ListedIn(was, order[i]), Offers(sources[order[i]]), {});
    }
  }

  /** After a failed clone, a modified publisher's catalog lists what it did before exactly when no packages
      had to be removed from it.  If none of the packages are tied, it lists what it and the source's did. */
  lemma RestoredExactly(key: VersionKey, was: map<string, set<Fmri>>, sources: map<string, Source>,
                        order: seq<string>, i: int, catalogs: map<string, set<Fmri>>, backups: map<string, set<Fmri>>)
    requires 0 <= i < |order| && forall p :: p in order ==> p in sources
    requires Concluded(key, was, sources, order, i, false, catalogs, backups) && Modified(key, was, sources, order[i])
    ensures ListedIn(catalogs, order[i]) == ListedIn(was, order[i]) <==> !Shrinks(key, was, sources, order[i])
    ensures TieFree(key, ListedIn(was, order[i]) + Offers(sources[order[i]])) ==>
              ListedIn(catalogs, order[i]) == ListedIn(was, order[i]) * Offers(sources[order[i]])
  {
    var before, now, offered := ListedIn(was, order[i]), ListedIn(catalogs, order[i]), Offers(sources[order[i]]);
    if TieFree(key, before + offered) {
      WithoutTies(key, before, offered, now);
    }
    assert Shrinks(key, was, sources, order[i]) ==> Deleted(key, was, sources, order, i);
    if sources[order[i]].Some? {
      if Shrinks(key, was, sources, order[i]) {
        var f :| f in Missing(key, before, offered);
        assert Member(key, f, before - now);
      } else {
        assert before - now == {};
        assert now == before - (before - now);
      }
    }
  }

  /** Two catalogs that list versions differing in the build release alone, say: nothing is added or removed,
      and the target keeps its own. */
  lemma TiedStaysDifferent(key: VersionKey, was: map<string, set<Fmri>>, sources: map<string, Source>, pub: string,
                           f: Fmri, g: Fmri,
                           success: bool, catalogs: map<string, set<Fmri>>, backups: map<string, set<Fmri>>)
    requires pub in was && pub in sources && was[pub] == {f} && sources[pub] == Some({g}) && Tied(key, f, g) && f != g
    requires Concluded(key, was, sources, [pub], 0, success, catalogs, backups)
    ensures ListedIn(catalogs, pub) == {f} && ListedIn(catalogs, pub) != Offers(sources[pub])
  {
    assert Tied(key, g, f);
    assert g in {g} && f in {f};
    assert !Modified(key, was, sources, pub);
  }
}
