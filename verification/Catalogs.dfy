/** The catalog object: parts and update logs loaded on demand from a directory, edited in
    memory, saved, and brought up to date from another directory. */
module Catalogs {
  import opened Actions
  import opened CatalogParts
  import opened CatalogUpdates
  import opened Coverage
  import opened History
  import opened NestedLists
  import opened Protocol
  import opened VersionLists
  import opened Wrappers
  import opened CatalogSteps
  import opened ReplaySteps
  import opened UpdatesNeeded

  class Catalog {
    const key: VersionKey
    const digest: Digest
    var attrs: Attrs
    var disk: Dir
    var batchMode: bool
    var logUpdates: bool

    /** The parts and update logs in memory, by the state their objects are in. */
    var parts: PartFiles
    var updates: LogFiles

    /** What any state of a catalog satisfies, even between the copying of files and of the
        attributes that list them. */
    ghost predicate Loadable()
      reads this
    {
      && CleanParts(attrs, Current()) && parts.Keys <= attrs.parts.Keys
      && CleanLogs(CurrentLogs()) && TimesKnown(attrs, updates)
    }

    ghost predicate Valid()
      reads this
    {
      Loadable() && disk.parts.Keys <= attrs.parts.Keys
    }

    /** What a part that must exist is found by. */
    ghost predicate Visible(n: PartName)
      reads this`attrs, this`parts, this`disk
    {
      n in parts || (n in attrs.parts && n in disk.parts)
    }

    /** The parts as they are now: those in memory, and the files of the others. */
    ghost function Current(): PartFiles
      reads this`disk, this`parts
    {
      disk.parts + parts
    }

    ghost function CurrentLogs(): LogFiles
      reads this`disk, this`updates
    {
      disk.logs + updates
    }

    ghost function Abs(): View
      reads this
    {
      ViewOf(attrs, Current(), CurrentLogs())
    }

    ghost predicate Settled()
      reads this
    {
      SettledIn(digest, attrs, parts.Keys, Current())
    }

    /** Open the catalog in a directory; without attributes there, a new and empty catalog. */
    constructor (key: VersionKey, digest: Digest, disk: Dir, batchMode: bool, logUpdates: bool, now: int)
      requires CleanDir(disk)
      ensures Valid() && this.key == key && this.digest == digest && this.disk == disk
      ensures this.batchMode == batchMode && this.logUpdates == logUpdates
      ensures parts == map[] && updates == map[]
      ensures attrs == if disk.attrs.Some? then disk.attrs.value else Attrs(now, now, 0, 0, map[], map[])
    {
      this.key, this.digest, this.disk, this.batchMode, this.logUpdates := key, digest, disk, batchMode, logUpdates;
      attrs := if disk.attrs.Some? then disk.attrs.value else Attrs(now, now, 0, 0, map[], map[]);
      parts, updates := map[], map[];
    }

    /** The part of a name, from memory, else from its file, else empty.  With mustExist a part that is
        neither in memory nor on disk is not made up. */
    method GetPart(n: PartName, mustExist: bool, now: int) returns (part: CatalogPart?)
      requires Loadable() && (mustExist || WellFormed(n))
      modifies this`parts, this`attrs
      ensures Loadable()
      ensures part == null <==> mustExist && !old(Visible(n))
      ensures part == null ==> parts == old(parts) && attrs == old(attrs)
      ensures part != null ==>
                && fresh(part) && part.name == n && part.key == key && part.ordered == !batchMode
                && part.data == DataOf(old(Current()), n)
                && part.lastModified == if n in old(Current()) then old(Current())[n].lastModified else now
      ensures part != null ==> attrs == Known(old(attrs), n, now)
      ensures part != null && n !in old(attrs.parts) && n !in old(Current()) ==>
                n in attrs.parts && attrs.parts[n] == PartAttr(part.lastModified, None)
      ensures part != null ==> parts.Keys == old(parts.Keys) + {n}
      ensures Current() == if part == null || n in old(Current()) then old(Current())
              else old(Current())[n := PartFile(map[], now)]
    {
      if n !in parts {
        if mustExist && n !in attrs.parts {
          return null;
        }
        if mustExist && n !in disk.parts {
          return null;
        }
      }
      var file := if n in parts then parts[n] else if n in disk.parts then disk.parts[n] else PartFile(map[], now);
      part := new CatalogPart(n, key, !batchMode, file.data, file.lastModified);
      LoadPart(disk.parts, parts, n, file);
      parts := parts[n := file];
      attrs := Known(attrs, n, now);
    }

    /** What has become of a part. */
    method KeepPart(part: CatalogPart)
      requires Loadable() && part.name in parts && NoEmpty(part.data)
      modifies this`parts
      ensures Loadable() && parts == old(parts)[part.name := PartFile(part.data, part.lastModified)]
      ensures Current() == old(Current())[part.name := PartFile(part.data, part.lastModified)]
    {
      LoadPart(disk.parts, parts, part.name, PartFile(part.data, part.lastModified));
      parts := parts[part.name := PartFile(part.data, part.lastModified)];
    }

    /** The update log of a name, from memory, else from its file, else empty. */
    method GetUpdate(l: LogName) returns (ulog: CatalogUpdate)
      requires Valid()
      ensures fresh(ulog) && ulog.name == l && ulog.data == LogDataOf(CurrentLogs(), l) && NoEmpty(ulog.data)
    {
      var file := if l in updates then updates[l] else if l in disk.logs then disk.logs[l] else LogFile(map[], 0);
      ulog := new CatalogUpdate(l, file.data, file.lastModified);
    }

    /** Log one operation in the log of one locale. */
    method LogLocale(op: Op, l: LogName)
      requires Valid() && l.hour == Hour(op.time)
      modifies this`updates, this`attrs
      ensures Valid()
      ensures CurrentLogs()
           == old(CurrentLogs())[l := LogFile(Append(LogDataOf(old(CurrentLogs()), l), op, l.locale), op.time)]
      ensures attrs == old(attrs).(updates := old(attrs.updates)[l := op.time])
    {
      var ulog := GetUpdate(l);
      ulog.Add(op.fmri, op.kind, op.time, Restrict(op.parts, l.locale));
      updates := updates[l := LogFile(ulog.data, ulog.lastModified)];
      attrs := attrs.(updates := attrs.updates[l := op.time]);
      MergeUpdate(disk.logs, old(updates), l, LogFile(ulog.data, ulog.lastModified));
    }

    /** Log an operation in the log of each locale whose parts it handled. */
    method LogLocales(op: Op)
      requires Valid()
      modifies this`updates, this`attrs
      ensures Valid()
      ensures CurrentLogs() == Log(old(CurrentLogs()), op)
      ensures attrs == Stamped(old(attrs), op.time, Locales(op.parts))
    {
      var groups := GroupByLocale(op.parts);
      var todo := groups.Keys;
      ghost var was, wasAttrs, done: set<string> := CurrentLogs(), attrs, {};
      StampNone(attrs.updates, op.time);
      while todo != {}
        invariant Valid() && done !! todo && done + todo == Locales(op.parts)
        invariant CurrentLogs() == LogIn(was, op, LogNamesOf(op.time, done))
        invariant attrs == Stamped(wasAttrs, op.time, done)
        decreases todo
      {
        var locale :| locale in todo;
        LocaleOneMore(was, wasAttrs, op, done, locale);
        LogLocale(op, LogName(Hour(op.time), locale));
        todo, done := todo - {locale}, done + {locale};
      }
    }

    // ----- Finalizing

    /** Record how many packages and versions the base part lists. */
    method SetCounts()
      requires Loadable()
      modifies this`attrs, this`parts
      ensures Loadable() && Current() == old(Current())
      ensures parts.Keys == old(parts.Keys) + if old(Visible(Base)) then {Base} else {}
      ensures attrs == Counted(old(attrs), if old(Visible(Base)) then Current() else map[])
    {
      var packageCount, versionCount := 0, 0;
      var part := GetPart(Base, true, 0);
      if part != null {
        packageCount, versionCount := part.GetPackageCounts();
      } else {
        assert Packages(map[]) == {} && Slots(map[]) == {};
      }
      attrs := attrs.(packageCount := packageCount, versionCount := versionCount);
    }

    method SortLoaded()
      requires Loadable()
      modifies this`parts
      ensures Loadable() && parts == SortIn(key, old(parts), old(parts.Keys))
    {
      var todo := parts.Keys;
      ghost var was, done: set<PartName> := parts, {};
      while todo != {}
        invariant Loadable() && done !! todo && done + todo == was.Keys == parts.Keys
        invariant parts == SortIn(key, was, done)
        decreases todo
      {
        var n :| n in todo;
        SortOneMore(key, was, done, n);
        var part := new CatalogPart(n, key, !batchMode, parts[n].data, parts[n].lastModified);
        assert n in Current();
        SortAllLists(key, part.data);
        part.Sort(None, {});
        KeepPart(part);
        todo, done := todo - {n}, done + {n};
      }
    }

    /** What the catalog's parts will be once finalized. */
    ghost function WhenFinalized(): PartFiles
      reads this`parts, this`disk, this`attrs
    {
      Finalized(key, Current(), parts.Keys, Visible(Base))
    }

    /** Bring every part in memory into order, provided there is a base part, and set the counts. */
    method Finalize()
      requires Loadable()
      modifies this`attrs, this`parts
      ensures Loadable()
      ensures parts.Keys == old(parts.Keys) + if old(Visible(Base)) then {Base} else {}
      ensures Current() == old(WhenFinalized())
      ensures attrs == Counted(old(attrs), if old(Visible(Base)) then old(Current()) else map[])
      ensures old(Coherent(Current())) ==> Coherent(Current())
    {
      if Coherent(Current()) {
        SortCoheres(key, Current(), parts.Keys + {Base});
      }
      SetCounts();
      if Base in parts {
        ghost var ps := parts;
        SortLoaded();
        SortInMerge(key, disk.parts, ps);
      }
    }

    // ----- Operations

    method CountAll()
      requires Valid()
      modifies this`attrs, this`parts
      ensures Valid() && Current() == old(Current()) && old(parts.Keys) <= parts.Keys
      ensures attrs == Counted(old(attrs), Current())
    {
      SetCounts();
    }

    /** Record an operation in the attributes and, if updates are logged, in the update logs. */
    method LogUpdate(op: Op)
      requires Valid()
      modifies this`attrs, this`parts, this`updates
      ensures Valid() && Current() == old(Current()) && old(parts.Keys) <= parts.Keys
      ensures CurrentLogs() == if logUpdates then Log(old(CurrentLogs()), op) else old(CurrentLogs())
      ensures attrs == Recorded(old(attrs), batchMode, logUpdates, op, parts, Current())
      ensures attrs.lastModified == op.time
      ensures logUpdates ==>
                forall n :: n in attrs.parts && n in parts ==> attrs.parts[n] == PartAttr(parts[n].lastModified, None)
    {
      if !batchMode {
        CountAll();
      }
      attrs := attrs.(lastModified := op.time);
      if logUpdates {
        LogLocales(op);
        attrs := attrs.(parts := Refreshed(attrs.parts, parts));
      }
    }

    /** Add an entry for f to one part. */
    method AddTo(n: PartName, f: Fmri, entry: Entry, opTime: int) returns (r: Result<Entry, CatalogError>)
      requires Valid() && WellFormed(n)
      modifies this`parts, this`attrs
      ensures Valid()
      ensures r.Err? <==> Contains(DataOf(old(Current()), n), f)
      ensures r.Err? ==>
                r.error == DuplicateCatalogEntry(f) && Current() == old(Current())
                && attrs == Known(old(attrs), n, opTime)
      ensures r.Ok? ==> r.value == entry.(version := f.version)
      ensures r.Ok? ==>
                Current() == old(Current())
                  [n := PartFile(Edit(key, !batchMode, Kind.Add, DataOf(old(Current()), n), f, r.value), opTime)]
      ensures attrs == Known(old(attrs), n, opTime) && parts.Keys == old(parts.Keys) + {n}
    {
      ghost var was := Current();
      var part := GetPart(n, false, opTime);
      r := part.Add(f, entry, opTime);
      if r.Ok? {
        KeepPart(part);
        Overwrite(was, n, PartFile(map[], opTime), PartFile(part.data, part.lastModified));
      }
    }

    /** From the given parts and attributes, the operation's entries have been made so far. */
    ghost predicate Made(op: Op, was: PartFiles, wasAttrs: Attrs)
      reads this
    {
      && Valid() && op.parts.Keys <= parts.Keys
      && MadeFrom(key, !batchMode, op, was, wasAttrs, Current(), attrs)
    }

    /** Make an entry for one more part, on top of those already made for this operation. */
    method AddNext(op: Op, n: PartName, entry: Entry, ghost was: PartFiles, ghost wasAttrs: Attrs)
      returns (failure: Option<CatalogError>)
      requires op.kind.Add? && n !in op.parts && entry.version == op.fmri.version && Made(op, was, wasAttrs)
      modifies this`parts, this`attrs
      ensures old(parts.Keys) <= parts.Keys
      ensures failure.None? <==> CanAdd(was, op.fmri, n)
      ensures failure.Some? ==> failure.value == Refusal(op.fmri, n)
      ensures Made(if failure.Some? then op else op.(parts := op.parts[n := entry]), was, wasAttrs)
    {
      if !WellFormed(n) {
        return Some(UnrecognizedCatalogPart(n));
      }
      MadeNext(key, !batchMode, op, was, wasAttrs, Current(), attrs, n, entry);
      var r := AddTo(n, op.fmri, entry, op.time);
      failure := if r.Err? then Some(r.error) else None;
    }

    /** Make the given entries one after another, up to the first that cannot be made. */
    method AddAll(op: Op, targets: seq<Target>)
      returns (failure: Option<CatalogError>, entries: map<PartName, Entry>, ghost done: nat)
      requires Valid() && op.kind.Add? && op.parts == map[] && GoodTargets(op.fmri, targets)
      modifies this`parts, this`attrs
      ensures old(parts.Keys) <= parts.Keys && done <= |targets| && entries == MapOf(targets[..done])
      ensures Made(op.(parts := entries), old(Current()), old(attrs))
      ensures CanAddFirst(old(Current()), op.fmri, targets, done)
      ensures failure.None? ==> done == |targets|
      ensures failure.Some? ==> done < |targets| && !CanAdd(old(Current()), op.fmri, targets[done].name)
      ensures failure.Some? ==> failure.value == Refusal(op.fmri, targets[done].name)
    {
      failure, entries, done := None, map[], 0;
      ghost var was, wasAttrs := Current(), attrs;
      KnownNone(attrs, op.time);
      TouchNone(key, !batchMode, was, op);
      var i := 0;
      while failure.None? && i < |targets|
        invariant done == i <= |targets| && entries == MapOf(targets[..i])
        invariant old(parts.Keys) <= parts.Keys && Made(op.(parts := entries), was, wasAttrs)
        invariant CanAddFirst(was, op.fmri, targets, i)
        invariant failure.Some? ==> i < |targets| && !CanAdd(was, op.fmri, targets[i].name)
        invariant failure.Some? ==> failure.value == Refusal(op.fmri, targets[i].name)
        decreases failure.None?, |targets| - i
      {
        MapOfNext(op.fmri, targets, i);
        failure := AddNext(op.(parts := entries), targets[i].name, targets[i].entry, was, wasAttrs);
        if failure.None? {
          entries := entries[targets[i].name := targets[i].entry];
          CanAddNext(was, op.fmri, targets, i);
          i, done := i + 1, i + 1;
        }
      }
    }

    /** Make the entries of a package in every part that has something for it. */
    method AddEntries(f: Fmri, manifest: Option<Manifest>, metadata: map<string, string>, opTime: int)
      returns (failure: Option<CatalogError>, op: Op)
      requires Valid()
      modifies this`parts, this`attrs
      ensures old(parts.Keys) <= parts.Keys && op == Op(opTime, Kind.Add, f, op.parts)
      ensures Made(op, old(Current()), old(attrs))
      ensures Entered(old(Current()), f, manifest, metadata, failure, op.parts)
    {
      var targets := MakeTargets(f, manifest, metadata);
      ghost var was := Current();
      var entries;
      ghost var done;
      failure, entries, done := AddAll(Op(opTime, Kind.Add, f, map[]), targets);
      TargetsEntered(was, f, manifest, metadata, targets, done, failure);
      op := Op(opTime, Kind.Add, f, entries);
    }

    /** Log an operation whose entries have been handled. */
    method LogMade(op: Op, ghost was: PartFiles, ghost wasAttrs: Attrs, ghost loaded: set<PartName>)
      requires Made(op, was, wasAttrs) && loaded <= parts.Keys
      modifies this`parts, this`attrs, this`updates
      ensures Valid() && Current() == old(Current()) && old(parts.Keys) <= parts.Keys
      ensures CurrentLogs() == if logUpdates then Log(old(CurrentLogs()), op) else old(CurrentLogs())
      ensures attrs == Recorded(old(attrs), batchMode, logUpdates, op, parts, Current())
      ensures logUpdates && !batchMode && SettledIn(digest, wasAttrs, loaded, was) ==>
                Settled() && Abs() == Commit(key, ViewOf(wasAttrs, was, old(CurrentLogs())), op)
    {
      ghost var wasLogs := CurrentLogs();
      LogUpdate(op);
      if logUpdates && !batchMode && SettledIn(digest, wasAttrs, loaded, was) {
        RecordedCommits(key, digest, wasAttrs, was, wasLogs, loaded, op, parts, attrs);
      }
    }

    /** Add a package to the base part and, with a manifest, to every part that it has actions for.
        The operation returned is the entries made: all of them, unless one cannot be made. */
    method AddPackage(f: Fmri, manifest: Option<Manifest>, metadata: map<string, string>, opTime: int)
      returns (r: Result<(), CatalogError>, ghost op: Op)
      requires Valid()
      modifies this`parts, this`attrs, this`updates
      ensures Valid() && op == Op(opTime, Kind.Add, f, op.parts) && old(parts.Keys) <= parts.Keys
      ensures Entered(old(Current()), f, manifest, metadata, if r.Ok? then None else Some(r.error), op.parts)
      ensures Current() == Touch(key, !batchMode, old(Current()), op)
      ensures r.Ok? ==> NewlyHolds(old(Current()), Current(), f, manifest, metadata)
      ensures CurrentLogs() == if r.Ok? && logUpdates then Log(old(CurrentLogs()), op) else old(CurrentLogs())
      ensures var known := KnownAll(old(attrs), op.parts.Keys, opTime);
              attrs == if r.Ok? then Recorded(known, batchMode, logUpdates, op, parts, Current()) else known
      ensures r.Ok? && logUpdates && !batchMode && old(Settled()) ==> Settled() && Abs() == Commit(key, old(Abs()), op)
      ensures old(Coherent(Current())) ==> Coherent(Current())
    {
      ghost var was, wasAttrs, loaded := Current(), attrs, parts.Keys;
      var failure, made := AddEntries(f, manifest, metadata, opTime);
      op := made;
      EnteredCoheres(key, !batchMode, was, manifest, metadata, failure, op);
      if failure.Some? {
        return Err(failure.value), op;
      }
      EnteredHolds(key, !batchMode, was, f, manifest, metadata, op);
      LogMade(made, was, wasAttrs, loaded);
      r := Ok(());
    }

    /** Take the entry for f out of one part, if it has one; a part without a file is made anew. */
    method RemoveFrom(n: PartName, f: Fmri, opTime: int) returns (r: Option<Entry>)
      requires Valid() && n in attrs.parts
      modifies this`parts, this`attrs
      ensures Valid() && attrs == old(attrs) && parts.Keys == old(parts.Keys) + {n}
      ensures r.Some? <==> Contains(DataOf(old(Current()), n), f)
      ensures r.Some? ==> r.value in ListAt(DataOf(old(Current()), n), f.pub, f.stem) && r.value.version == f.version
      ensures r.Some? ==>
                Current() == old(Current())
                  [n := PartFile(Edit(key, !batchMode, Kind.Remove, DataOf(old(Current()), n), f, r.value), opTime)]
      ensures r.None? ==>
                Current() == if n in old(Current()) then old(Current())
                  else old(Current())[n := PartFile(map[], opTime)]
    {
      var part := GetPart(n, false, opTime);
      r := part.GetEntry(f);
      if r.Some? {
        assert n in old(Current());
        RemoveListed(part, f, r.value, opTime);
      }
    }

    /** Take the entry for f out of a part that has one. */
    method RemoveListed(part: CatalogPart, f: Fmri, ghost e: Entry, opTime: int)
      requires Valid() && part.name in parts && NoEmpty(part.data) && Contains(part.data, f) && e.version == f.version
      modifies this`parts, part
      ensures Valid() && parts.Keys == old(parts.Keys)
      ensures Current() == old(Current())
                [part.name := PartFile(Edit(key, !batchMode, Kind.Remove, old(part.data), f, e), opTime)]
    {
      var done := part.Remove(f, opTime);
      KeepPart(part);
    }

    /** Go on to one more part, with what was taken out of the others so far. */
    method RemoveOneMore(op: Op, n: PartName, ghost names: set<PartName>, ghost was: PartFiles) returns (more: Op)
      requires Valid() && op.kind.Remove? && n in attrs.parts && n !in names
      requires RemovedFrom(key, !batchMode, op, names, was, Current()) && op.parts.Keys <= parts.Keys
      modifies this`parts, this`attrs
      ensures Valid() && attrs == old(attrs) && old(parts.Keys) + {n} <= parts.Keys
      ensures more == op.(parts := more.parts) && more.parts.Keys <= parts.Keys
      ensures n in more.parts <==> Contains(DataOf(was, n), op.fmri)
      ensures RemovedFrom(key, !batchMode, more, names + {n}, was, Current())
    {
      ghost var ps := Current();
      SameData(key, !batchMode, op, names, was, ps, n);
      var entry := RemoveFrom(n, op.fmri, op.time);
      if entry.Some? {
        RemoveNext(key, !batchMode, op, names, was, ps, n, entry.value);
        more := op.(parts := op.parts[n := entry.value]);
      } else {
        SkipNext(key, !batchMode, op, names, was, ps, n);
        more := op;
      }
    }

    /** Take the entries for f out of every part the attributes list, in any order.  The operation
        returned is the entries taken out. */
    method RemoveEntries(f: Fmri, opTime: int) returns (failure: Option<CatalogError>, op: Op)
      requires Valid()
      modifies this`parts, this`attrs
      ensures Valid() && attrs == old(attrs) && old(parts.Keys) + op.parts.Keys <= parts.Keys
      ensures op == Op(opTime, Kind.Remove, f, op.parts)
      ensures failure.Some? <==> Base in attrs.parts && !Contains(DataOf(old(Current()), Base), f)
      ensures failure.Some? ==> failure.value == UnknownCatalogEntry(f)
      ensures failure.None? ==> RemovedFrom(key, !batchMode, op, attrs.parts.Keys, old(Current()), Current())
      ensures failure.Some? ==>
                exists names :: names <= attrs.parts.Keys
                       && RemovedFrom(key, !batchMode, op, names, old(Current()), Current())
    {
      op := Op(opTime, Kind.Remove, f, map[]);
      failure := None;
      var todo := attrs.parts.Keys;
      ghost var was, names: set<PartName> := Current(), {};
      RemoveNothing(key, !batchMode, op, was);
      while todo != {} && failure.None?
        invariant Valid() && attrs == old(attrs) && old(parts.Keys) + op.parts.Keys <= parts.Keys
        invariant op == Op(opTime, Kind.Remove, f, op.parts)
        invariant names !! todo && names <= attrs.parts.Keys && RemovedFrom(key, !batchMode, op, names, was, Current())
        invariant if failure.None? then names + todo == attrs.parts.Keys
                  && (Base in names ==> Contains(DataOf(was, Base), f))
                  else failure.value == UnknownCatalogEntry(f) && Base in attrs.parts && !Contains(DataOf(was, Base), f)
        decreases todo
      {
        var n :| n in todo;
        todo := todo - {n};
        op := RemoveOneMore(op, n, names, was);
        if n !in op.parts && n == Base {
          failure := Some(UnknownCatalogEntry(f));
        }
        names := names + {n};
      }
    }

    /** Remove a package from every part that lists it.  The operation returned is the entries taken
        out: all of them, unless the base part lacks the package. */
    method RemovePackage(f: Fmri, opTime: int) returns (r: Result<(), CatalogError>, ghost op: Op)
      requires Valid()
      modifies this`parts, this`attrs, this`updates
      ensures Valid() && op == Op(opTime, Kind.Remove, f, op.parts) && old(parts.Keys) <= parts.Keys
      ensures r.Err? <==> Base in old(attrs.parts) && !Contains(DataOf(old(Current()), Base), f)
      ensures r.Err? ==> r.error == UnknownCatalogEntry(f) && attrs == old(attrs)
      ensures r.Err? ==> exists names ::
                names <= attrs.parts.Keys && RemovedFrom(key, !batchMode, op, names, old(Current()), Current())
      ensures r.Ok? ==> RemovedFrom(key, !batchMode, op, old(attrs.parts.Keys), old(Current()), Current())
      ensures r.Ok? ==> attrs == Recorded(old(attrs), batchMode, logUpdates, op, parts, Current())
      ensures CurrentLogs() == if r.Ok? && logUpdates then Log(old(CurrentLogs()), op) else old(CurrentLogs())
      ensures r.Ok? && logUpdates && !batchMode && old(Settled()) ==> Settled() && Abs() == Commit(key, old(Abs()), op)
      ensures old(Coherent(Current())) ==> Coherent(Current())
    {
      ghost var was, wasAttrs, loaded := Current(), attrs, parts.Keys;
      var failure, taken := RemoveEntries(f, opTime);
      op := taken;
      if Coherent(was) {
        RemoveCoheres(key, !batchMode, op, attrs.parts.Keys, failure.None?, was, Current());
      }
      if failure.Some? {
        return Err(failure.value), op;
      }
      WidenedMade(key, !batchMode, op, attrs, was, Current());
      LogMade(taken, Widened(was, attrs.parts.Keys, opTime), attrs, loaded);
      if SettledIn(digest, wasAttrs, loaded, was) {
        SettledWide(digest, wasAttrs, loaded, was, opTime);
      }
      r := Ok(());
    }

    // ----- Saving

    method SaveLogs()
      requires Loadable()
      modifies this`disk, this`attrs
      ensures Loadable() && attrs == old(attrs) && disk == old(disk).(logs := old(disk.logs) + updates)
    {
      var todo := updates.Keys;
      ghost var was, done: set<LogName> := disk, {};
      OnlyInEnds(was.logs, updates);
      while todo != {}
        invariant done !! todo && done + todo == updates.Keys
        invariant attrs == old(attrs) && disk == was.(logs := was.logs + OnlyIn(updates, done))
        decreases todo
      {
        var l :| l in todo;
        OnlyInOneMore(was.logs, updates, done, l);
        disk := disk.(logs := disk.logs[l := updates[l]]);
        attrs := attrs.(updates := attrs.updates[l := updates[l].lastModified]);
        assert attrs.updates == old(attrs.updates);
        todo, done := todo - {l}, done + {l};
      }
      SavedTwice(was.logs, updates);
    }

    method SaveParts()
      requires Loadable()
      modifies this`disk, this`attrs
      ensures Loadable() && disk == old(disk).(parts := old(Current())) && Current() == old(Current())
      ensures attrs == old(attrs).(parts := SignedIn(digest, old(attrs.parts), parts, parts.Keys))
    {
      var todo := parts.Keys;
      ghost var was, wasAttrs, done: set<PartName> := disk, attrs, {};
      OnlyInEnds(was.parts, parts);
      while todo != {}
        invariant done !! todo && done + todo == parts.Keys
        invariant disk == was.(parts := was.parts + OnlyIn(parts, done))
        invariant attrs == wasAttrs.(parts := SignedIn(digest, wasAttrs.parts, parts, done))
        decreases todo
      {
        var n :| n in todo;
        OnlyInOneMore(was.parts, parts, done, n);
        SignedOneMore(digest, wasAttrs.parts, parts, done, n);
        disk := disk.(parts := disk.parts[n := parts[n]]);
        attrs := attrs.(parts := attrs.parts[n := SignedAttr(digest, parts[n])]);
        todo, done := todo - {n}, done + {n};
      }
      assert done == parts.Keys;
      SavedTwice(was.parts, parts);
    }

    /** Write everything in memory to the directory. */
    method Save()
      requires Loadable()
      modifies this`disk, this`attrs
      ensures Loadable() && Current() == old(Current()) && disk.attrs == Some(attrs) && disk.parts == old(Current())
      ensures disk.logs == if logUpdates then old(CurrentLogs()) else old(disk.logs)
      ensures attrs == old(attrs).(parts := SignedIn(digest, old(attrs.parts), parts, parts.Keys))
      ensures old(Valid()) ==> Valid()
      ensures logUpdates && old(Settled()) ==> Settled() && Abs() == old(Abs()) && disk == Published(digest, old(Abs()))
    {
      if old(Settled()) {
        SavedPublished(digest, attrs, parts, Current(), CurrentLogs());
      }
      if logUpdates {
        SavedTwice(disk.logs, updates);
        SaveLogs();
      }
      SaveParts();
      disk := disk.(attrs := Some(attrs));
    }

    // ----- Bringing a catalog up to date

    /** Replay one update of a log on one part, unless the part is not there or has seen it. */
    method ApplyChange(u: Update, n: PartName, after: int) returns (failure: Option<CatalogError>)
      requires Valid() && batchMode && n in u.parts
      modifies this`parts, this`attrs
      ensures Valid() && attrs == old(attrs)
      ensures parts.Keys == old(parts.Keys) + if n in old(Current()) then {n} else {}
      ensures n !in old(Current()) ==> failure.None? && Current() == old(Current())
      ensures n in old(Current()) ==>
                && n in Current() && Current() == old(Current())[n := Current()[n]]
                && (failure.Some? <==>
                    Unseen(u, n, after) && (u.kind.Add? <==> Contains(old(Current())[n].data, u.fmri)))
                && (failure.Some? ==> failure.value == RefusalOf(u.fmri.pub, u.fmri.stem, ChangeOf(u, n)))
                && (failure.None? ==>
                      var d := old(Current())[n].data;
                      Current()[n].data == if !Unseen(u, n, after) then d
                                           else Edit(key, false, u.kind, d, u.fmri, ChangeOf(u, n).entry))
    {
      failure := None;
      var part := GetPart(n, true, u.time);
      if part == null {
        return;
      }
      if u.time <= after {
        return;
      }
      failure := ApplyTo(part, u);
      KeepPart(part);
    }

    /** Every part has followed the changes met so far. */
    ghost predicate Following(logs: LogFiles, at: Progress, was: PartFiles)
      reads this
    {
      Valid() && batchMode && AllAt(key, logs, at, attrs.parts, parts.Keys, was, Current())
    }

    method ApplyUpdate(u: Update, ghost logs: LogFiles, ghost at: Progress, ghost was: PartFiles)
      returns (failure: Option<CatalogError>)
      requires Following(logs, at, was)
      modifies this`parts, this`attrs
      ensures Valid() && attrs == old(attrs)
      ensures failure.None? ==> Following(logs, Further(at, u), was)
      ensures failure.Some? ==> SomeStuck(key, logs, Further(at, u), attrs.parts, was, failure.value)
    {
      failure := None;
      var todo := u.parts.Keys;
      ghost var done: set<PartName> := {};
      while todo != {} && failure.None?
        invariant Valid() && attrs == old(attrs) && done !! todo && done + todo == u.parts.Keys
        invariant failure.None? ==> AllInStep(key, logs, at, u, done, attrs.parts, parts.Keys, was, Current())
        invariant failure.Some? ==> SomeStuck(key, logs, Further(at, u), attrs.parts, was, failure.value)
        decreases todo
      {
        var n :| n in todo;
        failure := ApplyNext(u, n, logs, at, was, done);
        todo, done := todo - {n}, done + {n};
      }
      if failure.None? {
        UpdateDone(key, logs, at, u, attrs.parts, parts.Keys, was, Current());
      }
    }

    method ApplyNext(u: Update, n: PartName, ghost logs: LogFiles, ghost at: Progress, ghost was: PartFiles,
                     ghost done: set<PartName>)
      returns (failure: Option<CatalogError>)
      requires Valid() && batchMode && n in u.parts && n !in done
      requires AllInStep(key, logs, at, u, done, attrs.parts, parts.Keys, was, Current())
      modifies this`parts, this`attrs
      ensures Valid() && attrs == old(attrs)
      ensures failure.None? ==> AllInStep(key, logs, at, u, done + {n}, attrs.parts, parts.Keys, was, Current())
      ensures failure.Some? ==> SomeStuck(key, logs, Further(at, u), attrs.parts, was, failure.value)
    {
      ghost var ps, loaded := Current(), parts.Keys;
      var after := if n in attrs.parts then attrs.parts[n].lastModified else 0;
      failure := ApplyChange(u, n, after);
      if n in was {
        if !Unseen(u, n, after) {
          StepPast(key, logs, at, u, n, after, n in loaded, was[n].data, ps[n].data);
        } else if failure.Some? {
          StepStuck(key, logs, at, u, n, after, n in loaded, was[n].data, ps[n].data);
        } else {
          StepOn(key, logs, at, u, n, after, n in loaded, was[n].data, ps[n].data);
        }
        if failure.None? {
          PartDone(key, logs, at, u, done, attrs.parts, loaded, was, ps, n, Current()[n]);
        }
      }
    }

    method ApplyLog(l: LogName, logs: LogFiles, ghost names: seq<LogName>, ghost k: nat, ghost was: PartFiles)
      returns (failure: Option<CatalogError>)
      requires k < |names| && names[k] == l && CleanLogs(logs) && Following(logs, Progress(names[..k], []), was)
      modifies this`parts, this`attrs
      ensures Valid() && attrs == old(attrs)
      ensures failure.None? ==> Following(logs, Progress(names[..k + 1], []), was)
      ensures failure.Some? ==> SomeRejects(key, logs, names, attrs.parts, was, failure.value)
    {
      var ulog := new CatalogUpdate(l, if l in logs then logs[l].data else map[], 0);
      var us := ulog.Updates();
      assert Reads(logs, l, us);
      ghost var i;
      failure, i := ApplyAll(us, logs, names[..k], was);
      if failure.Some? {
        StuckFails(key, logs, names, k, us, i, attrs.parts, was, failure.value);
      } else {
        assert names[..k + 1] == names[..k] + [l];
        LogDone(key, logs, names[..k], l, us, attrs.parts, parts.Keys, was, Current());
      }
    }

    method ApplyAll(us: seq<Update>, ghost logs: LogFiles, ghost names: seq<LogName>, ghost was: PartFiles)
      returns (failure: Option<CatalogError>, ghost done: nat)
      requires Following(logs, Progress(names, []), was)
      modifies this`parts, this`attrs
      ensures Valid() && attrs == old(attrs) && done <= |us|
      ensures failure.None? ==> Following(logs, Progress(names, us), was)
      ensures failure.Some? ==> SomeStuck(key, logs, Progress(names, us[..done]), attrs.parts, was, failure.value)
    {
      failure, done := None, 0;
      assert us[..0] == [];
      for i := 0 to |us|
        invariant failure.None? && attrs == old(attrs) && Following(logs, Progress(names, us[..i]), was)
      {
        assert Further(Progress(names, us[..i]), us[i]) == Progress(names, us[..i + 1]);
        failure := ApplyUpdate(us[i], logs, Progress(names, us[..i]), was);
        if failure.Some? {
          return failure, i + 1;
        }
      }
      assert us[..|us|] == us;
    }

    method ApplyLogs(names: seq<LogName>, logs: LogFiles, ghost was: PartFiles) returns (failure: Option<CatalogError>)
      requires CleanLogs(logs) && Following(logs, Progress([], []), was)
      modifies this`parts, this`attrs
      ensures Valid() && attrs == old(attrs)
      ensures failure.None? ==> Following(logs, Progress(names, []), was)
      ensures failure.Some? ==> SomeRejects(key, logs, names, attrs.parts, was, failure.value)
    {
      failure := None;
      assert names[..0] == [];
      for k := 0 to |names|
        invariant failure.None? && attrs == old(attrs) && Following(logs, Progress(names[..k], []), was)
      {
        failure := ApplyLog(names[k], logs, names, k, was);
        if failure.Some? {
          return;
        }
      }
      assert names[..|names|] == names;
    }

    /** Compare the parts in memory with the signatures of other attributes. */
    method Validate(offered: Attrs) returns (failure: Option<CatalogError>)
      requires parts.Keys <= offered.parts.Keys
      ensures failure.None? ==> forall n :: n in parts ==> SignatureHolds(digest, offered, n, parts[n].data)
      ensures failure.Some? ==> exists n :: n in parts && failure.value == BadCatalogSignatures(n)
                                            && !SignatureHolds(digest, offered, n, parts[n].data)
    {
      failure := None;
      var todo := parts.Keys;
      while todo != {}
        invariant todo <= parts.Keys && failure.None?
        invariant forall n :: n in parts && n !in todo ==> SignatureHolds(digest, offered, n, parts[n].data)
        decreases todo
      {
        var n :| n in todo;
        todo := todo - {n};
        if !SignatureHolds(digest, offered, n, parts[n].data) {
          return Some(BadCatalogSignatures(n));
        }
      }
    }

    /** Finalize, check the parts in memory against the attributes offered, save, and adopt them. */
    method Adopt(offered: Attrs) returns (failure: Option<CatalogError>)
      requires Loadable() && updates == map[]
      requires attrs.parts.Keys <= offered.parts.Keys && forall n :: n in offered.parts ==> WellFormed(n)
      modifies this`parts, this`attrs, this`disk
      ensures Loadable()
      ensures failure.None? ==> attrs == offered && disk == Dir(Some(offered), old(WhenFinalized()), old(disk.logs))
      ensures failure.None? ==>
                forall n :: (n in old(parts) || (n == Base && old(Visible(Base)))) && n in old(WhenFinalized()) ==>
                  SignatureHolds(digest, offered, n, old(WhenFinalized())[n].data)
      ensures failure.Some? ==> disk == old(disk) && attrs.parts == old(attrs.parts)
      ensures failure.Some? ==>
                exists n :: (n in old(parts) || (n == Base && old(Visible(Base)))) && n in old(WhenFinalized())
                            && failure.value == BadCatalogSignatures(n)
                            && !SignatureHolds(digest, offered, n, old(WhenFinalized())[n].data)
    {
      Finalize();
      failure := Validate(offered);
      if failure.Some? {
        return;
      }
      SaveAs(offered);
    }

    /** Save, and put other attributes in the place of this catalog's. */
    method SaveAs(offered: Attrs)
      requires Loadable() && updates == map[]
      requires attrs.parts.Keys <= offered.parts.Keys && forall n :: n in offered.parts ==> WellFormed(n)
      modifies this`attrs, this`disk
      ensures Loadable() && attrs == offered && disk == Dir(Some(offered), old(Current()), old(disk.logs))
    {
      assert CurrentLogs() == disk.logs;
      Save();
      disk := disk.(attrs := Some(offered));
      attrs := offered;
    }

    /** Replay the named logs in batch mode, from the parts as they are on disk. */
    method ReplayLogs(names: seq<LogName>, logs: LogFiles) returns (failure: Option<CatalogError>)
      requires Valid() && parts == map[] && CleanLogs(logs)
      modifies this`parts, this`attrs, this`batchMode
      ensures Valid() && attrs == old(attrs) && batchMode == old(batchMode)
      ensures failure.Some? ==> SomeRejects(key, logs, names, attrs.parts, disk.parts, failure.value)
      ensures failure.None? ==> AllAt(key, logs, Progress(names, []), attrs.parts, parts.Keys, disk.parts, Current())
    {
      var oldBatchMode := batchMode;
      batchMode := true;
      AllAtStart(key, logs, attrs.parts, disk.parts);
      assert Current() == disk.parts;
      failure := ApplyLogs(names, logs, disk.parts);
      batchMode := oldBatchMode;
    }

    method ApplyIncremental(names: seq<LogName>, path: Dir) returns (r: Result<(), CatalogError>)
      requires Valid() && parts == map[] && updates == map[] && disk.attrs == Some(attrs)
      requires CleanDir(path) && path.attrs.Some? && attrs.parts.Keys <= path.attrs.value.parts.Keys
      modifies this`parts, this`attrs, this`disk, this`batchMode
      ensures Loadable() && batchMode == old(batchMode)
      ensures r.Err? ==> disk == old(disk) && LogsRefused(key, digest, disk, path, names, r.error)
      ensures r.Ok? ==> attrs == path.attrs.value && disk == Dir(path.attrs, disk.parts, old(disk.logs))
      ensures r.Ok? ==> ReplayGives(key, old(disk), path, names, disk.parts)
                        && AllSigned(digest, old(disk), path, names, disk.parts)
    {
      var failure := ReplayLogs(names, path.logs);
      if failure.Some? {
        return Err(failure.value);
      }
      assert Visible(Base) == HasBase(disk);
      FinalizedGives(key, disk, path, names, parts.Keys, Current());
      ghost var was, ps := disk, WhenFinalized();
      failure := Adopt(path.attrs.value);
      if failure.Some? {
        assert SomeUnsigned(digest, was, path, names, ps, failure.value);
        UnsignedRefused(key, digest, was, path, names, ps, failure.value);
        return Err(failure.value);
      }
      r := Ok(());
    }

    method CopyParts(names: set<PartName>, files: PartFiles) returns (failure: Option<CatalogError>)
      requires Loadable() && forall n :: n in files ==> NoEmpty(files[n].data)
      modifies this`disk
      ensures Loadable() && disk == old(disk).(parts := disk.parts)
      ensures failure.Some? <==> !(names <= files.Keys)
      ensures failure.Some? ==> failure.value.MissingPartFile? && failure.value.part in names - files.Keys
      ensures failure.Some? ==> exists done :: done <= names && disk.parts == old(disk.parts) + OnlyIn(files, done)
      ensures failure.None? ==> disk.parts == old(disk.parts) + OnlyIn(files, names)
    {
      failure := None;
      var todo := names;
      ghost var was, done: set<PartName> := disk, {};
      OnlyInEnds(was.parts, files);
      while todo != {}
        invariant done + todo == names && done <= files.Keys && failure.None?
        invariant disk == was.(parts := was.parts + OnlyIn(files, done))
        decreases todo
      {
        var n :| n in todo;
        if n !in files {
          CleanMore(attrs, was.parts, files, done, parts);
          return Some(MissingPartFile(n));
        }
        OnlyInOneMore(was.parts, files, done, n);
        disk := disk.(parts := disk.parts[n := files[n]]);
        todo, done := todo - {n}, done + {n};
      }
      assert done == names;
      CleanMore(attrs, was.parts, files, done, parts);
    }

    method ApplyWhole(names: set<PartName>, path: Dir) returns (r: Result<(), CatalogError>)
      requires Valid() && parts == map[] && updates == map[] && disk.attrs == Some(attrs)
      requires CleanDir(path) && path.attrs.Some? && attrs.parts.Keys <= path.attrs.value.parts.Keys
      modifies this`parts, this`attrs, this`disk
      ensures Loadable()
      ensures r.Err? ==> disk == old(disk).(parts := disk.parts)
                         && CopiesRefused(key, digest, old(disk), path, names, disk.parts, r.error)
      ensures r.Ok? ==>
                names <= path.parts.Keys && attrs == path.attrs.value
                && disk == Dir(path.attrs, disk.parts, old(disk.logs))
      ensures r.Ok? ==>
                BaseSigned(key, digest, old(disk), path, names) && CopiedOver(key, old(disk), path, names, disk.parts)
    {
      ghost var was := disk;
      var failure := CopyWhole(names, path);
      if failure.Some? {
        return Err(failure.value);
      }
      failure := Adopt(path.attrs.value);
      CopiedPartsAre(key, was, path, names);
      r := if failure.Some? then Err(failure.value) else Ok(());
    }

    method CopyWhole(names: set<PartName>, path: Dir) returns (failure: Option<CatalogError>)
      requires Valid() && parts == map[] && updates == map[] && disk.attrs == Some(attrs) && CleanDir(path)
      modifies this`disk
      ensures Loadable() && disk == old(disk).(parts := disk.parts)
      ensures failure.Some? <==> !(names <= path.parts.Keys)
      ensures failure.Some? ==> failure.value.MissingPartFile? && failure.value.part in names - path.parts.Keys
      ensures failure.Some? ==> exists done :: done <= names && disk.parts == old(disk.parts) + OnlyIn(path.parts, done)
      ensures failure.None? ==> disk.parts == old(disk.parts) + OnlyIn(path.parts, names)
      ensures failure.None? ==> WhenFinalized() == CopiedParts(key, old(disk), path, names)
                                && (Visible(Base) <==> Base in attrs.parts && Base in WhenFinalized())
    {
      failure := CopyParts(names, path.parts);
      assert Current() == disk.parts;
    }

    /** Bring a freshly opened catalog up to date from the files in another directory. */
    method ApplyUpdates(path: Dir) returns (r: Result<(), CatalogError>)
      requires Valid() && parts == map[] && updates == map[] && disk.attrs == Some(attrs) && CleanDir(path)
      modifies this`parts, this`attrs, this`disk, this`batchMode
      ensures Loadable() && batchMode == old(batchMode)
      ensures Sync(key, digest, old(disk), path, disk, r)
      ensures r.Ok? ==> disk.attrs == Some(attrs)
    {
      var needed := GetUpdatesNeeded(attrs, path.attrs);
      if needed.Err? {
        return Err(needed.error);
      }
      match needed.value
      case NothingChanged =>
        r := Ok(());
      case UpdateLogs(names) =>
        r := ApplyIncremental(names, path);
      case WholeParts(names) =>
        r := ApplyWhole(names, path);
      assert SyncWith(key, digest, old(disk), path, needed, disk, r);
    }
  }

  /** Do to one part what an update says. */
  method ApplyTo(part: CatalogPart, u: Update) returns (failure: Option<CatalogError>)
    requires NoEmpty(part.data) && !part.ordered && part.name in u.parts
    modifies part
    ensures NoEmpty(part.data)
    ensures failure.Some? <==> (u.kind.Add? <==> Contains(old(part.data), u.fmri))
    ensures failure.Some? ==> failure.value == RefusalOf(u.fmri.pub, u.fmri.stem, ChangeOf(u, part.name))
    ensures failure.None? ==>
              part.data == Edit(part.key, false, u.kind, old(part.data), u.fmri, ChangeOf(u, part.name).entry)
  {
    match u.kind
    case Add =>
      var added := part.Add(u.fmri, u.parts[part.name], u.time);
      failure := if added.Err? then Some(added.error) else None;
    case Remove =>
      var removed := part.Remove(u.fmri, u.time);
      failure := if removed.Err? then Some(removed.error) else None;
  }

  ghost predicate GroupsByLocale(entries: map<PartName, Entry>, groups: map<string, map<PartName, Entry>>) {
    groups.Keys == Locales(entries) && forall l :: l in groups ==> groups[l] == Restrict(entries, l)
  }

  lemma NoneRestricted(entries: map<PartName, Entry>, l: string)
    requires l !in Locales(entries)
    ensures Restrict(entries, l) == map[]
  {
    forall m | m in entries
      ensures LocaleOf(m) != l
    {
      assert LocaleOf(m) in Locales(entries);
    }
  }

  lemma GroupOneMore(entries: map<PartName, Entry>, groups: map<string, map<PartName, Entry>>, n: PartName, e: Entry)
    requires n !in entries && GroupsByLocale(entries, groups)
    ensures var l := LocaleOf(n);
            GroupsByLocale(entries[n := e], groups[l := (if l in groups then groups[l] else map[])[n := e]])
  {
    var l := LocaleOf(n);
    if l !in groups {
      NoneRestricted(entries, l);
    }
    RestrictOneMore(entries, n, e);
  }

  /** Sort an operation's entries by the locale of their parts. */
  method GroupByLocale(entries: map<PartName, Entry>) returns (groups: map<string, map<PartName, Entry>>)
    ensures groups.Keys == Locales(entries)
    ensures forall l :: l in groups ==> groups[l] == Restrict(entries, l)
  {
    groups := map[];
    var todo := entries.Keys;
    ghost var done: map<PartName, Entry> := map[];
    while todo != {}
      invariant todo <= entries.Keys && done.Keys == entries.Keys - todo
      invariant forall n :: n in done ==> done[n] == entries[n]
      invariant GroupsByLocale(done, groups)
      decreases todo
    {
      var n :| n in todo;
      var l := LocaleOf(n);
      GroupOneMore(done, groups, n, entries[n]);
      if l !in groups {
        groups := groups[l := map[]];
      }
      groups := groups[l := groups[l][n := entries[n]]];
      todo, done := todo - {n}, done[n := entries[n]];
    }
    assert done == entries;
  }
}
