/** What a catalog directory holds, what one operation and one save make of a server catalog, and
    what a client asks for and does when it brings its copy up to date: the relations that the
    Catalog class is proved against. */
module Protocol {
  import opened CatalogParts
  import opened CatalogUpdates
  import opened History
  import opened NestedLists
  import opened VersionLists
  import opened Wrappers
  import Strings

  /** The signature of a part: a digest of its data as text. */
  type Digest = Entries -> string

  datatype PartAttr = PartAttr(lastModified: int, signature: Option<string>)

  datatype Attrs = Attrs(created: int, lastModified: int, packageCount: nat, versionCount: nat,
                         parts: map<PartName, PartAttr>, updates: map<LogName, int>)

  datatype PartFile = PartFile(data: Entries, lastModified: int)

  datatype LogFile = LogFile(data: Nested<LogEntry>, lastModified: int)

  type PartFiles = map<PartName, PartFile>
  type LogFiles = map<LogName, LogFile>

  /** A catalog directory. */
  datatype Dir = Dir(attrs: Option<Attrs>, parts: PartFiles, logs: LogFiles)

  /** A catalog in memory, on top of its directory; signatures are left to the save. */
  datatype View = View(created: int, lastModified: int, packageCount: nat, versionCount: nat,
                       partTimes: map<PartName, int>, logTimes: map<LogName, int>,
                       parts: PartFiles, logs: LogFiles)

  function PartTimes(a: Attrs): map<PartName, int> {
    map n | n in a.parts :: a.parts[n].lastModified
  }

  /** A part name must be a plain file name. */
  predicate WellFormed(n: PartName) {
    n.Summary? ==> '/' !in n.locale
  }

  // ----- Server operations

  function DataOf(ps: PartFiles, n: PartName): Entries {
    if n in ps then ps[n].data else map[]
  }

  /** One list after one accepted operation. */
  function Changed(key: VersionKey, ordered: bool, kind: Kind, l: seq<Entry>, e: Entry): seq<Entry> {
    match kind
    case Add => if ordered then StableSort(key, l + [e]) else l + [e]
    case Remove => Delete(l, e.version)
  }

  function Edit(key: VersionKey, ordered: bool, kind: Kind, d: Entries, f: Fmri, e: Entry): Entries {
    Put(d, f.pub, f.stem, Changed(key, ordered, kind, ListAt(d, f.pub, f.stem), e))
  }

  /** The parts after an operation on f that handled these entries. */
  function Touch(key: VersionKey, ordered: bool, ps: PartFiles, op: Op): PartFiles {
    map n | n in ps.Keys + op.parts.Keys ::
      if n in op.parts
      then PartFile(Edit(key, ordered, op.kind, DataOf(ps, n), op.fmri, op.parts[n]), op.time)
      else ps[n]
  }

  function LogDataOf(ls: LogFiles, n: LogName): Nested<LogEntry> {
    if n in ls then ls[n].data else map[]
  }

  function Locales(parts: map<PartName, Entry>): set<string> {
    set n | n in parts :: LocaleOf(n)
  }

  function LogNamesOf(time: int, locales: set<string>): set<LogName> {
    set l | l in locales :: LogName(Hour(time), l)
  }

  function LogsFor(op: Op): set<LogName> {
    LogNamesOf(op.time, Locales(op.parts))
  }

  function Append(d: Nested<LogEntry>, op: Op, locale: string): Nested<LogEntry> {
    Put(d, op.fmri.pub, op.fmri.stem,
        ListAt(d, op.fmri.pub, op.fmri.stem)
          + [LogEntry(op.kind, op.time, op.fmri.version, Restrict(op.parts, locale))])
  }

  /** The logs after an operation was logged in some of them. */
  function LogIn(ls: LogFiles, op: Op, names: set<LogName>): LogFiles {
    map n | n in ls.Keys + names ::
      if n in names then LogFile(Append(LogDataOf(ls, n), op, n.locale), op.time) else ls[n]
  }

  /** The logs after an operation. */
  function Log(ls: LogFiles, op: Op): LogFiles {
    LogIn(ls, op, LogsFor(op))
  }

  /** The named entries get time t. */
  function Stamp<K>(times: map<K, int>, names: set<K>, t: int): map<K, int> {
    map n | n in times.Keys + names :: if n in names then t else times[n]
  }

  /** An accepted operation on a catalog that logs updates and keeps its lists sorted. */
  ghost function Commit(key: VersionKey, v: View, op: Op): View {
    var ps := Touch(key, true, v.parts, op);
    View(v.created, op.time, |Packages(DataOf(ps, Base))|, |Slots(DataOf(ps, Base))|,
         Stamp(v.partTimes, op.parts.Keys, op.time), Stamp(v.logTimes, LogsFor(op), op.time),
         ps, Log(v.logs, op))
  }

  /** What saving a server catalog writes. */
  function Published(digest: Digest, v: View): Dir
    requires v.partTimes.Keys <= v.parts.Keys
  {
    Dir(Some(Attrs(v.created, v.lastModified, v.packageCount, v.versionCount,
                   map n | n in v.partTimes :: PartAttr(v.partTimes[n], Some(digest(v.parts[n].data))),
                   v.logTimes)),
        v.parts, v.logs)
  }

  /** Every part lists only package versions that the base part lists. */
  ghost predicate BaseCovers(ps: PartFiles) {
    forall n, f :: n in ps && Contains(ps[n].data, f) ==> Contains(DataOf(ps, Base), f)
  }

  // ----- What a client needs

  datatype Answer = NothingChanged | WholeParts(parts: set<PartName>) | UpdateLogs(names: seq<LogName>)

  predicate LogLess(a: LogName, b: LogName) {
    a.hour < b.hour || (a.hour == b.hour && Strings.Less(a.locale, b.locale))
  }

  ghost predicate Ascending(names: seq<LogName>) {
    forall i, j :: 0 <= i < j < |names| ==> LogLess(names[i], names[j])
  }

  function ChangedParts(old_: Attrs, new_: Attrs): set<PartName> {
    set n | n in old_.parts && n in new_.parts && old_.parts[n].lastModified < new_.parts[n].lastModified
  }

  function LocalesOf(ns: set<PartName>): set<string> {
    set n | n in ns :: LocaleOf(n)
  }

  /** Parts the client does not know yet, of the locales it cares about. */
  function NewParts(old_: Attrs, new_: Attrs): set<PartName> {
    set n | n in new_.parts && n !in old_.parts && LocaleOf(n) in {"C"} + LocalesOf(ChangedParts(old_, new_))
  }

  /** An update log of the hour in which part n last changed for the client. */
  function BoundaryLog(old_: Attrs, n: PartName): LogName
    requires n in old_.parts
  {
    LogName(Hour(old_.parts[n].lastModified), LocaleOf(n))
  }

  predicate Incremental(old_: Attrs, new_: Attrs) {
    && NewParts(old_, new_) == {}
    && forall n :: n in ChangedParts(old_, new_) ==> BoundaryLog(old_, n) in new_.updates
  }

  /** A log is needed when it changed after every changed part of its locale had last changed. */
  ghost predicate LogNeeded(old_: Attrs, new_: Attrs, l: LogName) {
    && l in new_.updates
    && l.locale in LocalesOf(ChangedParts(old_, new_))
    && forall n :: n in ChangedParts(old_, new_) && LocaleOf(n) == l.locale ==>
         old_.parts[n].lastModified < new_.updates[l]
  }

  ghost predicate PartMissing(old_: Attrs, new_: Attrs) {
    exists n :: n in old_.parts && n !in new_.parts
  }

  ghost predicate PartOlder(old_: Attrs, new_: Attrs) {
    exists n :: n in old_.parts && n in new_.parts && new_.parts[n].lastModified < old_.parts[n].lastModified
  }

  /** The answer to "what has to be retrieved", from the attributes of the two catalogs alone. */
  ghost predicate Needed(old_: Attrs, offered: Option<Attrs>, r: Result<Answer, CatalogError>) {
    match offered
    case None => r == Ok(NothingChanged)
    case Some(new_) =>
      if old_.created != new_.created then r == Err(BadCatalogUpdateIdentity)
      else if old_.lastModified == new_.lastModified then r == Ok(NothingChanged)
      else if PartMissing(old_, new_) || PartOlder(old_, new_) then
        && r.Err?
        && (|| (r.error == BadCatalogUpdateIdentity && PartMissing(old_, new_))
            || (r.error == ObsoleteCatalogUpdate && PartOlder(old_, new_)))
      else if !Incremental(old_, new_) || ChangedParts(old_, new_) == {} then
        r == Ok(WholeParts(ChangedParts(old_, new_) + NewParts(old_, new_)))
      else
        && r.Ok? && r.value.UpdateLogs?
        && Ascending(r.value.names)
        && forall l :: l in r.value.names <==> LogNeeded(old_, new_, l)
  }

  // ----- What a client does with it

  /** The lists of one stem in the named logs. */
  ghost function StemLogs(logs: LogFiles, names: seq<LogName>, pub: Publisher, stem: string): seq<seq<LogEntry>> {
    if names == [] then []
    else StemLogs(logs, names[..|names| - 1], pub, stem) + [ListAt(LogDataOf(logs, names[|names| - 1]), pub, stem)]
  }

  /** The unseen changes of one list. */
  ghost function Pending(logs: LogFiles, names: seq<LogName>, n: PartName, after: int, pub: Publisher,
                         stem: string): seq<Change>
  {
    LogsChanges(StemLogs(logs, names, pub, stem), n, after)
  }

  /** d' is the part data d after replaying the logs: each list run through its own unseen
      changes and, if finalizing gets to sort, sorted at the end; a part without unseen changes may
      also be left alone. */
  ghost predicate Replayed(key: VersionKey, sorts: bool, logs: LogFiles, names: seq<LogName>, n: PartName, after: int,
                           d: Entries, d': Entries)
  {
    NoEmpty(d') && (Untouched(logs, names, n, after, d, d') || RunThrough(key, sorts, logs, names, n, after, d, d'))
  }

  ghost predicate Untouched(logs: LogFiles, names: seq<LogName>, n: PartName, after: int, d: Entries, d': Entries) {
    d' == d && forall p: Publisher, s: string :: Pending(logs, names, n, after, p, s) == []
  }

  ghost predicate RunThrough(key: VersionKey, sorts: bool, logs: LogFiles, names: seq<LogName>, n: PartName, after: int,
                             d: Entries, d': Entries)
  {
    forall p: Publisher, s: string ::
      var r := Run(key, false, ListAt(d, p, s), Pending(logs, names, n, after, p, s));
      r.Some? && ListAt(d', p, s) == if sorts then StableSort(key, r.value) else r.value
  }

  /** Some list rejects one of its changes. */
  ghost predicate ReplayFails(key: VersionKey, logs: LogFiles, names: seq<LogName>, n: PartName, after: int, d: Entries)
  {
    exists p: Publisher, s: string :: Run(key, false, ListAt(d, p, s), Pending(logs, names, n, after, p, s)).None?
  }

  /** The list takes the changes before change k, and rejects that one. */
  ghost predicate RejectsAt(key: VersionKey, l: seq<Entry>, cs: seq<Change>, k: nat) {
    k < |cs| && Run(key, false, l, cs[..k]).Some? && Run(key, false, l, cs[..k + 1]).None?
  }

  /** The error of a change that is rejected. */
  function RefusalOf(pub: Publisher, stem: string, c: Change): CatalogError {
    var f := Fmri(pub, stem, c.entry.version);
    if c.kind.Add? then DuplicateCatalogEntry(f) else UnknownCatalogEntry(f)
  }

  /** Some list rejects one of its changes with error e. */
  ghost predicate ReplayRejects(key: VersionKey, logs: LogFiles, names: seq<LogName>, n: PartName, after: int,
                                d: Entries, e: CatalogError)
  {
    exists p: Publisher, s: string, k: nat ::
      && RejectsAt(key, ListAt(d, p, s), Pending(logs, names, n, after, p, s), k)
      && e == RefusalOf(p, s, Pending(logs, names, n, after, p, s)[k])
  }

  /** Something in the log is about part n. */
  ghost predicate LogNames(logs: LogFiles, l: LogName, n: PartName) {
    exists p: Publisher, s: string, e :: e in ListAt(LogDataOf(logs, l), p, s) && n in e.parts
  }

  ghost predicate Named(logs: LogFiles, names: seq<LogName>, n: PartName) {
    exists l :: l in names && LogNames(logs, l, n)
  }

  predicate SignatureHolds(digest: Digest, attrs: Attrs, n: PartName, d: Entries) {
    n in attrs.parts && attrs.parts[n].signature in {None, Some(digest(d))}
  }

  /** Finalizing sorts the parts in memory, provided there is a base part. */
  predicate HasBase(c: Dir) {
    c.attrs.Some? && Base in c.attrs.value.parts && Base in c.parts
  }

  /** Bringing a freshly opened client directory c up to date from the directory s gives c'. */
  ghost predicate Sync(key: VersionKey, digest: Digest, c: Dir, s: Dir, c': Dir, r: Result<(), CatalogError>)
    requires c.attrs.Some?
  {
    exists a :: Needed(c.attrs.value, s.attrs, a) && SyncWith(key, digest, c, s, a, c', r)
  }

  ghost predicate SyncWith(key: VersionKey, digest: Digest, c: Dir, s: Dir, a: Result<Answer, CatalogError>,
                           c': Dir, r: Result<(), CatalogError>)
    requires c.attrs.Some? && Needed(c.attrs.value, s.attrs, a)
  {
    match a
    case Err(e) => r == Err(e) && c' == c
    case Ok(NothingChanged) => r == Ok(()) && c' == c
    case Ok(UpdateLogs(names)) =>
      && (r.Err? ==> c' == c && LogsRefused(key, digest, c, s, names, r.error))
      && (r.Ok? ==>
            && c'.attrs == s.attrs && c'.logs == c.logs && c'.parts.Keys == c.parts.Keys
            && forall n :: n in c.parts && n in c.attrs.value.parts ==>
                 && Replayed(key, HasBase(c), s.logs, names, n, c.attrs.value.parts[n].lastModified,
                             c.parts[n].data, c'.parts[n].data)
                 && if Checked(c, s, names, n)
                    then s.attrs.Some? && SignatureHolds(digest, s.attrs.value, n, c'.parts[n].data)
                    else c'.parts[n] == c.parts[n])
    case Ok(WholeParts(names)) =>
      && (r.Err? ==>
          c'.attrs == c.attrs && c'.logs == c.logs && CopiesRefused(key, digest, c, s, names, c'.parts, r.error))
      && (r.Ok? ==>
            && names <= s.parts.Keys && BaseSigned(key, digest, c, s, names)
            && c'.attrs == s.attrs && c'.logs == c.logs && CopiedOver(key, c, s, names, c'.parts))
  }

  function OnlyIn<K, V>(m: map<K, V>, names: set<K>): map<K, V> {
    map n | n in m && n in names :: m[n]
  }

  // ----- Whole parts

  /** The named parts are those of s, the others as they were; a base part that is known is sorted. */
  ghost predicate CopiedOver(key: VersionKey, c: Dir, s: Dir, names: set<PartName>, ps: PartFiles)
    requires c.attrs.Some? && names <= s.parts.Keys
  {
    && ps.Keys == c.parts.Keys + names
    && forall n :: n in ps ==>
         var file := if n in names then s.parts[n] else c.parts[n];
         ps[n] == if n == Base && Base in c.attrs.value.parts then file.(data := SortAll(key, file.data)) else file
  }

  /** A full update that fails has copied parts already: those before the first that is not there, or
      all of them, but the base part is not the one offered. */
  ghost predicate CopiesRefused(key: VersionKey, digest: Digest, c: Dir, s: Dir, names: set<PartName>, ps: PartFiles,
                                e: CatalogError)
    requires c.attrs.Some?
  {
    if names <= s.parts.Keys then
      && ps == c.parts + OnlyIn(s.parts, names)
      && !BaseSigned(key, digest, c, s, names) && e == BadCatalogSignatures(Base)
    else
      && (exists done :: done <= names && ps == c.parts + OnlyIn(s.parts, done))
      && e.MissingPartFile? && e.part in names && e.part !in s.parts
  }

  /** The base part is the one that finalizing loads, sorts and checks after a full update. */
  ghost predicate BaseSigned(key: VersionKey, digest: Digest, c: Dir, s: Dir, names: set<PartName>)
    requires c.attrs.Some? && names <= s.parts.Keys
  {
    Base in c.attrs.value.parts && (Base in names || Base in c.parts) ==>
      && s.attrs.Some?
      && SignatureHolds(digest, s.attrs.value, Base,
                        SortAll(key, if Base in names then s.parts[Base].data else c.parts[Base].data))
  }

  // ----- Update logs

  /** The parts that are in memory when the signatures are checked: those that something in the named
      logs is about, seen or not, and the base part. */
  ghost predicate Checked(c: Dir, s: Dir, names: seq<LogName>, n: PartName) {
    Named(s.logs, names, n) || (n == Base && HasBase(c))
  }

  ghost predicate HasUnseen(logs: LogFiles, names: seq<LogName>, n: PartName, after: int) {
    exists p: Publisher, s: string :: Pending(logs, names, n, after, p, s) != []
  }

  /** Some list rejects a change; or none does, and the result is not what was signed. */
  ghost predicate LogsRefused(key: VersionKey, digest: Digest, c: Dir, s: Dir, names: seq<LogName>, e: CatalogError)
    requires c.attrs.Some?
  {
    || SyncLogsReject(key, c, s, names, e)
    || (!SyncLogsFail(key, c, s, names) && SyncLogsUnsigned(key, digest, c, s, names, e))
  }

  /** Some list rejects one of its changes.  A log that is not there reads as empty. */
  ghost predicate SyncLogsFail(key: VersionKey, c: Dir, s: Dir, names: seq<LogName>)
    requires c.attrs.Some?
  {
    exists n :: n in c.parts && n in c.attrs.value.parts
                && ReplayFails(key, s.logs, names, n, c.attrs.value.parts[n].lastModified, c.parts[n].data)
  }

  ghost predicate SyncLogsReject(key: VersionKey, c: Dir, s: Dir, names: seq<LogName>, e: CatalogError)
    requires c.attrs.Some?
  {
    exists n :: n in c.parts && n in c.attrs.value.parts
                && ReplayRejects(key, s.logs, names, n, c.attrs.value.parts[n].lastModified, c.parts[n].data, e)
  }

  /** Some part that is checked, replayed, does not have the signature offered. */
  ghost predicate SyncLogsUnsigned(key: VersionKey, digest: Digest, c: Dir, s: Dir, names: seq<LogName>,
                                   e: CatalogError)
    requires c.attrs.Some?
  {
    s.attrs.Some? &&
    exists n, d :: n in c.parts && n in c.attrs.value.parts && Checked(c, s, names, n)
                   && Replayed(key, HasBase(c), s.logs, names, n, c.attrs.value.parts[n].lastModified,
                               c.parts[n].data, d)
                   && !SignatureHolds(digest, s.attrs.value, n, d) && e == BadCatalogSignatures(n)
  }
}
