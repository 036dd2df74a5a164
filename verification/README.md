# A verified model of the package catalog

A package repository publishes a *catalog*: a base part that lists every package version, a dependency
part, and one summary part per locale. Each part maps publisher, then package stem, to a list of entries
sorted by version. A server adds and removes packages, saves the catalog, and writes every operation to an
update log for the hour and the locale as well. A client keeps a copy. From the attributes of its own and of
the server's catalog it decides whether it needs nothing, some update logs, or whole parts; update logs are
replayed part by part, skipping what the part has seen already. This project models that catalog and its
update protocol, and the smaller algorithms around it, and proves what they are for.

**The catalog** (`src/modules/catalog.py`). The classes `CatalogPart`, `CatalogUpdate`, `Catalog` and
`JsonWriter` have the fields of the originals and update them; dictionaries are maps and may be iterated in any
order. What their methods compute is stated by the functions and relations of `Protocol` (one operation, one save, one
request, one sync). `Replication` and `Synchronization` prove what these relations keep, over histories of
operations; `Runs` turns that into theorems about every run of a server and a client; `Servers` shows that
the methods of the class are the steps of such a run. `Coverage` says what the parts owe to each other, in and out
of batch mode, `Expiry` which update logs a server may drop, and `Integrity` how a sync between any two directories
can end and what the signatures then guarantee. `SmallRuns` holds runs that are short enough to be written down, and
`Reading` reads back what was stored of a package.

**Around it**: `Actions` (what of a manifest is stored in which part, and the slower path that regenerates it),
`Batch` (postponed sorting), `Merging` and `Appending` (one catalog appended to another), `Signing` and `Json` (the
signature put into a file after its digest was taken), `Timestamps`, `PackageNames`, `Selection` (choosing packages by
patterns), `Dependencies` and `Cloning` (`src/pull.py`), `Quoting` (`src/modules/_misc.c`) and `Varcets`
(`src/modules/_varcet.c`).

`dafny verify dfyconfig.toml` checks everything.

## Main results

- In every state of every run each part a client holds is the server's part as of the client's recorded time
  (`Runs.ClientIsAPastServer`), and a sync succeeds and brings it to what the server last saved
  (`Runs.SyncReachesPresent`). The class method that syncs does just that (`Servers.Update`).
  In some of these runs a client falls behind and catches up by reading one update log
  (`SmallRuns.CatchesUpByReading`).
- Log selection misses nothing (`Synchronization.SelectionComplete`), regrouping by stem changes nothing
  (`History.ReplayFindsAll`), and replay meets no duplicate and no unknown entry
  (`Synchronization.ReplayNeverFails`).
- Between any two directories, whatever they hold: replaying logs ends with a rejected change exactly when some part
  has no replay, and otherwise with a wrong signature or well (`Integrity.RejectedExactly`); which parts are sure to
  have the signature offered is known exactly (`Integrity.SignedExactly`).
- A server may drop update logs, oldest first, exactly when no client at any earlier point and no operations to come
  can make a sync read logs that lack something (`Expiry.DropIsSafeExactly`).
- No part lists a package that the base part lacks: every operation of the class keeps that, refused ones, batch mode
  and failed appends included (`Catalogs.Catalog.AddPackage`, `Catalogs.Catalog.RemovePackage`, `Batch.RunCoheres`,
  `Merging.AppendCoheres`).
- Batch mode gives the same parts as sorting after each operation, ties included
  (`Batch.BatchRefinesPerOperation`).
- What is read of a package that was added to a coherent catalog is what its manifest holds, told by the names of the
  attributes (`Reading.AddAndRead`).
- Catalog files are JSON: the printed text and the spliced one derive their value in the grammar of RFC 8259
  (`Json.PrintIs`, `Signing.JsonWriter.Save`), and the parser reads exactly the texts without white space that
  derive one (`Json.ParseExactly`).

## Where the code does not do what one might expect

Each of these is a lemma or part of a contract, with the condition under which it happens.

- A server must not drop an update log of an hour that is not over when a client may have read half of what is newer
  for a part: the next operation starts the log anew, the client is told that this log suffices, and no replay of it
  gives the server's part (`Expiry.DropLoses`). Two packages added within an hour are enough
  (`SmallRuns.TooEarlyForTwo`, with `SmallRuns.SuchOperations`). Once the clock has left the hour of the last operation
  everything may go, oldest first (`Expiry.QuietHoursMayGo`), and so may a log whose locale has no part touched twice in
  an hour that is not over (`Expiry.TouchedOnceMayGo`); after two operations on the same parts in such an hour it may
  not (`Expiry.TouchedTwiceMustStay`). The protocol theorems let a server drop logs under the exact condition.
- The client notices such a loss, unless the digests of two different parts are equal, but not always by the signature:
  when some part has no replay the error is a duplicate or an unknown entry, else it is that of the signature
  (`Expiry.LosingIsRefused`). For all these errors but one `src/modules/client/publisher.py:2623-2683` fetches
  everything anew. The one is the unknown entry: a log that holds only the removal of the package that was missed ends
  the sync with it (`SmallRuns.RemovalIsUnknown`), and the refresh fails.
- `apply_updates` says that it verifies all updated parts (`src/modules/catalog.py:2382`), but it looks only at those
  in memory. After a replay these are the base part and the parts that something in the logs is about. After a full
  update of a freshly opened catalog it is the base part alone, and not even that when the old attributes do not list
  it; dependency and summary parts are copied unchecked. For any attributes, a part that the client's attributes list
  or that is copied is sure to have the signature offered if and only if none is offered for it or it is one of these
  (`Integrity.SignedExactly`). The method of the class does what these statements are about
  (`Catalogs.Catalog.ApplyUpdates`).
- A full update copies before it checks, so one that fails leaves new parts under the old attributes. As long as the
  offering catalog is the same, the next update is a full one again that replaces at least those parts
  (`Integrity.FullAgain`), and it can do exactly what it could have done without the failure
  (`Integrity.RetryIsUnharmed`).
- A locale with a slash makes `add_package` fail after the base part has been changed: a refused add leaves
  everything as it was if and only if the base part lists the package already (`Catalogs.Catalog.AddPackage`,
  `Outcomes.SlashLocaleHalfDone`).
- `remove_package` raises no error for an unknown package when the catalog lists no base part
  (`Catalogs.Catalog.RemovePackage`).
- Stored and regenerated actions differ for `pkg.legacy` when only one of dependency and summary data is
  wanted, for summary data without a locale when "C" is not wanted, and for excluded variants and facets
  (`Actions.StoredAgreesExactly`). A catalog that has stored nothing for a request reads the manifest instead, so it
  agrees with the manifest exactly when nothing is stored or there are no such actions
  (`Actions.ReadBackAgreesExactly`). The comment that the two paths are in step holds for the default request.
- Patterns are deduplicated by a text that does not tell an exact pattern from a suffix pattern. The order in which
  they are given decides about a package exactly when some pattern accepts it but no text as a whole does
  (`Selection.OrderDecidesExactly`); about no package when no two patterns of one text are read differently
  (`Selection.OneReadingIsOrderFree`); and for one text, about some package exactly when the text is given in both
  readings (`Selection.OneTextDecides`).
- Package versions that differ only in the build release are equal as objects (`src/modules/version.py:418`,
  `src/modules/fmri.py:430`) but are different entries of a catalog. A recursive retrieval takes the one for the other.
  It finds the least closed set whatever the manifests exactly when no package asked for is tied to another one asked
  for, or to another one that some dependency resolves to (`Dependencies.TieFreeExactly`, with
  `Dependencies.TiedVersionsMissed` where it is not). A clone lists what the source lists exactly when its catalog was
  replaced or listed that already, so without ties in any case (`Cloning.ClonedExactly`); with ties, two different
  catalogs can pass for clones (`Cloning.TiedStaysDifferent`). Appending with a callback leaves an accepted package out
  of the other parts exactly when a tied one is discarded (`Merging.TakenTogetherExactly`).
- `_allow_facet` treats a list of values as any value other than "all", although its comment says that such an action is
  not allowed (`Varcets.ListsAreNotRefused`). A variant that the image does not have allows an action when its
  value starts with "false".
- `clone_repo` copies the catalogs of unmodified publishers once packages were removed from an earlier one and
  leaves their backups behind; and a publisher whose source catalog is empty gets no catalog back when
  verification fails (`Cloning.Repository.CloneRepo`). Its message that the original catalog has been restored is true
  of a modified publisher exactly when no packages had to be removed from it (`Cloning.RestoredExactly`).
- `expand_fmri` ignores the publisher that a dependency names (`Dependencies.PublisherIgnored`). The package is that
  publisher's exactly when it is the first to list the last version that satisfies the dependency, of all publishers'
  (`Dependencies.NamedPublisherExactly`).

## Model

| member | source | states |
|---|---|---|
| `VersionLists.StableSortCorrect` | src/modules/catalog.py:836-889 | Sorting a version list orders it by version, keeps every entry, and keeps entries whose versions tie in their order |
| `VersionLists.StableSortUnique` | src/modules/catalog.py:836-889 | These properties determine the result: it is the only sorted list that agrees with the input on the entries of every key |
| `VersionLists.SortThenAppend` | src/modules/catalog.py:488-491 | A sort before an append does not change what the sort after it gives |
| `VersionLists.SortDelete` | src/modules/catalog.py:797-812 | Deleting by version string and sorting commute, also among ties |
| `VersionLists.BatchRefinesOrdered` | src/modules/catalog.py:475-491 | For any run of adds and removes on a sorted list, sorting once at the end is rejected exactly when sorting after each add is, and else gives the same list |
| `VersionLists.RunKeepsSortedDistinct` | src/modules/catalog.py:475-491 | Every list reached by accepted operations stays sorted and without repeated version strings |
| `NestedLists.Extensional` | src/modules/catalog.py:472-497 | Nested lists without empty leftovers are equal when all their lists are |
| `NestedLists.PutsCommute` | src/modules/catalog.py:1108-1111 | Edits of different stems or publishers can be done in either order |
| `CatalogParts.CatalogPart.Add` | src/modules/catalog.py:434-497 | Refused exactly when the version string is listed and duplicates are checked for, with nothing changed; else one list gets the entry, sorted if the part is ordered, and no list is left empty |
| `CatalogParts.CatalogPart.Remove` | src/modules/catalog.py:784-819 | Refused exactly when the version is not listed, with nothing changed; else the entry goes, and an empty stem or publisher with it |
| `CatalogParts.CatalogPart.Sort` | src/modules/catalog.py:836-889 | Sorts the lists of the given stems, or of the given publishers or all of them, and touches no other list |
| `CatalogParts.CatalogPart.GetEntry` | src/modules/catalog.py:638-662 | Finds the first entry of the version, and one exactly when the part lists one |
| `CatalogParts.CatalogPart.GetPackageCounts` | src/modules/catalog.py:677-691 | The two numbers are the sizes of the set of packages and of the set of list positions |
| `CatalogParts.SlotsAreFmris` | src/modules/catalog.py:677-691 | With distinct versions the number of entries is the number of package versions |
| `CatalogParts.SortAllLists` | src/modules/catalog.py:886-888 | Sorting everything sorts each list by itself and leaves nothing empty |
| `CatalogUpdates.CatalogUpdate.Add` | src/modules/catalog.py:996-1039 | Appends one operation to the log of its stem and leaves all others alone; the log becomes as old as the operation |
| `CatalogUpdates.CatalogUpdate.Updates` | src/modules/catalog.py:1076-1112 | Whatever the order of publishers and stems, the operations of every stem come out complete and in their order |
| `History.ReplayFindsAll` | src/modules/catalog.py:2331-2355 | Reading chronologically named logs that cover the newer changes of a part finds exactly those changes of each stem, once each and in time order |
| `History.LogsChangesAre` | src/modules/catalog.py:1108-1111 | What logs of some hours say about one stem is what the history says about it in those hours, in time order |
| `Catalogs.Catalog.constructor` | src/modules/catalog.py:1381-1445 | Opening a directory gives a catalog with the attributes there, or a new and empty one, and nothing in memory |
| `Catalogs.Catalog.GetPart` | src/modules/catalog.py:3499-3541 | A part comes from memory, else from its file, else empty; one that must exist is refused exactly when it is neither in memory nor listed and on disk |
| `Catalogs.Catalog.LogUpdate` | src/modules/catalog.py:1825-1863 | Counts are set outside batch mode; the operation is appended to the log of its hour for each locale it touched and to no other; parts in memory lose their signatures |
| `Catalogs.Catalog.Finalize` | src/modules/catalog.py:1658-1680 | With a base part, exactly the parts in memory are sorted; the recorded counts become those of the base part; coherent parts stay coherent |
| `Catalogs.Catalog.AddPackage` | src/modules/catalog.py:2156-2272 | Succeeds exactly when no part refuses its entry; a package that no part listed then has the metadata and the signatures given in its base entry, and the actions of its manifest in the entries of the other parts, each in the part it belongs to; on a settled catalog the new state is the committed operation; when refused, exactly the entries made before the refusal are there, none if and only if the base part lists the package; coherent parts stay coherent in every case |
| `CatalogSteps.MakeTargets` | src/modules/catalog.py:2168-2262 | The entries made are those of the base part and of every part that some action of the manifest goes to, each once, the base part first |
| `Catalogs.Catalog.RemovePackage` | src/modules/catalog.py:3747-3786 | Whatever the order of the parts: refused exactly when a base part is listed without the package; else every part that lists it loses it and the operation is committed; coherent parts stay coherent in either case |
| `Catalogs.Catalog.Save` | src/modules/catalog.py:1929-1972 | Writes the parts and logs as they are, signs what is in memory, and on a settled catalog publishes its state unchanged |
| `CatalogSteps.RecordedCommits` | src/modules/catalog.py:1825-1863 | Recording an operation in a settled catalog stamps exactly the touched parts and logs with its time, sets the counts, and leaves the catalog settled |
| `UpdatesNeeded.GetUpdatesNeeded` | src/modules/catalog.py:3543-3688 | The answer is an error, nothing, whole parts or logs under exactly the stated conditions; logs are in ascending order, and are those that changed after every changed part of their locale |
| `UpdatesNeeded.NewestPart` | src/modules/catalog.py:3651-3662 | The time found is the maximum over the parts that the old attributes list |
| `Catalogs.Catalog.ApplyUpdates` | src/modules/catalog.py:2317-2409 | From a freshly opened catalog: on success every part is what its own unseen changes make of it, or the part offered, has the attributes offered, and the signature offered if it is one of those checked; a replay that fails has rejected a change, with the error of that change, or found a wrong signature, and changes nothing on disk; a full update that fails has copied some of the parts and found one missing, or all of them and found the base part's signature wrong |
| `Catalogs.Catalog.ApplyLogs` | src/modules/catalog.py:2331-2355 | Replaying logs one after another brings each part exactly its unseen changes, or fails because some list rejects one |
| `ReplaySteps.StepOn` | src/modules/catalog.py:2342-2353 | An unseen update is one more change of one list of the part |
| `ReplaySteps.StepPast` | src/modules/catalog.py:2343-2348 | An update that the part has seen, or that is about other parts, contributes nothing |
| `ReplaySteps.StuckFails` | src/modules/catalog.py:2350-2355 | An update that a list rejects makes the whole replay fail |
| `Replication.CommitKeeps` | src/modules/catalog.py:1825-1863 | An accepted operation keeps every part, time, log and count what the history of operations says, and the base part covering the others |
| `Coverage.TouchCoheres` | src/modules/catalog.py:2234-2266 | An addition, what is done of one that cannot be finished, and a removal, sorted at once or in batch mode, keep every package of every part in the base part and no version listed twice |
| `Coverage.RemoveCoheres` | src/modules/catalog.py:3763-3778 | So does a removal in any order of the parts, completed or refused |
| `Coverage.EditContains` | src/modules/catalog.py:434-497 | An added package version is listed afterwards and a removed one is not; all others are as before |
| `Expiry.DropIsSafeExactly` | src/modules/catalog.py:3589-3597 | When logs may go, then for every client that stopped at any earlier point, and whatever operations follow, a sync that reads logs can get the server's parts; for logs dropped oldest first, only then |
| `Expiry.DropLoses` | src/modules/catalog.py:3589-3597 | In every other history there is such a client, and one more operation after which it is told to read logs that no replay turns into the server's part |
| `Expiry.LosingIsRefused` | src/modules/catalog.py:2331-2399 | The client's sync then ends with a duplicate or unknown entry if and only if some part has no replay, else with a wrong signature, unless the digests of two different parts are equal |
| `Expiry.TouchedOnceMayGo` | src/modules/catalog.py:3589-3597 | Oldest first, a log may go when no part of its locale was touched twice in the hour of its last operation or that hour is over by the clock |
| `Expiry.QuietHoursMayGo` | src/modules/catalog.py:3589-3597 | Once the hours of all operations are over by the clock, any logs may go, oldest first |
| `Expiry.TouchedTwiceMustStay` | src/modules/catalog.py:3589-3597 | After two operations on the same parts in an hour that is not over by the clock, their logs may not go |
| `SmallRuns.TooEarlyForTwo` | src/modules/catalog.py:2156-2272 | When any two packages of different stems are added to an empty catalog within an hour that is not over by the clock, the catalog is as of these operations, and dropping all its logs is a drop oldest first that may not be |
| `SmallRuns.RemovalIsUnknown` | src/modules/catalog.py:784-819 | A client that has seen the first of two operations, and finds a log with just the removal of the other's package, fails for an unknown entry and stays as it was |
| `SmallRuns.UndoFollows` | src/modules/catalog.py:3747-3786 | After all logs have been dropped, removing the second package is accepted, and its log then holds the removal only |
| `SmallRuns.CatchesUpByReading` | src/modules/catalog.py:3633-3688 | For any two such packages there is a run in which a client fetches after the first, is told to read just the log of the second, and has caught up by doing so |
| `Synchronization.SelectionComplete` | src/modules/catalog.py:3633-3688 | When the answer is incremental, every operation newer than a held part lies in a selected log, although the cutoff is the newest part of the locale |
| `Synchronization.PendingIsUnseen` | src/modules/catalog.py:2342-2353 | What the selected logs still hold for a list is exactly what has happened to it since |
| `Synchronization.ReplayNeverFails` | src/modules/catalog.py:2350-2355 | Replaying the selected logs over an earlier copy raises neither a duplicate nor an unknown entry |
| `Synchronization.ReplayedPart` | src/modules/catalog.py:2342-2382 | Replaying the selected logs over an earlier copy and finalizing gives exactly the server's part |
| `Synchronization.NeverRefused` | src/modules/catalog.py:3556-3588 | A client of the same server is never told that the catalog is another one or an older one |
| `Synchronization.PartUnique` | src/modules/catalog.py:2317-2409 | The history determines a part completely |
| `Synchronization.PublishedIs` | src/modules/catalog.py:1929-1972 | A saved server catalog is what its history says, with every part signed |
| `Synchronization.LogSync` | src/modules/catalog.py:2317-2409 | A sync that reads logs succeeds and leaves every held part equal to the server's |
| `Synchronization.PartSync` | src/modules/catalog.py:2317-2409 | So does a sync that copies whole parts, and it keeps all held parts |
| `Synchronization.SyncCatchesUp` | src/modules/catalog.py:2317-2409 | From any earlier state a sync succeeds, loses no part, fetches every new part of the locale "C", and leaves the client with the server's parts and time |
| `Integrity.RejectedExactly` | src/modules/catalog.py:2331-2399 | Between any two directories a sync that reads logs ends with a duplicate or unknown entry if and only if some part of the client has no replay; any other error names a checked part whose signature is wrong |
| `Integrity.SignedExactly` | src/modules/catalog.py:2382-2399 | For given attributes, logs and answer, and each part that is listed or copied: every successful sync between any directories leaves it with the signature offered if and only if none is offered, or logs are read and it is the base part or named in them, or parts are copied and it is a base part that the old attributes list |
| `Integrity.LookedAtIsThePublished` | src/modules/catalog.py:2382-2399 | Such a part is the published one if no other data has the digest of that |
| `Integrity.RetryIsUnharmed` | src/modules/catalog.py:2357-2380 | After a failed full update, a later full update of at least the same parts can succeed in exactly the ways it could have from the directory before the failure |
| `Integrity.FullAgain` | src/modules/catalog.py:3543-3688 | As long as the catalog offered is the same one and lists no old log again, a full update is followed by a full update of at least the same parts |
| `Runs.NextKeeps` | src/modules/catalog.py:1825-1863 | Every step of server or client keeps the invariant, and the history only grows |
| `Runs.ServerIsConsistent` | src/modules/catalog.py:2234-2266 | In every run: every package of a dependency or summary part is in the base part, lists are sorted and distinct, nothing is empty, counts are right |
| `Runs.ClientHoldsServerState` | src/modules/catalog.py:2317-2409 | Whenever the server was at the client's recorded time, its parts then were the client's parts now |
| `Runs.ClientIsAPastServer` | src/modules/catalog.py:2317-2409 | In every state of every run, each part a client holds is the server's part as of the client's recorded time |
| `Runs.SyncReachesPresent` | src/modules/catalog.py:2317-2409 | In every state of every run a sync succeeds and moves the client to what was saved, and to the present if that was saved just now |
| `Servers.Publish` | src/modules/catalog.py:2156-2272 | Adding to a server's catalog is a step of the run, or is refused exactly when the base part lists the package and changes nothing |
| `Servers.Withdraw` | src/modules/catalog.py:3747-3786 | Removing is a step of the run, or is refused exactly when there are parts and the package is not listed, and changes nothing |
| `Servers.Store` | src/modules/catalog.py:1929-1972 | Saving is the saving step of the run |
| `Servers.Update` | src/modules/catalog.py:2317-2409 | A sync of a client in any run succeeds, and every part it then holds is the one that was saved |
| `Servers.Reopen` | src/modules/catalog.py:1381-1445 | A server catalog opened on what it saved is in the state it was saved in |
| `Outcomes.AddRefusedExactly` | src/modules/catalog.py:2234-2266 | With plain locale names and a base part that covers the others, an add is refused exactly when the base part lists the package |
| `Outcomes.SlashLocaleHalfDone` | src/modules/catalog.py:214-217 | A locale with a slash is refused after the base entry was made |
| `Outcomes.RemoveAccepted` | src/modules/catalog.py:3763-3778 | So is a removal that took the package out of every part listing it |
| `Outcomes.AdditionUndone` | src/modules/catalog.py:784-819 | Removing a just added package gives every part its contents back |
| `Batch.BatchRefinesPerOperation` | src/modules/catalog.py:1974-1977 | Over any run of operations batch mode takes exactly the same operations, and once sorted its parts are exactly the same |
| `Batch.UntouchedStaysSorted` | src/modules/catalog.py:1672-1677 | Sorting only the parts in memory is enough |
| `Batch.RunCoheres` | src/modules/catalog.py:1974-1977 | At every point of a run, with or without batch mode, and after the sorting that ends it, every part is covered by the base part and lists no version twice |
| `Appending.Append` | src/modules/catalog.py:1481-1569 | With the callback, the publishers and the single package asked for: an unknown single package is an error, and it succeeds exactly when no version taken over is there already or occurs twice; then every list is its own entries followed by those taken over: base entries with the keys of the callback's metadata as given and all else as it was, other entries unchanged, but for packages equal to a discarded one; no other data has changed; coherent catalogs stay coherent, also on failure |
| `Merging.AppendedTakesOver` | src/modules/catalog.py:1509-1566 | List by list, exactly the entries asked for and accepted are taken over, with the metadata merged, and each version is new to its list |
| `Merging.AppendCopies` | src/modules/catalog.py:2274-2315 | Without a callback, appending to an empty catalog and sorting makes a copy, restricted to the publishers asked for |
| `Merging.AppendMerges` | src/modules/catalog.py:2274-2315 | Appending and finalizing merges sorted lists, own entries first among ties |
| `Merging.AppendCoheres` | src/modules/catalog.py:1481-1569 | At any point of appending one catalog to another, each with a base part that covers its others, the base part covers the others |
| `Merging.TakenTogetherExactly` | src/modules/catalog.py:1509-1566 | Every package is taken over by all parts that list it or by none, if and only if the callback accepts and discards no two versions that compare equal |
| `Actions.GroupActions` | src/modules/catalog.py:2168-2216 | Every action is put into the one list it belongs to, in order, and each locale that an action names has a list |
| `Actions.DependencyMeans` | src/modules/catalog.py:2169-2188 | The list for the dependency part has the manifest's depend actions and its set actions for variants, facets and the other names, as often as the manifest has them, and nothing else; the depend actions come first (`Actions.DependsFirst`) |
| `Actions.SummaryMeans` | src/modules/catalog.py:2189-2216 | The list for the summary part of a locale has the remaining set actions whose name says that locale, but for the names left out |
| `Reading.GetEntryActions` | src/modules/catalog.py:2829-2962 | An unlisted package is an error; else, in any order of the locales, the stored actions of the parts asked for that the excludes let pass, or those made of the manifest when these parts have none |
| `Reading.AddAndRead` | src/modules/catalog.py:2156-2272 | After adding a package to a coherent catalog, reading with everything asked for and nothing excluded gives its manifest's actions, told by their names, as often as the manifest has them |
| `Actions.ReadBackMeans` | src/modules/catalog.py:1683-1718 | What is read back of stored actions, told by the names of the attributes, the locales and the excludes |
| `Actions.RegeneratedMeans` | src/modules/catalog.py:1720-1780 | What is regenerated from the manifest, told in the same way |
| `Actions.ReadActions` | src/modules/catalog.py:1461-1479 | Whatever the order of the summary parts, exactly the stored actions that the excludes let pass are read back, as often as they were stored; when the parts asked for have none, those regenerated from the manifest |
| `Actions.GenLazyActions` | src/modules/catalog.py:1720-1780 | Regenerates exactly the requested actions of the manifest; asking for nothing is an error |
| `Actions.StoredAgreesExactly` | src/modules/catalog.py:1721-1722 | The two sources give the same multiset of actions if and only if the manifest has none of three kinds |
| `Actions.ReadBackAgreesExactly` | src/modules/catalog.py:1470-1479 | What is read back is what the manifest gives if and only if nothing is stored for the request or the manifest has no action of those kinds |
| `Actions.ReadBackAgrees` | src/modules/catalog.py:1720-1780 | They agree for every manifest when dependency and summary data are wanted, "C" is among the locales and nothing is excluded |
| `Signing.JsonWriter.Save` | src/modules/catalog.py:119-173 | In memory or to a file, chunk by chunk, the digest is that of the whole text before the splice; the file is a JSON text of the data with the signature as its last member, and a line feed |
| `Signing.SpliceIsPrint` | src/modules/catalog.py:155-173 | Overwriting the last two characters gives the text of an object with one more member, also for the empty object |
| `Signing.LoadSigned` | src/modules/catalog.py:288-321 | Loading a signed file gives back the data and the signature |
| `Signing.Validate` | src/modules/catalog.py:955-973 | Valid exactly when there is nothing to compare and nothing required, or the digest of the data is the one given, or else the file's own |
| `Signing.SaveAndCheck` | src/modules/catalog.py:119-173 | Saved data loads unchanged, and is valid by its own and by the reported signature, or, if it was not signed, exactly when no signature is required |
| `Json.PrintIs` | src/modules/catalog.py:104-117 | What is printed for a value is a JSON text of it, by the grammar of RFC 8259, sections 2 to 7 |
| `Json.ValueRead` | src/modules/catalog.py:288-321 | Whatever way a value is written, without white space, reading the text gives the value back and stops behind it |
| `Json.ParseExactly` | src/modules/catalog.py:288-321 | A text is read to its end as a value if and only if it is a JSON text of that value |
| `Json.ParsePrint` | src/modules/catalog.py:104-117 | Parsing a printed value gives the value back and stops behind it |
| `Signing.LoadReads` | src/modules/catalog.py:288-321 | Every JSON text of an object, with or without a line feed, loads as its members without the signature, and the signature |
| `Signing.LoadOnlyReads` | src/modules/catalog.py:288-321 | Nothing else loads |
| `Timestamps.BasicRoundTrip` | src/modules/catalog.py:4053-4063 | Parsing a printed time in basic form gives the time back, with or without microseconds |
| `Timestamps.ExtendedRoundTrip` | src/modules/catalog.py:4093-4110 | So does the extended form |
| `Timestamps.LogNamesSortChronologically` | src/modules/catalog.py:3593-3594 | Update log names sort as strings by hour and then by locale, and are equal only for the same hour and locale |
| `Timestamps.BasicText` | src/modules/catalog.py:4053-4063 | A stamp in basic form spells year, month, day, hour, minute and second, and the microseconds if there are any, in digits, with the letters T and Z |
| `Timestamps.BasicExactly` | src/modules/catalog.py:4113-4130 | A stamp of digits is read as what it spells if and only if the calendar has such a time, leap years included |
| `Timestamps.UpdateText` | src/modules/catalog.py:4066-4078 | An hour stamp spells the date and the hour and nothing else |
| `PackageNames.PkgNames` | src/modules/catalog.py:735-768 | Each package of the publishers asked for exactly once, by stem and then by publisher name or by the position given |
| `PackageNames.JoinedOrder` | src/modules/catalog.py:746-751 | The joined strings sort by stem first and by publisher second, also when one stem begins the other |
| `PackageNames.SplitJoined` | src/modules/catalog.py:766-768 | Splitting gives back the stem and the publisher that were joined |
| `Selection.ReadPatterns` | src/modules/catalog.py:3070-3102 | An error exactly when a pattern is illegal; else exactly the first pattern of each canonical text is kept |
| `Selection.TestPatterns` | src/modules/catalog.py:3127-3202 | In any order of patterns, with or without the early stop, a package is omitted exactly when there are patterns and none accepts it |
| `Selection.GenPackages` | src/modules/catalog.py:3023-3303 | Exactly the selected packages are listed, in order; matched and unmatched split the kept patterns by whether they accepted some package |
| `Selection.OrderedEntries` | src/modules/catalog.py:389-432 | All versions of the publishers asked for, newest first within each stem |
| `Selection.AcceptsExactly` | src/modules/catalog.py:3127-3186 | What a pattern asks for: the publisher if it names one, the stem as a whole, as the tail behind a "/", or by wildcards, a version that succeeds the one it names, and the first listing of its stem if it is for the latest |
| `Selection.ListPackages` | src/modules/catalog.py:3023-3303 | Of a catalog part, with patterns, a package of the publishers asked for is listed if and only if some kept pattern agrees with it in every field, where a pattern for the latest accepts the last version of its stem, which in a sorted part is a newest one; kept are the patterns without an earlier one of the same text; matched are those that accept some package; newest first within each stem |
| `Selection.SelectedInEveryOrder` | src/modules/catalog.py:3076-3091 | A package is selected in every order of the patterns if and only if there are none or all patterns of some text accept it |
| `Selection.SelectedInNoOrder` | src/modules/catalog.py:3076-3091 | It is selected in no order if and only if there are patterns and none accepts it |
| `Selection.OrderDecidesExactly` | src/modules/catalog.py:3076-3091 | The order decides in exactly the remaining case |
| `Selection.OneReadingIsOrderFree` | src/modules/catalog.py:3076-3091 | It decides about no package if no two patterns of one text are read differently |
| `Selection.OneTextDecides` | src/modules/catalog.py:3076-3091 | Patterns of one text: the order decides about some package if and only if the text is given both as an exact and as a suffix pattern |
| `Dependencies.FmrisByVersion` | src/modules/catalog.py:610-636 | The versions of a stem in ascending order, each with all its packages |
| `Dependencies.ExpandFmri` | src/pull.py:288-302 | With a version given, a newest listed version of the stem that passes the constraint test, and nothing exactly when none does; without one, a newest version of the stem, and nothing exactly when it is not listed |
| `Dependencies.ExpandedMeets` | src/pull.py:288-302 | The same of what the recursive retrieval takes a dependency to resolve to |
| `Dependencies.PublisherIgnored` | src/pull.py:288-302 | Naming a publisher does not change what a dependency resolves to |
| `Dependencies.NamedPublisherExactly` | src/pull.py:288-302 | The package is of the publisher named if and only if that publisher is the first to list the last version that satisfies the dependency |
| `Dependencies.NewerElsewhere` | src/pull.py:288-302 | It is another publisher's whenever that one lists a newer satisfying version than the publisher named |
| `Dependencies.Retrieval.GetDependenciesOf` | src/pull.py:320-332 | A visit ends, also on cycles; of tied versions the set has one; all that was added has its dependencies in the set up to ties, and is in every closed set that holds the package |
| `Dependencies.GetDependencies` | src/pull.py:305-317 | The result has of every root one package of the same publisher, stem and place in the order of versions, and no two that are equal so; it holds the resolved dependencies up to ties; it is the least closed set if and only if that has no ties, so always when no listed versions or roots are tied |
| `Dependencies.RetrievedExactly` | src/pull.py:305-317 | The same of any set that a retrieval may give |
| `Dependencies.TieFreeExactly` | src/pull.py:305-332 | The least closed set has no ties whatever the manifests, if and only if no root is tied to a different root or to a different package that some dependency resolves to |
| `Dependencies.TiedVersionsMissed` | src/pull.py:320-332 | With two tied versions listed, asking for the first, which depends on its own stem, gives one of two |
| `Cloning.SelectPublishers` | src/pull.py:1156-1197 | Aborts exactly when a named publisher is not in the source, or none is named and the target lacks one; else selects exactly those named, all for "*", or those the target has when none is named |
| `Cloning.Repository.CopyCatalog` | src/pull.py:1134-1152 | The old catalog becomes the backup and the source's takes its place, or none if the source has no directory |
| `Cloning.Repository.SyncAll` | src/pull.py:1211-1415 | Each synced publisher has the source's packages if its catalog was replaced and else its own, which are the same up to ties; a replaced one has a backup of what it kept; others are untouched |
| `Cloning.BackedUp` | src/pull.py:1281-1415 | Every modified publisher has a backup |
| `Cloning.Repository.CloneRepo` | src/pull.py:1094-1472 | On success a replaced catalog lists what the source does and any other is the same up to ties; on failure a modified one lists what was kept of it; says exactly which catalogs and backups remain |
| `Cloning.ClonedExactly` | src/pull.py:1266-1307 | After success a catalog lists what the source does if and only if it was replaced or did before; without tied versions, always |
| `Cloning.RestoredExactly` | src/pull.py:1437-1472 | After failure a modified catalog lists what it did before if and only if nothing had to be removed from it; without tied versions, what it and the source listed |
| `Quoting.QuoteOnStack` | src/modules/_misc.c:94-111 | The fixed buffer suffices for every short string, and holds its encoding |
| `Quoting.QuoteOnHeap` | src/modules/_misc.c:113-146 | No write is outside the growing buffer, one growth per check suffices, its size stays within (9n+3)/2 and no int overflows; the result is the same encoding |
| `Quoting.FastQuote` | src/modules/_misc.c:35-146 | Both paths give the encoding, which decodes to the input; it is the input exactly when that has letters, digits and the characters - . _ ~ / only, and each % in it stands before two digits with upper-case letters |
| `Quoting.DecodeEncode` | src/modules/_misc.c:40-72 | Percent-decoding (RFC 3986, section 2.1) inverts the encoding for every byte string |
| `Quoting.EncodedShape` | src/modules/_misc.c:40-72 | The encoding consists of unreserved characters, "/" and "%" only and is one to three times as long |
| `Quoting.EncodedFixed` | src/modules/_misc.c:40-72 | Exactly the strings of unreserved characters and "/" stay as they are |
| `Quoting.EncodedInjective` | src/modules/_misc.c:35-146 | No two strings are encoded alike |
| `Varcets.AllowFacet` | src/modules/_varcet.c:32-214 | In any order of attributes and with its early exits the answer is that of the order-free rule; without an error if every pattern has a value |
| `Varcets.Lookup` | src/modules/_varcet.c:85-150 | A facet is as set by name, else by the first matching pattern, else on unless its name starts with "facet.debug." or "facet.optional." |
| `Varcets.FacetsExactly` | src/modules/_varcet.c:32-214 | The order-free rule by the names and texts of the attributes |
| `Varcets.AllowVariant` | src/modules/_varcet.c:217-296 | In any order, an action is allowed exactly when each attribute whose name starts with "variant." is a string that equals the image's, or that the image lacks and starts with "false" |

## Left out

- Appending.Append: the times that the appended parts and the attributes get. The callback is a function of the package and its entry.
- Catalogs.Catalog.ApplyUpdates: for a freshly opened catalog only; a full update of a catalog with parts in memory is not modelled. The checks against signatures are for signed catalogs: an unsigned part is accepted without looking at the signature its own file may have.
- Catalogs.Catalog.constructor: directories with parts that their attributes do not list, or with empty lists, which no catalog writes.
- Catalogs.Catalog.GetPart: parts and logs are kept by their state and handed out as objects that are put back, so that changes through an object a caller has kept aside are not modelled.
- CatalogParts.CatalogPart.Add: package versions always have a publisher; adding by components to a part that sorts is not modelled.
- Quoting.QuoteOnHeap: strings so long that the size computation leaves the range of the C type int.
- Quoting.FastQuote: likewise.
- Dependencies.GetDependencies: manifests are a function, and whether a version satisfies a constraint is one of the release, branch and time of the version; the recursion limit and failed retrievals are not modelled.
- Cloning.Repository.CloneRepo: removal of packages and verification are abstract steps, every publisher of the target has a catalog directory to begin with, and failures of file operations abort the program and are not modelled.
- Varcets.AllowFacet: matching a name against a pattern is a parameter; how the keys and their priorities are maintained is not modelled.
- Selection.GenPackages: package states and attributes, and the request for the newest versions only.
- Reading.GetEntryActions: for entries whose lists belong to the parts they are in, as those made from a manifest do.
- Json.ValueRead: texts with white space between their marks, and escapes of half a surrogate pair, are not read; numbers are kept as they are written.
- Files, permissions, locks and threads: a saved part is its exact value, and its time is not rounded to seconds.
- The digest is a function of a text; that different texts have different digests is assumed nowhere.
- Versions are compared by a key, that of a total preorder in which different strings may tie; parsing of versions, names and patterns and the constraint test between versions are parameters.
- Operation times strictly increase and are later than the clock was; time also passes without operations. The expiry of update logs is a step of the environment: the catalog itself drops none.
- `update_entry`, `categories`, `get_matching_fmris`, the various listings of entries, and the feature and version attributes.
- `prune`, archiving, transfer and transformation of packages in `src/pull.py`.
