# Verified model of the pipelex-api server's core

This Dafny project models six parts of the server and proves what they promise, over every input, every run or
every interleaving. Run `dafny verify dfyconfig.toml` here to check all of it.

| part | modules | main results |
|---|---|---|
| the SHA-keyed clone cache (`api/method_cache.py`) | `CloneEviction`, `FileTree`, `InstalledClone`, `EvictionSteps`, `CacheProtocol`, `CacheBounds`, `EvictionFailures`, `InterruptedEviction`, `MethodRun` | over every interleaving, honest returns, bounds, and runs that start from exactly the files of a commit their ref named; eviction as a closed form that its three passes refine, all at once and one directory operation at a time |
| the vendored-kit sync (`scripts/sync_vendored_kit.py`) | `TextLines`, `BackendsToml`, `BackendsGrammar`, `BackendsDocument`, `BackendsRenderer`, `SwitchRoundTrip`, `SwitchRecord`, `KitSync` | the switch round trip through a reader written apart from the renderer; the sync is a one-step fixed point |
| bundle ingest (`api/bundle.py`) | `Segments`, `SafePath`, `BundleIngest`, `BundleDisk` | nothing truncated, exact equivalence of the two transports, exact contents on disk |
| request ids and the body limit (`api/middleware.py`) | `RequestId`, `BodyLimit` | text order is time order; the app sees a prefix of the stream and then its end |
| the run body, its source and its scopes (`api/routes/pipelex/pipeline.py`, `api/method_source.py`, `api/schemas/models.py`, `api/security.py`) | `ReservedKeys`, `MethodPackage`, `RunSource`, `RunScopes` | the explicit stack refines a recursive search; both splits weave back; callers stay apart |
| entry pipes and the library lifecycle (`api/routes/pipelex/crate_ops.py`, `validate.py`, `pipe_io.py`) | `EntryPipe`, `PipeIoRoute` | exactly when two independent default chains agree; every exit gives its library back |

`Wrappers` holds the types the modules share.

Code that changes state step by step is written that way: classes for the cache, the plan, the vendored directory, the
counting wrapper, the temporary directories and the library manager, and methods with loops for the algorithms. Each is
proved against a function or predicate that says its result without the loop, and the lemmas are about that function. What
such a function counts, keeps or defaults to is fixed apart from it: by how it acts on single items and on lists put
together, or by an if-and-only-if in other terms.
In the cache protocol each request is a state machine whose steps interleave with those of other requests, with the
remote moving at any time, and with other processes installing and removing clones even while this process holds its lock.
An eviction is there a step for each entry it lists, stats, sizes or removes, so a foreign removal can come between any two.

## Where the code differs from its documentation, or from itself

The model follows the code. Each difference is stated by a lemma.

- `api/method_cache.py:14-15` says an insert "never evicts the most recently used entry". The rename keeps the clone's own
  modification time and the loser of an install race does not touch the winner's, so an insert can evict the very clone it
  installed (`InstalledClone.InstallCanEvictItsOwnClone`); `InstalledClone.InstalledCloneSurvivesIff` says exactly when it
  does not, from the root before the rename.
- `api/method_cache.py:206-207` says a clone that another process already removed is simply skipped. Reading the time of
  such an entry raises (lines 211 and 219), the eviction ends there and the lock is released, so the cache can be left beyond
  its bounds (`InterruptedEviction.InterruptedEvictionLeavesTooMuch`). The bounds hold whenever the lock is free and the last
  eviction was not so interrupted (`CacheBounds.BoundsHoldWheneverUnlocked`); `EvictionFailures.RaisesExactlyWhenRemoved`
  says exactly when one is.
- `api/bundle.py:11` calls the two bundle forms equivalent. A name that ends in a slash is skipped in an archive and is a
  file in the map (`BundleIngest.DirectoryNamesDiffer`); wherever one form is accepted, they agree exactly when every name
  is plain (`BundleIngest.TransportsAgreeIff`), and where both are refused, exactly when both loops stop at the same item or
  both count too many files or none (`BundleIngest.RefusalsAgreeIff`).
- A sync is a fixed point only for a kit with at least one table: with none, the sync writes a file the next planning
  refuses as a switch record (`KitSync.SyncConverges`, `KitSync.SyncOfABareKitDoesNotConverge`).
- `api/routes/pipelex/validate.py:162-191` and `api/routes/pipelex/crate_ops.py:244-287` treat an empty manifest code
  differently, one by `is not None` and the other by truthiness (`EntryPipe.ChainsAgreeIff`,
  `EntryPipe.EmptyManifestCodePartsTheChains`).
- `docs/pipe-run.md:300` says a host that sends its own storage scope but no read scope is refused. It is refused unless
  the scope's first segment is the caller's own id (`RunScopes.ForgottenReadScopeFailsClosed`,
  `RunScopes.ForgottenReadScopeCanBeAccepted`).
- The two splits of a method into texts and other files differ on a file named just `.mthds`, on the manifest and on a
  text with a carriage return (`RunSource.SplitsAgreeIff`, `RunSource.BareTextSplitsApart`), and the two Python gates on a
  file named just `.py`: a fetched package whose only Python is such a file is accepted on an unhosted deployment
  (`RunSource.GatesAgreeIff`, `RunSource.BarePythonPassesThePackageGate`).

## Model

| member | source | states |
|---|---|---|
| `CacheProtocol.ReturnsAreHonest` | api/method_cache.py:142-188 | over every run and at every state, each clone visible under the root is its commit's whole tree, and each request that returned recorded a commit its ref named between its start and its return and located exactly that tree |
| `MethodRun.StartedRunHasItsCommitsFiles` | api/method_source.py:131-184 | over every run, evictions and foreign removals between the return and the copy included: a run by method reference that starts has exactly the package's files in a commit that its ref named between the request's start and its return: the content at each path of the commit's tree below the package, version control and tooling aside |
| `CacheProtocol.CopyIsWholeOrEmpty` | api/method_source.py:97-164 | over every run, a copy that ended has exactly the package's files in the recorded commit, or it is empty, the clone having gone after the return and before the listing |
| `CacheBounds.BoundsHoldWheneverUnlocked` | api/method_cache.py:168-227 | over every run started within bounds in which no other process installs, foreign removals in the middle of an eviction included: whenever the lock is free and the last eviction to end was not left by an exception, the cache meets its count bound and fits its byte bound or holds one entry; at every state staging holds at most one directory per in-flight miss, and none when none is in flight |
| `EvictionFailures.RaisesExactlyWhenRemoved` | api/method_cache.py:209-227 | over every run, an operation of an eviction raises exactly when another process has removed the entry it reads since this eviction listed it, the entry is not back, and the operation reads its time or walks it and minds |
| `CacheBounds.UndisturbedNeverRaises` | api/method_cache.py:203-227 | over every run in which other processes leave the directory alone while a request evicts, no eviction is left by an exception |
| `CacheBounds.UndisturbedBoundsHold` | api/method_cache.py:168-227 | so over such runs the bounds hold whenever the lock is free |
| `InterruptedEviction.InterruptedEvictionLeavesTooMuch` | api/method_cache.py:203-221 | a run from within bounds, with one foreign removal during an eviction, that leaves the lock free over a root beyond its byte bound |
| `CacheProtocol.StepIsSafe` | api/method_cache.py:163-188 | every step of every request, of the remote and of another process keeps the invariant: complete clones, named commits, staged trees that are their commit's, staging owned by distinct misses, one lock holder |
| `CacheBounds.StepIsBounded` | api/method_cache.py:175-187 | every step but a foreign install keeps the bounds between evictions, and during one keeps every clone on the eviction's lists; an eviction left by an exception ends the claim until the next one that is not |
| `CacheProtocol.StagingOfOthersIsKept` | api/method_cache.py:170-188 | no step of one request writes, moves or removes what another in-flight miss has staged |
| `CacheBounds.StagingIsOwned` | api/method_cache.py:171-188 | owned staging has no more directories than there are in-flight misses |
| `CacheBounds.OwnCloneIsLostIff` | api/method_cache.py:175-187 | over every run, a miss whose eviction no other process disturbed has lost the clone it installed exactly when that clone, against its rivals in the root before the rename, does not outlive the eviction; with no equal times the rivals are the newer clones |
| `CacheBounds.MissFailsForItsOwnCloneIff` | api/method_cache.py:184-188 | and then the request fails although the package would be found in any clone there was |
| `EvictionSteps.SweepCovers` | api/method_cache.py:203-227 | whatever was removed in between, each operation of an eviction keeps all that is left on its lists and its total not too low, and one that finishes leaves the root within bounds |
| `EvictionSteps.SweepIsExact` | api/method_cache.py:203-227 | undisturbed, the operations one by one never raise and leave exactly the closed form's survivors |
| `CloneEviction.SortGivesMtimeOrder` | api/method_cache.py:209-212 | sorting any listing of the root by modification time gives each entry once, oldest first |
| `CloneEviction.KeepableIsUpwardClosed` | api/method_cache.py:209-227 | whatever is newer than a survivor survives |
| `CloneEviction.EvictionKeepsNewestSuffix` | api/method_cache.py:203-227 | the survivors are a contiguous newest suffix: the newest is in it, no other survivor is too old, it meets both bounds or is the newest alone, and no longer suffix would do |
| `CloneEviction.EvictionRestoresBounds` | api/method_cache.py:203-227 | after an eviction the root has at most the maximum of clones, and fits the byte bound or holds one entry |
| `CloneEviction.EvictionIsIdempotent` | api/method_cache.py:203-227 | evicting again at the same moment removes nothing, whatever order equal times are taken in |
| `CloneEviction.RootBytesIsTotal` | api/method_cache.py:223 | the bytes of the root are the sum over its listing, in any order |
| `InstalledClone.InstalledCloneSurvivesIff` | api/method_cache.py:175-187 | a clone renamed into a root that lacked its commit outlives the eviction exactly when no clone there is newer nor listed after it with the same time, or it is young enough and fits both bounds together with all of these |
| `InstalledClone.InstalledCloneSurvives` | api/method_cache.py:175-187 | the same for whatever order equal times are taken in |
| `InstalledClone.RivalsAreTheNewer` | api/method_cache.py:209-212 | where no time equals the clone's own, its rivals are the strictly newer clones in every order |
| `InstalledClone.SortIsStable` | api/method_cache.py:209-212 | an entry goes after another exactly when it is newer, or was listed later with an equal time |
| `InstalledClone.InstallCanEvictItsOwnClone` | api/method_cache.py:13-15 | a root in which an insert evicts the clone it just installed, in every order the sort may give |
| `CloneEviction.MethodCloneCache.DirectorySizeBytes` | api/method_cache.py:127-132 | the walk sums exactly the regular files, links not followed |
| `CloneEviction.SizeOfNode` | api/method_cache.py:127-132 | a regular file weighs its content and nothing else weighs anything |
| `CloneEviction.SizeOfConcat` | api/method_cache.py:127-132 | the sizes of trees add up |
| `CloneEviction.MethodCloneCache.Lookup` | api/method_cache.py:163-167 | a lookup hits exactly when the commit is there, and a hit changes that entry's time alone |
| `CloneEviction.MethodCloneCache.DropAged` | api/method_cache.py:214-222 | the age pass removes a prefix of the order, every entry of it too old and never the newest |
| `CloneEviction.MethodCloneCache.DropOldest` | api/method_cache.py:223-227 | the count and byte pass, with the running total equal to the survivors' sizes at every turn, leaves exactly the specified survivors |
| `CloneEviction.MethodCloneCache.Evict` | api/method_cache.py:203-227 | the three passes leave exactly the closed form's survivors, for any listing order, an empty root included |
| `TextLines.SplitOfConcat` | scripts/sync_vendored_kit.py:189-205 | splitting into lines undoes joining lines |
| `TextLines.SplitIsProper` | scripts/sync_vendored_kit.py:189 | splitting loses no character, and only the last line may lack its end |
| `TextLines.TranslationOfConcat` | scripts/sync_vendored_kit.py:148 | reading as text translates each line end on its own |
| `TextLines.TranslationOfEnds` | scripts/sync_vendored_kit.py:148 | a return, or a return and a line feed together, is one line feed, and nothing else changes |
| `BackendsGrammar.SkippedIff` | scripts/sync_vendored_kit.py:148 | the reader skips exactly blank and comment lines |
| `BackendsGrammar.HeaderReads` | scripts/sync_vendored_kit.py:148 | a bracketed name, bare or quoted, with blanks and a comment, reads as its table's header |
| `BackendsGrammar.AssignmentReads` | scripts/sync_vendored_kit.py:148 | a key, an equals sign and a value read as that key's assignment |
| `BackendsGrammar.BooleanReads` | scripts/sync_vendored_kit.py:148 | a value is a boolean exactly when it is the word, with nothing behind it but a comment |
| `BackendsDocument.LoadsIff` | scripts/sync_vendored_kit.py:148 | lines load exactly when each is of the grammar and none defines a table or key again |
| `BackendsDocument.TablesAreTheHeaders` | scripts/sync_vendored_kit.py:169-170 | the tables are the headers' names |
| `BackendsDocument.KeysAreTheAssigned` | scripts/sync_vendored_kit.py:148-156 | a table has exactly the keys its own lines assign |
| `BackendsDocument.SwitchIsTheAssigned` | scripts/sync_vendored_kit.py:156 | a table's `enabled` is what its own line assigns to it, if one does |
| `BackendsRenderer.HeadersAgree` | scripts/sync_vendored_kit.py:61-62 | on every line of the grammar the header regex matches exactly the headers a TOML reader sees, with the same name |
| `BackendsRenderer.HeaderRegexIff` | scripts/sync_vendored_kit.py:61 | on any line whatever, the header regex matches exactly a bracket, characters that are none, and a closing bracket |
| `BackendsRenderer.SwitchRegex` | scripts/sync_vendored_kit.py:62 | `enabled`, spaces, an equals sign, spaces and a boolean that ends its word are matched there |
| `BackendsRenderer.SwitchRegexIff` | scripts/sync_vendored_kit.py:62 | and the switch regex matches nothing else |
| `BackendsRenderer.SwitchShape` | scripts/sync_vendored_kit.py:62 | the switch regex matches, of the lines of the grammar, only boolean assignments to `enabled` |
| `BackendsRenderer.RewrittenSwitch` | scripts/sync_vendored_kit.py:194-199 | a matched line assigned a boolean before, and assigns exactly the rendered one after, whatever spacing or comment surrounds it |
| `BackendsRenderer.PreambleIsComments` | scripts/sync_vendored_kit.py:64-69 | the preamble is complete comment lines, so it says nothing to a reader |
| `BackendsRenderer.RenderBackendsToml` | scripts/sync_vendored_kit.py:173-205 | the loop with its three variables gives the fold over the lines, or the refusal for a table without a switch |
| `SwitchRoundTrip.RenderedKind` | scripts/sync_vendored_kit.py:189-200 | one rendered line is of the kind its kit line was, or it is the current table's switch with the recorded value |
| `SwitchRoundTrip.RenderedLinesLoad` | scripts/sync_vendored_kit.py:186-200 | the rendered lines load as the kit's document with the switched tables' `enabled` replaced and nothing else |
| `SwitchRoundTrip.OnlySwitchesChange` | scripts/sync_vendored_kit.py:189-200 | each rendered line is the kit's, character for character, but for the boolean token |
| `SwitchRoundTrip.RenderedText` | scripts/sync_vendored_kit.py:173-205 | the rendered text is the preamble and then the kit's text with only `enabled` tokens changed, and it loads as the kit's document with every table's switch taken from the record |
| `SwitchRoundTrip.ReadEnabledSwitches` | scripts/sync_vendored_kit.py:131-166 | the loop reads every table's switch, on when absent, or stops with the right error |
| `SwitchRecord.RecordHasTheTables` | scripts/sync_vendored_kit.py:131-166 | the record holds exactly the tables that have a header in the file |
| `SwitchRecord.RecordIsWhatLinesSay` | scripts/sync_vendored_kit.py:154-163 | a table is recorded as its own `enabled` line says, and as on when it has none |
| `SwitchRecord.TableWithoutKeyIsOn` | scripts/sync_vendored_kit.py:156 | a loaded table without the key is on |
| `SwitchRecord.UnsetTableIsRenderedOn` | scripts/sync_vendored_kit.py:131-205 | and a kit table rendered from such a record is on |
| `SwitchRecord.RecordIsRefusedIff` | scripts/sync_vendored_kit.py:131-166 | a record is refused exactly when it is missing, not TOML, has a table whose `enabled` is no boolean, or has no table |
| `SwitchRecord.LinesAreRendered` | scripts/sync_vendored_kit.py:189-200 | the rendered line is the kit's with the recorded boolean, or off, exactly on switch lines below a header, and the kit's own everywhere else |
| `SwitchRecord.RendersIff` | scripts/sync_vendored_kit.py:186-205 | a kit is rendered exactly when it is TOML and each of its tables has a switch line |
| `SwitchRoundTrip.ReadBackGivesTheRecord` | scripts/sync_vendored_kit.py:131-205 | reading the rendered file back gives, for every kit backend, the switch recorded or off when none was, and no other backend |
| `SwitchRoundTrip.RenderIsStable` | scripts/sync_vendored_kit.py:208-223 | rendering from the record that a rendering left gives the same text |
| `KitSync.SyncPlan.ComparePlaces` | scripts/sync_vendored_kit.py:110-128 | comparing a set of places, in any order, lists exactly those that differ, each once, with what it should hold |
| `KitSync.SyncPlan.RenderFromRecord` | scripts/sync_vendored_kit.py:208-222 | reading, refusing and rendering in the script's order, with the switches of dropped backends |
| `KitSync.PlanSync` | scripts/sync_vendored_kit.py:237-255 | planning fails exactly as specified or lists exactly the drifts of the whole tree, the stale manifest, the unhandled kit entries and the dropped switches |
| `KitSync.PlanningIsRefusedIff` | scripts/sync_vendored_kit.py:208-223 | exactly when planning goes through, and which refusal comes first otherwise |
| `KitSync.ReportedEntriesAre` | scripts/sync_vendored_kit.py:219-243 | the unhandled kit entries and the dropped switches are exactly those |
| `KitSync.NameIsMirroredIff` | scripts/sync_vendored_kit.py:53-107 | the names left alone are exactly the Finder's, hand-made backups and the three kinds of migration leftovers |
| `KitSync.LeftoversAreKept` | scripts/sync_vendored_kit.py:9-10 | a sync changes no file of such a name |
| `KitSync.VendoredDir.ApplyPlan` | scripts/sync_vendored_kit.py:258-266 | applying a plan, its drifts in any order, makes every managed place what the kit says and changes no other; no removal finds its file missing |
| `KitSync.SyncedTreeIsUnique` | scripts/sync_vendored_kit.py:258-266 | the synced tree does not depend on the order of the drifts |
| `KitSync.SyncMirrorsTheKit` | scripts/sync_vendored_kit.py:104-128 | after a sync the mirrored part of `backends/` equals the kit's as a map, the two files beside it are the kit's and the rendered one, and every unmanaged place is unchanged |
| `KitSync.SyncMirrorsTheDeck` | scripts/sync_vendored_kit.py:226-234 | after a sync the managed part of the deck equals the kit's as a map |
| `KitSync.PlanIsEmptyIff` | scripts/sync_vendored_kit.py:99-101 | a plan has no drift exactly when the tree is its own sync |
| `KitSync.SyncConverges` | scripts/sync_vendored_kit.py:208-266 | on the tree a sync leaves, planning succeeds exactly when the kit has a table, and then it renders the same text and finds no drift; otherwise it refuses for the missing table |
| `KitSync.SyncOfABareKitDoesNotConverge` | scripts/sync_vendored_kit.py:163-165 | a kit with an empty `backends.toml` syncs once, and on every tree that leaves, planning stops for the missing table |
| `KitSync.RunSync` | scripts/sync_vendored_kit.py:281-321 | a refused plan changes nothing; any other leaves the synced tree and a fresh manifest, and succeeds unless a kit entry is unhandled |
| `KitSync.RunCheck` | scripts/sync_vendored_kit.py:297-309 | the drift check passes exactly on a tree that a sync would leave as it is, beside a fresh manifest |
| `KitSync.SyncThenCheck` | scripts/sync_vendored_kit.py:281-321 | a check right after a sync that planned passes exactly when the sync succeeded and the kit has a table |
| `SafePath.AcceptedNamesAreSafe` | api/bundle.py:64-88 | every component of an accepted name is non-empty, not `.` or `..`, and free of slash, backslash and colon |
| `SafePath.NameIsAcceptedIff` | api/bundle.py:64-88 | a name is accepted exactly when it is relative and free of backslashes, colons and `..` components |
| `SafePath.NameIsRefusedIff` | api/bundle.py:73-84 | a backslash, a colon and a leading slash are each refused for what they are, in this order |
| `SafePath.PathOfOneName` | api/bundle.py:73-88 | a name without a slash leads to itself, unless it is empty or a dot |
| `SafePath.PrintParses` | api/bundle.py:64-88 | printing a safe path and parsing it again is the identity |
| `SafePath.PathOfJoinedNames` | api/bundle.py:81-88 | names joined by a slash lead where one and then the other leads |
| `SafePath.DownAndUp` | api/bundle.py:220 | going into a component and up again leads back, and `.` leads nowhere |
| `SafePath.SafePathStaysBelow` | api/bundle.py:217-224 | joined to any root, a path with no empty, `.` or `..` component, as every safe one is, resolves to itself below the resolved root |
| `BundleIngest.ReadZipMembers` | api/bundle.py:133-151 | the budgeted loop gives the specified entries or refusal, and pulls at most one byte over the ceiling whatever it answers |
| `BundleIngest.ReadFiles` | api/bundle.py:154-168 | the files loop gives the specified entries or refusal |
| `BundleIngest.DecodeBundle` | api/bundle.py:187-205 | exactly one form is decoded, by its loop, after its guards, and no answer decompresses more than one byte over the ceiling |
| `BundleIngest.BundleIsAcceptedIff` | api/bundle.py:91-205 | exactly which bundles are accepted: one form, neither too few nor too many files, safe names, contents within the ceiling |
| `BundleIngest.WholeBundleRefusals` | api/bundle.py:110-132 | exactly what an archive is refused for as a whole |
| `BundleIngest.MapRefusals` | api/bundle.py:91-95 | exactly when a map has too few or too many files |
| `BundleIngest.EncodedCapFits` | api/bundle.py:103-107 | the encoded cap lets every archive of at most the ceiling's size through, and none more than three bytes larger |
| `BundleIngest.FilesOfConcat` | api/bundle.py:127-132 | which members are files is decided one by one |
| `BundleIngest.ZipNeverTruncates` | api/bundle.py:133-151 | a zip is accepted exactly when all names are safe and the full contents fit the ceiling, and then each entry is its member's full content |
| `BundleIngest.FilesNeverTruncate` | api/bundle.py:154-168 | a map is accepted exactly when all names are safe with a component and the contents fit the ceiling, and then each entry is its item's full content |
| `BundleIngest.ParsedBundleIsSafe` | api/bundle.py:187-205 | every entry of an accepted bundle, in either form, has a safe path with a component |
| `BundleIngest.TransportsAgree` | api/bundle.py:110-168 | on plain names and under the encoded cap both forms give the same entries, or the same refusal at the same entry |
| `BundleIngest.TransportsAgreeIff` | api/bundle.py:110-168 | where at least one form accepts, the two agree exactly when every name is plain |
| `BundleIngest.RefusalsAgreeIff` | api/bundle.py:91-168 | where both forms refuse items of distinct names, the refusals are equal exactly when there is no item, or the archive's files alone are too many, or the map's are not and some item, every one before it safely named and fitting, is no directory and badly named, or too large even without the directories before it |
| `BundleIngest.DirectoryNamesDiffer` | api/bundle.py:6-11 | the forms differ on every name that is a safe component and a slash |
| `BundleDisk.WriteEntryIs` | api/bundle.py:225-226 | one write succeeds exactly when no file lies above its path and no directory at it, and changes that file and the directories above it only |
| `BundleDisk.WritingIsExact` | api/bundle.py:217-227 | writing all entries succeeds exactly when no path is a proper prefix of another, and then each path holds the last entry written there, with nothing else but the directories above |
| `BundleDisk.TempDisk.WriteEntries` | api/bundle.py:215-227 | a finished loop leaves exactly the entries in its own directory, and no other directory changes |
| `BundleDisk.TempDisk.WithMaterialized` | api/bundle.py:208-231 | the consumer is handed exactly the bundle, and on every exit, whatever it leaves in the directory or however it fails, the directory is gone and no other has changed; entries that do not go up never resolve outside |
| `RequestId.GenerateRequestId` | api/middleware.py:124-137 | the division loop writes exactly the low 26 base-32 digits of the 128-bit value |
| `RequestId.MintedIdDecodes` | api/middleware.py:124-137 | a minted id has 26 characters and decodes to the value it was minted from |
| `RequestId.OrderOfDigits` | api/middleware.py:124-137 | text order on ids of one length is numeric order of their values |
| `RequestId.MintedIdsSortByTime` | api/middleware.py:127-130 | ids sort by their 48-bit millisecond first, whatever the random bits, and then by these |
| `RequestId.ResolveRequestId` | api/middleware.py:145-157 | the id in use is the first request-id header's when valid, else a minted one, and it is always valid |
| `RequestId.FirstIdHeaderDecides` | api/middleware.py:151-157 | the first request-id header decides, wherever it stands, and no later one is looked at |
| `RequestId.PaddedIdIsTaken` | api/middleware.py:153-155 | Latin-1 white space around an id does not matter |
| `RequestId.CommonIdsAreValid` | api/middleware.py:116-121 | ULIDs, UUIDs and whatever else is of letters, digits, dashes and underscores, up to 128, is valid |
| `RequestId.ValidIdIsInert` | api/middleware.py:116-121 | a valid id holds no separator, quote, space or line end |
| `RequestId.MintedIdIsAccepted` | api/middleware.py:140-157 | a minted id passes the inbound check and is taken up unchanged |
| `BodyLimit.CountingReceive.Receive` | api/middleware.py:78-95 | each read returns what the stream's bytes up to it decide, and the counters stay true to the messages awaited |
| `BodyLimit.CountIsThePayload` | api/middleware.py:88-94 | what is counted is the length of all bodies' bytes together, whether or not more is announced |
| `BodyLimit.AppSeesPrefixThenEnd` | api/middleware.py:78-95 | over any stream and number of reads the app sees the stream up to the first message that crosses the cap and then its end forever; all of it when none crosses |
| `BodyLimit.ForwardedBytesStayWithinCap` | api/middleware.py:78-95 | forwarded bytes never exceed the cap, and are all the stream's until it crosses |
| `BodyLimit.LimitBody` | api/middleware.py:65-102 | the answer is the 413 exactly when the declared length or the bytes of the consumed bodies exceed the cap, and the app's own otherwise; the bytes the app saw never exceed it |
| `ReservedKeys.FindReservedObjectKey` | api/routes/pipelex/pipeline.py:525-542 | the walk with its explicit stack ends on every finite value and finds what the recursive search finds |
| `ReservedKeys.SearchIsComplete` | api/routes/pipelex/pipeline.py:525-542 | a key is found exactly when some object at some depth has a reserved one |
| `ReservedKeys.ReservedIff` | api/routes/pipelex/pipeline.py:521-522 | reserved are `__class__`, `__module__` and every key that begins with `__kajson` |
| `ReservedKeys.ChildrenAreTheParts` | api/routes/pipelex/pipeline.py:533-541 | the walk goes into every element of an array and every value of an object, and into nothing else |
| `ReservedKeys.FoundKeyOccurs` | api/routes/pipelex/pipeline.py:525-542 | the key found is reserved and stands in an object of the value |
| `ReservedKeys.PartsOfCleanAreClean` | api/routes/pipelex/pipeline.py:545-590 | every value inside an accepted body is free of reserved keys too |
| `ReservedKeys.ScalarsNeverMatter` | api/routes/pipelex/pipeline.py:528-530 | replacing every string, number and constant by any other changes nothing the walk finds |
| `RunSource.AcceptedRequestHasOneSource` | api/schemas/models.py:125-228 | a body is accepted exactly when it carries one source, with an address of a valid length, and that source is the one taken |
| `RunSource.BodyIsAcceptedIff` | api/schemas/models.py:125-228 | exactly which bodies are accepted, and which refusal each other one gets |
| `RunSource.AcceptedRequestIsTheBodys` | api/schemas/models.py:205-228 | what is accepted is the body's own, the legacy single content counting only where the list is missing |
| `RunSource.EndsWithIsSuffix` | api/method_source.py:149 | ending with a suffix and having it differ only on the name that is nothing but the suffix |
| `RunSource.PathEndsWithItsName` | api/routes/pipelex/pipeline.py:735 | a whole path ends with a suffix exactly when its last component does |
| `RunSource.BundleSplitWeaves` | api/routes/pipelex/pipeline.py:731-741 | the bundle split loses, duplicates and reorders nothing: its two sides weave back into the bundle, each other file with its path |
| `RunSource.PackageSplitWeaves` | api/method_source.py:152-164 | so does the package split, over every file but the manifest |
| `RunSource.BundleSplitOfOne` | api/routes/pipelex/pipeline.py:733-741 | an entry is a text exactly when its path ends with `.mthds` |
| `RunSource.PackageSplitOfOne` | api/method_source.py:154-164 | a file is a text exactly when its suffix is `.mthds`, and the manifest is neither text nor other file |
| `RunSource.BundleSplitOfConcat` | api/routes/pipelex/pipeline.py:731-741 | a bundle is split entry by entry |
| `RunSource.PackageSplitOfConcat` | api/method_source.py:152-164 | and a package file by file |
| `RunSource.SplitsAgreeIff` | api/routes/pipelex/pipeline.py:731-741 | over the same files the two splits agree exactly when none is the manifest, none is named just `.mthds` and no text has a carriage return |
| `RunSource.GatesAgreeIff` | api/method_source.py:149-150 | the two Python gates agree exactly when the package gate fires or no file is named just `.py` |
| `RunSource.BareTextSplitsApart` | api/method_source.py:156-164 | a file named just `.mthds` is a text of a bundle and an ordinary file of a package |
| `RunSource.BarePythonPassesThePackageGate` | api/method_source.py:149-150 | on an unhosted deployment a package of one text and a file named just `.py` is accepted, that file in its library, and the same bundle is refused |
| `RunSource.TransportsResolveAlike` | api/routes/pipelex/pipeline.py:697-785 | one method shipped either way resolves to the same source or the same refusal, texts that are not UTF-8 included, where the splits treat every file alike, none is named just `.py`, no text is longer than a package's may be and the package declares no structures |
| `RunSource.AssembledIff` | api/routes/pipelex/pipeline.py:739-746 | texts and other files make a source exactly when there is a text and no other file's path leads through another, and its library holds exactly the other files |
| `RunSource.BundleIsRunIff` | api/routes/pipelex/pipeline.py:723-746 | exactly which bundles run, and which are refused for their Python |
| `RunSource.PackageGateIff` | api/method_source.py:120-128 | a package is refused for Python exactly when it has some and the deployment is unhosted, and for structures exactly when it has some, is hosted and declares them |
| `RunSource.PackageIsRunIff` | api/method_source.py:147-184 | exactly which packages run |
| `RunSource.FirstRefusalIs` | api/method_source.py:109-117 | the first text that cannot be taken is refused for its encoding, and otherwise for its length |
| `RunSource.BundleRunSource` | api/routes/pipelex/pipeline.py:697-746 | Python on an unhosted deployment is refused with no directory made; any other bundle gives the specified source, and its library is gone afterwards |
| `MethodPackage.PackageFilesAreListed` | api/method_source.py:97-106 | a package's files are exactly the listed files without a skipped component |
| `MethodPackage.ListingIsBelowTheDirectory` | api/method_source.py:100-101 | the listing has a line for exactly the nodes below the package's directory, by their paths from it |
| `MethodPackage.ListingOfConcat` | api/method_source.py:100 | it keeps the tree's order |
| `MethodPackage.FilesOfConcat` | api/method_source.py:99-105 | and the files keep the listing's |
| `MethodPackage.PackageFilesAreTheTrees` | api/method_source.py:97-106 | the package's files are exactly the contents at paths below its directory without a skipped component |
| `RunSource.SplitPackage` | api/method_source.py:152-164 | the loop gives both sides, or the refusal of the first text that cannot be taken |
| `RunSource.FetchedMethodSource` | api/method_source.py:131-184 | the same for a fetched package, with the structures refusal where Python is allowed |
| `RunScopes.RequestState.VerifyJwt` | api/security.py:131-190 | a token binds its id exactly when it is present, safe and not the reserved one, and otherwise binds nothing |
| `RunScopes.RequestState.NoAuth` | api/security.py:218-253 | without auth an id is bound exactly when a trusted proxy forwards a safe one, and a bad one is refused |
| `RunScopes.UnderIsPrefix` | docs/pipe-run.md:298-300 | containment segment by segment is what a prefix test with the separator decides |
| `RunScopes.RunReadsWhatItWrites` | api/routes/pipelex/pipeline.py:142-166 | a pair of scopes is accepted exactly when no read scope applies, or every key under the storage scope lies under it and the storage scope is not the local sentinel |
| `RunScopes.SentScopesAreTaken` | api/routes/pipelex/pipeline.py:95-166 | with both scopes sent, whoever the caller is, they are taken as they are, exactly when the storage scope is the read scope or under it, by the separator, and is not the local sentinel |
| `RunScopes.MissingStorageScopeIsTheCallers` | api/routes/pipelex/pipeline.py:95-115 | a missing or empty storage scope is the caller's id |
| `RunScopes.UnidentifiedRunsUnscoped` | api/routes/pipelex/pipeline.py:118-134 | without a caller or a read scope a run is unscoped |
| `RunScopes.CallersAreApart` | api/security.py:39-44 | no key lies under the default prefixes of two distinct ids |
| `RunScopes.IdIsSafeIff` | api/security.py:39-44 | an id is safe exactly when it is no dot name and has no separator of paths or URIs and no control character |
| `RunScopes.OwnerIsTheId` | api/security.py:32-38 | the owner read off `<id>/...` is the id, whether split at its first slash or parsed as a URI's authority |
| `RunScopes.DefaultPrefixIsFirstSegment` | api/security.py:25-44 | a caller's default prefix holds exactly the keys whose first segment is the caller's id |
| `RunScopes.DefaultsAreAccepted` | api/routes/pipelex/pipeline.py:95-166 | an identified caller who sends neither scope is accepted under their own id, unless that is the local sentinel |
| `RunScopes.ForgottenReadScopeFailsClosed` | api/routes/pipelex/pipeline.py:118-134 | with a storage scope and no read scope a run is accepted exactly when the scope's first segment is the caller's id, the local sentinel excepted |
| `RunScopes.ForgottenReadScopeCanBeAccepted` | docs/pipe-run.md:300 | a host that sends the storage scope "u1/m" for caller "u1" and no read scope is accepted |
| `EntryPipe.QualifyIsLookup` | api/routes/pipelex/validate.py:135-159 | `/validate`'s qualification on lists resolves the same selectors to the same refs as the entry lookup |
| `EntryPipe.LookupMissesIff` | api/routes/pipelex/validate.py:135-159 | a lookup finds nothing exactly when no own pipe has the code, and is ambiguous exactly when two have |
| `EntryPipe.CrossPackageIff` | api/routes/pipelex/validate.py:146-147 | a ref is a dependency's exactly when it has an arrow |
| `EntryPipe.UndecidedDefaults` | api/routes/pipelex/crate_ops.py:268-287 | with no declared pipe neither chain answers; with several the tooling routes refuse and `/validate` reports the first |
| `EntryPipe.CandidateOfOne` | api/routes/pipelex/crate_ops.py:268 | a domain's candidate is its code and its non-empty entry pipe |
| `EntryPipe.SelectedDefaultIsReported` | api/routes/pipelex/crate_ops.py:244-287 | whenever the tooling routes select a default pipe, `/validate` reports the same qualified ref |
| `EntryPipe.ChainsAgreeIff` | api/routes/pipelex/validate.py:162-191 | exactly when the two chains answer alike, by the manifest code and the domains that declare a pipe |
| `EntryPipe.EmptyManifestCodePartsTheChains` | api/routes/pipelex/crate_ops.py:266-287 | a closure on which an empty manifest code selects the declared pipe for the tooling routes and none for `/validate` |
| `PipeIoRoute.LibraryManager.ResolveRequestedCrate` | api/routes/pipelex/crate_ops.py:134-158 | on success the new library is open and current; on failure nothing is left changed |
| `PipeIoRoute.LibraryManager.TeardownCurrentLibrary` | api/routes/pipelex/crate_ops.py:326-331 | the current library alone is closed |
| `PipeIoRoute.SelectionIsOwn` | api/routes/pipelex/crate_ops.py:199-218 | whatever is selected is a pipe of the library's own |
| `PipeIoRoute.Describe` | api/routes/pipelex/pipe_io.py:147-183 | a refused selection answers its own kind; otherwise the answer is valid exactly when the artifacts of every described pipe, all own ones or the selected one, can be derived, and its three maps share their refs as key set |
| `PipeIoRoute.SelectionIsRefusedIff` | api/routes/pipelex/pipe_io.py:152-165 | exactly when a selection is refused, and why |
| `PipeIoRoute.DescribedAre` | api/routes/pipelex/pipe_io.py:163-167 | described are all own pipes, or exactly the one selected |
| `PipeIoRoute.PipeIo` | api/routes/pipelex/pipe_io.py:142-185 | on every exit the open libraries are those of the entry; after a loaded one none is current, where a failed load restores the one that was; a valid answer is honest, and `all_pipes` that names no pipe is never refused a selection |

## Left out

Inputs and steps that stand for code outside the repository:

- What a ref names at each instant is the remote's history; the filtering of `git ls-remote` output into that commit (`resolve_remote_commit_sha`), cloning, package location and the bounds check are steps that may fail.
- Modification times, the clock and random bits are inputs, and a removal succeeds. A crashed process's staging leftovers are not modelled.
- Zip and base64 decoding are given as their result; a member that fails to decompress is not modelled.
- JSON and UTF-8 decoding: trees and texts are given, and which bytes are UTF-8 is a parameter.
- The engine's own code is not part of this model; its entry lookup follows the rule written at `api/routes/pipelex/validate.py:135-151`. The runtime's scope containment follows `docs/pipe-run.md:298-300`.
- The segment rule on scopes sent on the wire (`api/schemas/models.py:359-383`) is the runtime's validator and is not part of this model; the scope lemmas hold for any scope that passes it.
- The deck manifest is an opaque value, and which deck names are managed is a parameter of the kit.
- The three artifacts of a pipe are opaque strings whose derivation may fail.

Details not modelled:

- BackendsToml.Load: accepts flat TOML only, one header or assignment a line. Arrays, inline tables, dotted or indented headers and multi-line strings are outside the grammar, a scalar that is not a boolean is not looked into, and a `\b` after a switch treats every character above ASCII as part of the word.
- KitSync.RunSync: a kit text that is not TOML is a refusal here; in the script its decoding error escapes uncaught.
- KitSync.PlanSync: trees hold text files only, so a directory at a managed place is not modelled. Drifts and sets of names have no order here where the script sorts them; what is proved holds for every order. The backup and rescue infixes are those the script's comment spells.
- CacheBounds.BoundsHoldWheneverUnlocked: another process may remove clones but not install them, since each process evicts only on its own inserts.
- CacheProtocol.ReturnsAreHonest: another process installs and removes a clone in one step, so no request meets half a removal, and neither does it meet half of an eviction's.
- MethodRun.StartedRunHasItsCommitsFiles: the Python gate and the structures check come between the listing and the reading; here they are applied to the files once read, and what the structures check finds is an input.
- BundleDisk.WritingIsExact: the file system is ideal: it takes every name, however long and with any character, and never fills up.
- RunSource.FetchedMethodSource: the fetch itself, the source labels, the provenance and the override of the entry pipe by the request's pipe code are not modelled; suffixes follow the Python versions before 3.14.
- EntryPipe.ChainsAgreeIff: the primary blueprint is the first domain to declare an entry pipe, as the route's own documentation says.
- BodyLimit.LimitBody: an app that fails instead of answering is not modelled.
- PipeIoRoute.PipeIo: the pending signatures and the echo of files are left out.
- Error messages, log fields, problem documents, HTTP routing, token and API-key verification, callbacks, orchestrator dispatch and the other routes would only add easy members.
