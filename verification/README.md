# A verified model of the APK distributor

The service polls Android emulators, and when they agree on a newer version of a package it pulls the
APKs, bundles them, publishes the bundle with a checksum and a `latest.json`, prunes old versions, tells
a sink, and records the version in `store.json`. This project models that, and the package list beside it,
in Dafny, and proves what holds over all runs: with a failure possible at every file effect and the
process dying between any two of them.

`dafny verify dfyconfig.toml` checks everything.

## How it is organised

| file | models |
|---|---|
| `Protocol.dfy` | the poll thread as a machine of single file effects, with failures, torn writes and crashes |
| `Deliveries.dfy`, `Published.dfy`, `Checksums.dfy`, `Sink.dfy` | invariants over all runs of that machine: the sink log, `latest.json`, checksum files, what the sink is handed |
| `Witnesses.dfy` | runs that show what the service does not promise |
| `Service.dfy`, `Store.dfy` | the same thread as imperative code over mutable fields, proved to be a run of the machine |
| `Files.dfy` | package directories and pruning |
| `Agreement.dfy` | the parallel version query and the agreement rule |
| `Merge.dfy`, `Pulls.dfy`, `Collector.dfy`, `Bundle.dfy` | pulling from several devices into one collection, in terms of the devices and as the code does it; the archive made of it |
| `Delivered.dfy` | what a delivery promises: version, format, manifest, checked and complete contents |
| `PackageSync.dfy`, `Conservation.dfy`, `Packages.dfy` | the package list: interleavings of mutators, editors and the background reader; when no name is lost; the manager's methods |
| `Watcher.dfy`, `Config.dfy` | emulator clients across configuration reloads, the polled packages, validation of the emulator list |
| `Adb.dfy`, `Names.dfy` | parsers of device output; package names, APK names, file names |
| `Text.dfy`, `Sorting.dfy` | strings, numbers, orderings |

**Two levels.** `Protocol.Step` is the machine; its invariants are proved once, for all event sequences.
`Service.Poller` is the code: methods with the source's branches and loops, over fields that are updated in
place. Each records its effects in a ghost `trace`, and `Valid()` says that the trace is a run of the machine
from the empty output directory and ends in the object's own fields. `TraceReachable` turns any point of a
trace into an event sequence; `TraceMonotone` into one whose codes never decrease, if the trace shows none
that do; `TraceUndisturbed` into one that leaves no pair of files half changed, if no effect did. The fields
`rising` and `calm` keep track of the two, and the methods say when they survive. So the
all-runs theorems hold between any two effects of the code: `TraceSound`, `PollerNeverDangles`,
`PollerTellsTruth`, `PollerChecksums`.

**How failures appear.** A Boolean chosen arbitrarily stands for the outcome of each file operation. A plain
write first truncates (`Tear`), so a file can be left torn; a rename happens or not. `Crash` reloads memory
from the durable store. The `faults` counter counts effects and extractions that failed.

**Representation.** Strings are byte strings, and white space is ASCII. `FileName` is a recoding of strings:
`Names.ParseNameToString` and `Names.StringInjective` show that nothing is confused by it. Version codes are Go's 64-bit integers. `Digest(c)` stands for
the checksum text of content `c`, distinct contents having distinct digests. What a device answers in one
extraction is a record: the code puts each question at most once, so a record is no restriction. Certificate
checking is an arbitrary predicate of the file and the fingerprint. `codeAt` in `Agreement.Client` is a tag of
the model: the version of the installation that a file belongs to when it is pulled.

## Where the code and its documentation differ

The model follows the code.

- The documentation says that the checksum is written atomically, with the artifact (`README.md:113`,
  `README.md:522`). It is a plain write after the artifact's rename. `StaleChecksum` is a run, with codes
  that never decrease, after which `latest.json` names an artifact whose checksum file describes other
  bytes. `PairsKeptIff` and `PairsAlwaysKeptIff` say exactly which steps do it, `ChecksumsMatch` what holds
  otherwise. What the sink is given is right all the same, if attempted codes never decrease
  (`SinkSeesArtifact`).
- The documentation says that all emulators must agree (`README.md:320`, `README.md:516`). Only those that
  answered are compared, and extraction then goes to all of them. `UniformIffAllAnswered`: the rule
  guarantees a bundle of one version if and only if every client answered.
- `latest.json` always names a file that exists as long as attempted codes never decrease
  (`LatestNeverDangles`). Going back in versions can break it (`DanglingLatest`). It holds over a run exactly
  when pruning never removes the artifact just published (`LatestNamedIff`), and a publication is safe
  whatever follows exactly when at most three version files carry its code or a greater one
  (`PublicationSafeIff`).
- The documentation says that the sink is called with the file written (`README.md:423`). The checksum told is
  always that of the complete payload (`DeliveredSum`), but after going back in versions pruning may have
  deleted the file by then (`SinkToldOfDeleted`). From the listing on the path told is right, whatever
  happens, exactly when at most three version files carry the new code or a greater one (`SinkTruthIff`).
- An added package can be lost although every write, notification and read succeeds: a reader that read the
  file before an `Add` may replace the set after it, and the next flush writes that (`LostUpdate`). If nobody
  else writes the file, memory and file agree throughout a run exactly when the reader never installs an
  outdated set (`AgreesThroughoutIff`), for which it is enough that no flush falls between its read and its
  swap (`CalmReaderAgrees`); then no name is lost (`NameStays`), and nothing less than agreement makes the
  next operation safe (`ConservesNextIff`). Memory and file do converge in any case (`QuiescentEqual`,
  `Drains`).
- `Seed` returns at the first invalid name and leaves the earlier insertions in memory, unflushed; and
  `SetLastKnown` keeps its change in memory when the flush fails. Their contracts say so.
- The version parser does not stop at the end of the package's section (`MissingNameReadsOn`,
  `WrongSectionWitness`): the section alone settles the answer exactly when one of its lines is decisive
  (`SectionDecidesIff`). It indexes an empty list on a bare `versionCode=` (`PanicWitness`), exactly when
  that is the first decisive line after the header (`PanicsIff`).
- A package without splits is published from an arbitrary entry of the collection (`SingleDeterminedIff`).
- A client known by serial keeps its old ABI when the configuration changes it: after a reload a client has
  the configured ABI exactly when no client with its serial had another before (`SyncClients`).
- A leftover `.tmp` file next to an artifact is not removed at start-up, whatever `README.md:522` says:
  `cleanTmpDir` only removes directories below `.tmp`. Temporary files do no harm here: pruning ignores them
  (`PruneMeaning`) and every attempt overwrites its own.

## Model

| member | source | states |
|---|---|---|
| `Protocol.StoreBehindDisk` | watcher/watcher.go:158-186 | In every reachable state, whatever fails and wherever the process dies: durable code <= code in memory <= code in `latest.json`, which is never torn |
| `Protocol.StepSound` | extractor/extractor.go:84-116 | Every enabled event keeps that order, together with what each phase of an attempt relies on |
| `Protocol.EffectOnLatest` | extractor/extractor.go:337-345 | Among all file effects only the rename changes `latest.json`; pruning never does |
| `Protocol.DirFrame` | extractor/extractor.go:40-41 | Nothing but a package's own extraction changes its directory, a crash included |
| `Deliveries.SinkToldFirst` | extractor/extractor.go:105-116 | Per package and process run the codes given to the sink strictly increase, even when saving fails; every code in memory or in the store was given to the sink before |
| `Deliveries.LogOnlyGrows` | extractor/extractor.go:105-116 | Deliveries are never taken back or reordered by later events |
| `Deliveries.OthersUntouched` | store/store.go:55-82 | Working on one package leaves every other package's directory and known version alone; a flush may only make another's version durable as it stands in memory |
| `Published.LatestNeverDangles` | extractor/extractor.go:94-103 | With attempted codes that never decrease, `latest.json` names a complete artifact of its own code in every reachable state: between removals, after any failure or crash |
| `Published.LatestNeverFalls` | extractor/extractor.go:326-347 | Under the same assumption `latest.json` never goes away again and its code never goes down |
| `Published.NewestKept` | extractor/extractor.go:426-437 | Two names at most carry the top code and three files are kept, so pruning cannot reach the artifact just published, however ties are sorted |
| `Published.NewestThreeStay` | extractor/extractor.go:101 | A version file with at most three as new, itself included, survives pruning |
| `Published.ThreeStay` | extractor/extractor.go:101 | Pruning after a publication leaves three version files, or all if there are fewer |
| `Published.StepNamedIff` | extractor/extractor.go:431-434 | Whatever the codes: a step makes `latest.json` dangle if and only if it removes the artifact just published |
| `Published.LatestNamedIff` | extractor/extractor.go:94-103 | Over any run `latest.json` names a complete artifact of its own code in every state if and only if pruning never removes an artifact just published |
| `Published.NewArtifactSafeIff` | extractor/extractor.go:98-103 | After any run, at the listing: the new artifact survives every outcome of the sort if and only if at most three version files have its code or a greater one |
| `Published.PublicationSafeIff` | extractor/extractor.go:98-103 | From there `latest.json` keeps naming a complete artifact on every continuation up to the next attempt, failures and crashes included, if and only if that count is at most three |
| `Witnesses.DanglingLatest` | extractor/extractor.go:98-103 | A run that goes back in versions after three attempts died, and leaves `latest.json` naming a deleted file |
| `Witnesses.SinkToldOfDeleted` | extractor/extractor.go:101-113 | That run goes on to call the sink with the path of the deleted file |
| `Witnesses.StaleChecksum` | extractor/extractor.go:349-362 | A run, with codes that never decrease, after which the checksum file next to the named artifact is that of other content |
| `Checksums.PairsKeptIff` | extractor/extractor.go:349-362 | A step keeps artifacts and checksum files together if and only if it is none of these: stopping between rename and checksum, deleting the checksum of a file whose removal failed, not deleting that of a file that is gone |
| `Checksums.PairsAlwaysKeptIff` | extractor/extractor.go:94-103 | The same for whole runs: pairs stay together throughout exactly when every step is harmless |
| `Checksums.ChecksumsMatch` | extractor/extractor.go:431-436 | In runs not disturbed at those moments artifacts and checksum files are in one-to-one correspondence, each checksum that of its artifact |
| `Sink.DeliveredSum` | extractor/extractor.go:94-113 | In every run, whatever the codes: the sink is told of the attempt being made, with the checksum of its complete payload |
| `Sink.LatestTold` | extractor/extractor.go:98-113 | At the sink call, in every run: package, code, name, file and format told are those of the attempt, and `latest.json` says the same code, name and file |
| `Sink.SinkTruthIff` | extractor/extractor.go:101-113 | At the listing, after any run: every continuation to the sink call finds the artifact under the path told, and the told checksum next to it, if and only if at most three version files have its code or a greater one |
| `Sink.SinkSeesArtifact` | extractor/extractor.go:106-113 | With codes that never decrease: when the sink is called, its path names the complete new artifact, and its checksum is that artifact's and the one on disk, even if earlier attempts failed or died anywhere |
| `Files.PruneMeaning` | extractor/extractor.go:394-438 | For any `keep`: exactly min(n, keep) version files remain, none older than a removed one, removed files take their checksums along, every other name stays |
| `Files.PruneIdempotent` | extractor/extractor.go:426-428 | Pruning a pruned directory changes nothing |
| `Files.SurvivesIff` | extractor/extractor.go:430-431 | A file outlives pruning under every order of ties if and only if at most `keep` files have its code or a greater one |
| `Service.TraceReachable` | watcher/watcher.go:97-194 | Each point of the code's trace is reached by a run of the machine |
| `Service.TraceMonotone` | watcher/watcher.go:158-162 | ... by a run with codes that never decrease, if attempted codes never went down along the trace |
| `Service.TraceUndisturbed` | extractor/extractor.go:349-362 | ... by a run that leaves no pair half changed, if no effect of the trace did |
| `Service.TraceSound` | watcher/watcher.go:97-194 | So the invariant holds between any two effects of the code |
| `Service.PollerNeverDangles` | extractor/extractor.go:94-103 | With attempted codes that never went down, as `CheckPackage` and `Poll` keep them when no agreed code is below the last attempted one, `latest.json` named a complete artifact of its own code after each effect of the code |
| `Service.PollerTellsTruth` | extractor/extractor.go:105-116 | ... and right after each sink call the path and checksum given were those of the complete artifact |
| `Service.PollerChecksums` | extractor/extractor.go:94-103 | Between attempts of a service that disturbed no pair, and every method without faults disturbs none, artifacts and checksum files correspond one to one |
| `Service.Poller.constructor` | main.go:86-93 | A service started on an empty output directory is at the start of a trace |
| `Service.Poller.WriteTmp` | extractor/extractor.go:372-384 | A temporary file ends up complete, or the attempt ends with it absent, torn or removed, by steps of the machine |
| `Service.Poller.Move` | extractor/extractor.go:385-389 | The final name gets the complete content in one step, or the attempt ends |
| `Service.Poller.WriteArtifact` | extractor/extractor.go:366-390 | On success the artifact is complete under its final name; on failure the attempt ends; each effect is a step of the machine |
| `Service.Poller.FailToRead` | extractor/extractor.go:247-253 | A source that cannot be opened ends the attempt; a single file leaves no trace on disk |
| `Service.Poller.WriteChecksum` | extractor/extractor.go:349-362 | The checksum handed on is that of the complete artifact, and the artifact is untouched |
| `Service.Poller.WriteLatest` | extractor/extractor.go:326-347 | On success `latest.json` holds the document of the attempt, which `LatestTold` spells out, by way of its temporary file |
| `Service.Poller.ListVersions` | extractor/extractor.go:404-424 | Lists each version file of the directory once, and nothing else |
| `Service.Poller.SortByCode` | extractor/extractor.go:430 | Some descending order of exactly these files; ties in any order |
| `Service.Poller.RemoveExcess` | extractor/extractor.go:431-436 | With all removals succeeding exactly the given files and their checksums are gone |
| `Service.Poller.RemoveOne` | extractor/extractor.go:433-434 | One name goes, or stays when its removal fails; the walk continues either way |
| `Service.Poller.PruneOldVersions` | extractor/extractor.go:394-438 | Without faults the directory becomes one that `PruneMeaning` describes; with faults it carries on, still a run of the machine |
| `Service.Poller.Deliver` | extractor/extractor.go:105-116 | One delivery is appended, with the artifact's path and checksum; the sink's answer changes nothing |
| `Service.Poller.SetLastKnown` | store/store.go:55-65 | Memory gets the entry in any case; the store file becomes all of memory, or stays as it was when the flush fails |
| `Service.Poller.Flush` | store/store.go:67-82 | The file is replaced as a whole or not at all |
| `Service.Poller.Restart` | store/store.go:26-45 | A new process knows what the store file says, and the package directories are as they were left |
| `Service.Poller.Publish` | extractor/extractor.go:84-116 | Either the sink has been told of the complete artifact with its checksum, and `latest.json` says code, name and file of the attempt, or the attempt ended without a delivery |
| `Service.Poller.WriteFiles` | extractor/extractor.go:84-100 | Artifact, checksum and `latest.json` are all written, with the checksum of the whole payload, or the attempt ends |
| `Service.Poller.Extract` | extractor/extractor.go:34-117 | A success delivers a payload made of the merged files under the agreed version; a failed pull, size or signature check has no effect on published files at all |
| `Service.Poller.CheckPackage` | watcher/watcher.go:97-194 | Nothing happens when there is no agreement or nothing newer; a delivery means an agreed, strictly newer code, now in memory, told and written to `latest.json` with its name, for a payload of the format the listings ask for: every file checked and of one version if everyone answered, no listed name missing, the manifest naming package, version and all architectures; without a delivery memory and store stay as they were, so the next poll tries again; known codes never go down; attempted codes do not either unless the agreed one does; other packages are untouched; without faults the package ends settled |
| `Service.Poller.Update` | watcher/watcher.go:164-193 | An update ends with such a delivery and the version recorded, or leaves memory and store as they were |
| `Service.Poller.Poll` | watcher/watcher.go:65-75 | A fixed point: a full poll without faults settles every package, and with every package settled a poll publishes, delivers and stores nothing; attempted codes keep rising unless an agreed code is below the last attempted one |
| `Service.Pull` | extractor/extractor.go:58-77 | Pulling succeeds exactly when the pure merge does and collects something; the payload holds what the merge holds |
| `Service.KeepsSettled` | watcher/watcher.go:158-162 | Checking one package unsettles no other, since known codes never go down |
| `Service.DeliveredOfOneVersion` | watcher/watcher.go:141-177 | With everyone answering and no device changing, every file of the delivered payload was listed and pulled from a device as part of the agreed version |
| `Service.RightlyDelivered` | extractor/extractor.go:84-113 | What is told and written fits what the devices handed out: format, name, manifest and contents, without reference to the code's own functions |
| `Store.VersionStore.GetLastKnown` | store/store.go:47-53 | The entry in memory, or that there is none |
| `Store.VersionStore.CommitTmp` | store/store.go:77-81 | The file becomes what was in the temporary file, or stays |
| `Agreement.QueryAll` | watcher/watcher.go:108-125 | Whatever order the queries finish in, slot i holds client i's answer |
| `Agreement.Agree` | watcher/watcher.go:127-156 | Computes the agreement, with the first answer's name |
| `Agreement.AgreedMeaning` | watcher/watcher.go:127-156 | There is an agreement if and only if someone answered and all answers have one code, which it then reports |
| `Agreement.AgreedIsFirst` | watcher/watcher.go:143-156 | The name reported is that of the first answer |
| `Agreement.AgreedByClients` | watcher/watcher.go:110-156 | In terms of the clients: an agreement needs one that is connected or reconnects and reports, and one code among all of these |
| `Agreement.BundleIsUniform` | watcher/watcher.go:141-156 | With everyone answering and no device changing, every file a merge would take is of the agreed version |
| `Agreement.BundleOfOneVersion` | extractor/extractor.go:61-73 | So each merged name holds what a device listed, and that passed the checks, of the agreed version |
| `Agreement.PayloadOfOneVersion` | extractor/extractor.go:84-89 | And so does each file of the archive or single file made of the merge |
| `Agreement.UniformIffAllAnswered` | watcher/watcher.go:177 | The agreement rule guarantees this if and only if every client answered |
| `Merge.MergeMeaning` | extractor/extractor.go:148-173 | The merge succeeds if and only if each path has a safe name and each first offer of a name is pulled, within the limit and signed; it then maps exactly the offered names to their first contents |
| `Merge.MergedNames` | extractor/extractor.go:121-144 | In terms of the devices: exactly the names listed by those online and answering, each with the checked content from the first device that lists it |
| `Merge.ListedIsMerged` | extractor/extractor.go:138-142 | No listed file is missing from a successful merge |
| `Pulls.MergedIff` | extractor/extractor.go:61-73 | In terms of the devices: the pulls succeed if and only if every answering device's directory can be made, all its paths are safe, and each first path of a name is pulled, within the limit if its size can be read, and signed by the pinned certificate if there is one |
| `Pulls.CollectedMeaning` | extractor/extractor.go:148-173 | Everything collected was listed and handed out by a device that answers, passed these checks, and no earlier device lists its name; every listed name is collected |
| `Pulls.CollectedSigned` | extractor/extractor.go:165-170 | With a certificate pinned, everything collected is signed by it |
| `Collector.AcceptKeepsOthers` | extractor/extractor.go:153-172 | A newly pulled file overwrites none accepted before, even when two devices share an ABI directory |
| `Collector.Extraction.PullOne` | extractor/extractor.go:148-173 | One step of the pure merge; accepted contents keep the bytes that passed the checks |
| `Collector.Extraction.PullFromClient` | extractor/extractor.go:121-144 | Refines the merge over one device's listing; offline or silent devices contribute nothing |
| `Collector.Extraction.Collect` | extractor/extractor.go:61-73 | The nested loops refine the pure merge, and report splits exactly when some listing has several paths |
| `Collector.Extraction.WriteSingle` | extractor/extractor.go:194-202 | Yields the content of some entry of the map |
| `Collector.Extraction.PackEntries` | extractor/extractor.go:237-262 | Succeeds exactly when every collected file can be read; entries and split list then follow the names in order |
| `Collector.Extraction.WriteArchive` | extractor/extractor.go:218-291 | The archive of the collection, or failure when a collected file is missing |
| `Bundle.XapkUnique` | extractor/extractor.go:227-232 | Map iteration order leaves no trace: two archives of one collection are equal |
| `Bundle.XapkRoundTrip` | extractor/extractor.go:237-291 | Reading the archive back gives the collection, in increasing order of name; the manifest names exactly its files, in order, and package, code, version name and architectures of the release |
| `Delivered.ArchiveIsRight` | extractor/extractor.go:218-291 | A delivered archive holds only checked files, misses no name that any device lists, and its manifest names the package, the agreed version and every client's architecture |
| `Delivered.SingleIsRight` | extractor/extractor.go:194-202 | A delivered single file is a checked one |
| `Delivered.SplitIff` | extractor/extractor.go:131-133 | An archive is made if and only if some device that is online and answers lists two paths or more |
| `Bundle.MergedRoundTrip` | extractor/extractor.go:178-192 | What was merged from the devices comes back from the archive name by name: no APK name can collide with the manifest |
| `Bundle.SingleDeterminedIff` | extractor/extractor.go:195-199 | The single published file is determined by the collection if and only if all entries have the same content |
| `PackageSync.QuiescentAgrees` | packages/packages.go:154-223 | For every interleaving of mutators, editors and the reader's separate read and swap: at rest, memory is what the file parses to, unless a notification or read was lost and nothing was read since |
| `PackageSync.QuiescentEqual` | packages/packages.go:154-223 | With valid edits and no such loss, memory at rest equals the file |
| `PackageSync.StepConverging` | packages/packages.go:190-223 | The inductive invariant: a notification is pending, or the reader is about to read, or it holds the current contents, or memory agrees with the file |
| `PackageSync.Drains` | packages/packages.go:154-187 | Left alone, the reader stops within its backlog whatever it does, is at rest exactly when it cannot go on, and memory then agrees with the unchanged file |
| `PackageSync.UndoRestores` | packages/packages.go:124-129 | Rolling back restores the exact prior set, whatever duplicates or members the input held |
| `Conservation.AgreementKeptIff` | packages/packages.go:190-223 | With nobody else writing: one step breaks the agreement of memory and file if and only if it installs an outdated set |
| `Conservation.AgreesThroughoutIff` | packages/packages.go:58-132 | Over every run from start-up, failures included: memory and file agree throughout if and only if the reader never installs an outdated set |
| `Conservation.CalmReaderAgrees` | packages/packages.go:190-223 | It never does if no flush succeeds between a read of the file and its swap |
| `Conservation.FlushesConserve` | packages/packages.go:225-241 | Then each flush of an `Add`, `Remove` or `Seed` changes the file by exactly the names it is about |
| `Conservation.NameStays` | packages/packages.go:76-90 | And a name once in the file stays until it is removed |
| `Conservation.ConservesNextIff` | packages/packages.go:58-132 | Whatever operation comes next conserves the file if and only if memory agrees with it |
| `PackageSync.LostUpdate` | packages/packages.go:219-221 | A run without any loss or failure after which a name that was added and never removed is gone from the file |
| `PackageSync.LostUpdateNames` | packages/packages.go:26-35 | Three package names that run exists for |
| `Packages.Manager.Open` | packages/packages.go:45-55 | Opening fails exactly when the file cannot be read, does not parse or names an invalid package; what it opens is an initial state of the interleaving model |
| `Packages.Manager.List` | packages/packages.go:92-97 | The set in strictly increasing order |
| `Packages.Manager.Flush` | packages/packages.go:225-241 | The file becomes the sorted set, with one notification, or nothing changes |
| `Packages.Manager.Add` | packages/packages.go:57-74 | Errors exactly for invalid and tracked names; otherwise a run of the interleaving model; a failure changes nothing; memory and file stay in agreement |
| `Packages.Manager.Remove` | packages/packages.go:76-90 | Likewise for removal |
| `Packages.Manager.Seed` | packages/packages.go:106-132 | Adds what is missing in one flush; a failed flush restores the prior set; an invalid name leaves exactly the earlier names in memory, so agreement survives if and only if there was none to add before it |
| `Packages.Manager.ReadFile` | packages/packages.go:190-218 | What the file parses to, or which of the three ways it does not |
| `Packages.Manager.Load` | packages/packages.go:190-223 | The set becomes what the file parses to, or stays |
| `Packages.FileSetOfFlushed` | packages/packages.go:208-228 | Loading what a flush wrote gives the same set |
| `Watcher.Watcher.SyncClients` | watcher/watcher.go:197-223 | Clients match the configured emulators in order, with distinct serials; each known serial keeps its client object, new ones get new objects; a client has the configured ABI exactly when no old one with its serial had another; a second sync changes nothing |
| `Watcher.SerialInjective` | watcher/watcher.go:208 | Different ports give different serials |
| `Watcher.EffectivePackages` | watcher/watcher.go:79-95 | The loop with its `seen` map computes the first occurrences |
| `Watcher.PolledOnce` | watcher/watcher.go:77-95 | Each configured or managed package is polled exactly once, configured ones first, in the order of first occurrence |
| `Config.ValidateEmulators` | config/config.go:241-259 | Accepts exactly the non-empty lists of known ABIs on distinct ports in range, and otherwise reports the first entry in the way with its reason |
| `Adb.ParseVersionInfo` | adb/adb.go:126-163 | The loop computes the recursive scan, its early stop and the unguarded index included |
| `Adb.ScannedPrefix` | adb/adb.go:129-131 | Scanning text undoes printing lines, whatever text follows |
| `Adb.OverlongStops` | adb/adb.go:129-130 | Nothing is scanned from the first line of 65536 bytes on |
| `Adb.VersionRoundTrip` | adb/adb.go:126-163 | Parsing undoes printing: a section that prints any non-zero 64-bit code, up to the line end or followed by white space and anything, and a name, in either order and padded in any way, gives that code and that name, cut to 128 bytes |
| `Adb.CodeAlone` | adb/adb.go:159-162 | A code without a name up to the end of the output is reported with an empty name |
| `Adb.NothingReported` | adb/adb.go:159-161 | A section that mentions no version, or none at all, reports nothing |
| `Adb.UnreadableWord` | adb/adb.go:141-145 | A first word that is not a decimal within 64 bits fails the parse |
| `Adb.QuotedOutput` | adb/adb.go:139 | The line the code quotes gives 1042 |
| `Adb.ScanMeaning` | adb/adb.go:126-163 | The answer without the loop: the last code and the last name among the section's lines up to the first that is unreadable or completes the version |
| `Adb.SectionLocal` | adb/adb.go:126-163 | On output text: a section with one non-zero code and one name, in either order, decides the answer, whatever precedes the section and whatever text follows |
| `Adb.SectionDecidesIff` | adb/adb.go:132-157 | Any section settles the answer by itself if and only if one of its lines is decisive; otherwise a readable line about another package changes it |
| `Adb.MissingNameReadsOn` | adb/adb.go:132-157 | Any other section reads on: the answer is made of its lines and all that follow up to the first decisive one, and is its own if and only if none is decisive and the last code of all is its own |
| `Adb.IncompleteSection` | adb/adb.go:155-157 | A readable section without a name, or without a code, is never decisive |
| `Adb.WrongSectionWitness` | adb/adb.go:132-157 | Concrete output text for which another package's code is reported |
| `Adb.PanicsIff` | adb/adb.go:141 | On all inputs: the parse panics if and only if the first decisive line after the first header is a bare `versionCode=` |
| `Adb.PanicWitness` | adb/adb.go:141 | Output of two lines on which it panics, for any package |
| `Adb.PanicsOnBareCode` | adb/adb.go:141 | The index is out of range exactly on a line that is `versionCode=` and nothing else |
| `Adb.ParsedInRange` | adb/adb.go:142-162 | A reported code is a 64-bit number other than zero |
| `Adb.ParsePMPaths` | adb/adb.go:166-181 | The loop computes the listed paths, and reports an error exactly when there are none |
| `Adb.PMPathsRoundTrip` | adb/adb.go:166-181 | Parsing undoes printing: paths printed as `package:` lines, padded in any way, among any other lines, come back in order |
| `Names.PackageNameIsDottedIdentifiers` | packages/packages.go:26-35 | The pattern accepts exactly the names whose dot-split has two or more letter-led identifiers |
| `Names.PackageDirsDisjoint` | extractor/extractor.go:40-48 | A package directory is one path segment; nothing below it lies below another package's, `state` or `.tmp` |
| `Names.SafeFilenameIff` | extractor/extractor.go:178-192 | A listed path is accepted under its last segment if and only if that ends in `.apk`, does not begin with a dot, and has only letters, digits, `_`, `-` and `.` |
| `Names.SafeFilenameIdempotent` | extractor/extractor.go:178-192 | An accepted name is one segment, never the manifest's, and is accepted again unchanged from any directory |
| `Names.LocalPathsInjective` | extractor/extractor.go:156 | Different names never share a local path, whichever device directories are used |
| `Names.ParseNameToString` | extractor/extractor.go:405-424 | Every directory entry's name has a structured form with the version that pruning reads from it |
| `Names.StringInjective` | extractor/extractor.go:200 | No two files the service writes in a package directory share a name |
| `Names.OthersHaveNoVersion` | extractor/extractor.go:411-418 | Checksum and temporary files are never taken for version files |
| `Names.VersionIff` | extractor/extractor.go:411-422 | A name is a version file of a code if and only if it is that number, with any sign and leading zeros that can be read, and one of the two extensions |
| `Names.SplitIdMeaning` | extractor/extractor.go:309-317 | `base.apk` is `base`, a split's identifier is what follows `split_`, any other name its own |
| `Text.AtoiIff` | adb/adb.go:142 | Reading a number, on all strings: a signed or unsigned decimal within 64 bits, leading zeros allowed, and nothing else |
| `Text.TrimPadded` | adb/adb.go:131 | Trimming takes white space off both ends and nothing else |
| `Text.LessMeaning` | extractor/extractor.go:232 | The order of the archive's files is lexicographic by bytes |

## Left out

- Service.Poller.WriteArtifact: `atomicCopy` ignores errors of the final close (extractor/extractor.go:383); a copy that succeeded is taken to be complete.
- Service.Poller.Restart: assumes that `store.json` can be read back; an unreadable or unparsable store stops the real service at start-up.
- Service.Poller.Extract: failures to create the package directory or the private temporary directory are not modelled; both come before anything is pulled. The 1024 MB default for a limit of zero is the caller's.
- Collector.Extraction.WriteArchive: errors inside the ZIP writer are covered by the failing write of the artifact, not by branches of their own.
- PackageSync.QuiescentEqual: assumes what the name `Benign` lists: external edits are valid lists, nobody deletes the file, each replacement is notified and read. `QuiescentAgrees` drops this.
- Packages.Manager.Load: the reader's read and swap are separate events in `PackageSync`; the method has nothing in between.
- Watcher.Watcher.SyncClients: the connection attempt for a new client, whose failure the code only logs.
- Adb.PMPathsRoundTrip: white space is ASCII; Unicode spaces are not trimmed in the model. The same goes for the other parsers.
- Power failure: a crash is that of the process, so completed writes and renames last.
- Other writers in the output directory: the runs start from an empty one and only the service writes there. Pruning itself (`Files`) is proved for any directory.
- Changing the output directory or the clients during a run of the machine: the store is opened once, and each check takes a snapshot of the clients.
- Processes: `adb`, `apksigner`, reconnecting, and the search for build tools. Devices and signatures are arbitrary inputs.
- `normalizeFingerprint`, the other configuration checks, and configuration reload, whose callbacks run unordered.
- The HTTP API, its authentication, logging, file modes, permission warnings, start-up and shutdown.
- Change handlers of the package manager and of the configuration, and timestamps in `latest.json` and `store.json`.
- Clean-up of leftover temporary directories at start-up.
- The internals of SHA-256, ZIP, JSON and the file notification library.
- Injectivity of split identifiers: it does not hold, as `base.apk` and `split_base.apk` share one, and nothing depends on it.
