# MystiProxy: a Dafny model

MystiProxy keeps mock configurations on proxies and at a centre, synchronises them with
version vectors, rewrites JSON bodies and headers, reloads its configuration while running,
and serves files and templates. This project models the parts of it with the most state and
branching and proves what they promise, for every input and every run.

`dafny verify dfyconfig.toml` checks the whole project.

## What is modelled

- **Version vectors** (`VersionVectors`). Counters are 64-bit and wrap on increment. A key that
  is present with zero differs from an absent key, so every result that needs vectors free of
  zeros says so, and the requests that keep them free of zeros are stated.
- **Pushing** (`PushProtocol`, `PushRuns`). The service and the live handler decide separately
  what to do with a pushed configuration. Both are step functions over a store, with every
  storage call that may fail as an input; batches and whole runs are folds of them.
- **Conflicts** (`ConflictResolution`). The queue, its three resolutions, and every other request
  that changes the central state, as one transition function.
- **Pulling** (`PullProtocol`, `MockRepository`). The plain and the checksum-filtered answer, the
  listing and paging they rest on, and the client that applies them and may be cut short.
- `CentralServer` holds the loops of the handlers, over stores changed in place; each is proved
  equal to the step functions.
- **JSON paths** (`JsonPaths`, `JsonDeletion`, `BodyTransformer`). A path is normalised to steps;
  get, set and delete are functions of steps, and the in-place walks (the moving mutable
  reference becomes the path from the root to what it points at) are proved equal to them.
- **Hot reload** (`ConfigWatcher`, `ConfigManager`). File events, triggers and the worker as a
  state machine over all interleavings; the manager with its bounded history.
- **Scanners** (`Text`, `Templates`, `PercentDecoding`, `RangeHeader`), **header actions**
  (`HeaderActions`) and **address filters** (`IpFilter`).

Hash maps yield their entries in an arbitrary order: loops over them pick any remaining key.
Generated ids, times, content hashes, the validation of engines and the HTTP library's parsing
of header names and values are parameters.

## Where the code and expectations part

- `dominates` does not decide the pointwise order when the other vector holds a zero under a key
  this one lacks (`DominatesExactly`, `ZeroCounterHidesDomination`).
- The live handler saves a version that the stored one dominates; one push undoes newer content
  (`OnePushRewindsTheHandler`). The service refuses that, unless the hash is unchanged; so it
  takes two pushes (`TwoPushesRewindTheService`). `ChainExactly` says when stored vectors climb.
- The conflict documents under docs/features (F2) say that keep_central leaves the central
  configuration alone. The code saves the version recorded when the conflict was queued, which
  may be older than the stored one (`KeepCentralRewinds`); `KeepCentralRewindsExactly` says
  after which requests.
- docs/OVERVIEW.md:154 says of `POST /sync/conflicts/:id/resolve` (routes.rs:511-560) that after
  keep_local the vector holds both sides' components. That endpoint and the one modelled here
  (conflicts.rs:59-112) both increment the local vector only, so the result is concurrent with
  the central one (`OnlyMergeClimbs`), and the central version conflicts again
  (`ResolutionTable`).
- Both pull answers look at the default page of 20 only; a first pull converges exactly when the
  centre holds no more than that (`FirstPullConvergesExactly`). The checksums also hide changes
  outside the hash (`FilteredPullRefinesPlain`).
- With a repeated id in one batch service and handler may report different things
  (`RepeatedIdsSplitTheReports`). `StoresAgreeExactly` and `ReportsAgreeExactly` say when their
  stores and their reports do not part.
- Pages of the SQL listing may repeat or skip configurations created at the same time
  (`TiedPagesMayRepeat`); `PagesTileExactly` says when they cannot.
- A set that fails may leave new empty containers behind (`FailedSetCanGrow`), exactly when a
  field on its way was missing (`FailedSetChangesExactly`). A delete with several indices in its
  last part may fail after removing an element (`TwoIndicesFailAfterRemoving`,
  `FailedDeleteChangesExactly`).
- The three percent-decoders part on malformed escapes and above 0x7F
  (`DecodersDifferOnMalformedEscapes`, `DecodersAgreeExactly`, `LenientAgreesExactly`); a plus
  sign passes for the first hex digit in all three (`HexPairExactly`, `PlusInEscape`).
- Two spellings of one header name can make the result depend on the order of a hash map
  (`SpellingsCollide`, `OrderIrrelevantExactly`).
- Number parsing accepts a leading plus sign, so `bytes=+5-7` is a range here although section
  14.1.2 of RFC 9110 allows digits only (`PlusSignIsAccepted`, `SidesParseExactly`); and a last
  position past 64 bits is an error where the RFC clips it (`WellFormedSpecifier`).
- An IPv6 rule of prefix 0 does not match every IPv6 address, as a prefix of no bits does in
  section 2.3 of RFC 4291, but only its own: the shift by 128 wraps (`RuleIsBlockExactly`).
- A suffix range of an empty file is answered with a span that has wrapped around
  (`SelectedIsSatisfiable`).

## Model

| member | source | states |
|---|---|---|
| VersionVectors.VersionVector.Increment | mysti-common/src/models.rs:121-123 | one counter goes up by one modulo 2^64, an absent key starting at zero; every other entry stays |
| VersionVectors.VersionVector.Merge | mysti-common/src/models.rs:131-136 | in any iteration order the loop leaves the pointwise maximum over both key sets |
| VersionVectors.VersionVector.DominatesOther | mysti-common/src/models.rs:140-161 | in any iteration order the two loops and the flag decide: at least as large at each own key, no key missing, one strictly larger |
| VersionVectors.StrictPartialOrder | mysti-common/src/models.rs:138-161 | domination is irreflexive, asymmetric and transitive on all vectors, zeros included |
| VersionVectors.DominatesExactly | mysti-common/src/models.rs:138-161 | domination is "pointwise at least and somewhere more" exactly up to keys of the other vector that this one lacks; on zero-free vectors it is "pointwise at least and different" |
| VersionVectors.ZeroCounterHidesDomination | mysti-common/src/models.rs:153-158 | two vectors, one pointwise above the other, that are concurrent because of a zero counter |
| VersionVectors.ExactlyOneRelation | mysti-common/src/models.rs:163-167 | any two vectors are in exactly one of: equal, dominating, dominated, concurrent |
| VersionVectors.ZeroFreeKept | mysti-common/src/models.rs:114-136 | with_instance and merge produce no zero counter; increment does exactly when its counter is at the maximum |
| VersionVectors.IncrementAscends | mysti-common/src/models.rs:121-123 | an increment strictly dominates the old vector exactly when the counter does not wrap |
| VersionVectors.MergeIsLeastUpperBound | mysti-common/src/models.rs:130-136 | on zero-free vectors merge is above both and below everything above both |
| VersionVectors.MergeWithZeroIsNoBound | mysti-common/src/models.rs:130-136 | with a zero counter merge need not be above its arguments |
| VersionVectors.MergeBoundsExactly | mysti-common/src/models.rs:130-136 | on all vectors the merge is at least the first vector exactly when the second brings no new key or somewhere counts more |
| VersionVectors.MergeAssociates | mysti-common/src/models.rs:130-136 | merge is associative on all vectors |
| VersionVectors.MergeCommutes | mysti-common/src/models.rs:130-136 | merge is commutative and idempotent on all vectors |
| PushProtocol.EveryPushAccountedFor | mysticentral/src/services/sync_service.rs:96-105 | with any storage failures and repeated ids, accepted, conflicting and lost ids together are the pushed ids, each as often as pushed |
| PushProtocol.OnlyTheHandlerLoses | mysticentral/src/handlers/routes.rs:475-484 | the service reports every push whatever fails; the handler drops one only when a save fails |
| PushProtocol.PushStoresExactly | mysticentral/src/services/sync_service.rs:126-203 | one push, with any failures, puts the pushed configuration as it came under its id or changes nothing; it does when its save works and it is not in conflict with the stored vector (nor, for the service, stale), an absent id being neither, or when the handler's lookup failed |
| PushProtocol.HealthyPushStoresExactly | mysticentral/src/handlers/routes.rs:444-488 | without failures a push ends stored exactly when its id is new, or the stored version is not concurrent with it and, for the service, not newer with another hash, or is the same; otherwise the id keeps what it had |
| PushProtocol.PushReportsExactly | mysticentral/src/services/sync_service.rs:126-203 | what one push adds to the accepted ids and conflicts, with reason and reported central version, in every case of conflict, staleness and failure |
| PushProtocol.BatchStoresExactly | mysticentral/src/services/sync_service.rs:99-105 | a batch of distinct ids stores each pushed configuration its starting store lets in and leaves every other id alone |
| PushProtocol.BatchReportsExactly | mysticentral/src/handlers/routes.rs:444-488 | its accepted ids and its conflicts are exactly those of the single pushes |
| PushProtocol.QueueHoldsLastConflict | mysticentral/src/handlers/routes.rs:453-473 | after a batch of the handler, with any failures and repeated ids, the queue holds for each id the last conflict whose lookup and upsert succeeded, with the version stored when it arrived, or what it held before |
| PushProtocol.BatchIsPointwise | mysticentral/src/services/sync_service.rs:99-105 | in a batch of distinct ids each push ends as if judged alone against the store the batch began with |
| PushProtocol.DecidersCompared | mysticentral/src/services/sync_service.rs:126-203 | without failures service and handler report the same accepted ids and conflicts in the same order, and their stores differ at exactly the ids where the stored vector dominates the pushed one and the hashes differ |
| PushProtocol.RepeatedIdsSplitTheReports | mysticentral/src/handlers/routes.rs:444-488 | with a repeated id the two reports differ |
| PushProtocol.StoresAgreeExactly | mysticentral/src/handlers/routes.rs:444-488 | on every batch without failures, repeated ids included, the stores of service and handler agree after every prefix exactly when no push is stale against the store it meets, and then the reports agree too |
| PushProtocol.ReportsAgreeExactly | mysticentral/src/handlers/routes.rs:444-488 | on every batch without failures, repeated ids included, the reports of service and handler agree after every prefix exactly when each push is in conflict with the same version, or with none, in both running stores |
| PushRuns.BatchIsARun | mysticentral/src/services/sync_service.rs:99-115 | a batch changes the store as the run of its single pushes |
| PushRuns.RemovalExactly | mysticentral/src/services/sync_service.rs:107-115 | a deletion takes its id out of the store unless the storage call fails |
| PushRuns.StepAscendsExactly | mysticentral/src/services/sync_service.rs:130-158 | one push moves a stored vector to an equal or dominating one exactly unless it regresses: for the service a dominated vector under an unchanged hash, for the handler any dominated vector, or a concurrent one whose lookup failed |
| PushRuns.VectorsClimb | mysticentral/src/services/sync_service.rs:126-165 | between any two moments of a run without deletion or regression of an id its stored vector only climbs |
| PushRuns.ChainExactly | mysticentral/src/services/sync_service.rs:126-165 | over a whole run the vectors stored for an id ascend, each above all before it, exactly when no push of it regresses |
| PushRuns.ContentChangesWithTheVector | mysticentral/src/services/sync_service.rs:145-152 | in every run of the service stored content changes only with an equal or dominating vector |
| PushRuns.TwoPushesRewindTheService | mysticentral/src/services/sync_service.rs:145-158 | two accepted pushes replace content under a vector the first stored one dominates |
| PushRuns.OnePushRewindsTheHandler | mysticentral/src/handlers/routes.rs:474-479 | the handler saves other content under a dominated vector |
| ConflictResolution.EveryRunSound | mysticentral/src/handlers/routes.rs:453-467 | in every run of all requests each queued record holds two concurrent versions of its own id; zero counters never appear when no request brings one, ids are new and no counter wraps |
| ConflictResolution.ResolveExactly | mysticentral/src/handlers/conflicts.rs:59-112 | the whole stored configuration after each resolution: the local side under its raised vector, the central side as queued, or the given one under the raised join of all three; the answer is what was stored, other ids stay, and each refused input and failing storage call gives its error and changes nothing more |
| ConflictResolution.DismissExactly | mysticentral/src/handlers/conflicts.rs:115-128 | a dismissal drops that record only, or reports that there is none, and leaves the store |
| ConflictResolution.UpdateExactly | mysticentral/src/services/mock_service.rs:68-118 | an edit stores the fields that were sent and keeps the others, with the new hash, the raised vector and the new update time; every refusal has its error and changes nothing |
| ConflictResolution.ImportAndDeleteExactly | mysticentral/src/services/mock_service.rs:120-128 | an import stores the configuration as it came, a delete takes it out; other ids and the queue stay |
| ConflictResolution.KeepLocalExactly | mysticentral/src/handlers/conflicts.rs:75-79 | after keep_local the central version conflicts again exactly unless it is the local version stripped of zero counters |
| ConflictResolution.KeepLocalSettlesZeroCounters | mysticentral/src/handlers/conflicts.rs:75-79 | an input on which keep_local settles the central side too |
| ConflictResolution.ResolutionTable | mysticentral/src/handlers/conflicts.rs:74-109 | which side conflicts when pushed again: central but not local after keep_local, local but not central after keep_central, neither after merge, whose vector dominates both; the record is gone |
| ConflictResolution.ConflictsIsReported | mysticentral/src/handlers/routes.rs:453-473 | for both deciders a concurrent stored vector is what makes a push a conflict |
| ConflictResolution.EveryQueuedConflictResolves | mysticentral/src/handlers/conflicts.rs:59-112 | the whole table holds of every conflict queued in any admissible run from an empty server |
| ConflictResolution.OnlyMergeClimbs | mysticentral/src/handlers/conflicts.rs:74-109 | while the stored version is the queued one, merge climbs above it, keep_central keeps it, keep_local leaves it for a concurrent vector |
| ConflictResolution.UpdateClimbs | mysticentral/src/services/mock_service.rs:74-115 | an edit succeeds exactly on an existing id without a concurrent client vector; it moves the stored vector strictly up exactly when the counter does not wrap, and above a client that was at most level |
| ConflictResolution.KeepCentralRewinds | mysticentral/src/handlers/conflicts.rs:80-108 | a run after which keep_central replaces the stored version by one it dominates |
| ConflictResolution.KeepCentralExactly | mysticentral/src/handlers/conflicts.rs:80-108 | keep_central leaves the stored configuration as it is, up to the update time, exactly when it is the queued central version |
| ConflictResolution.KeepCentralRewindsExactly | mysticentral/src/handlers/conflicts.rs:80-108 | in every run from an empty server a queued record holds the version stored when its push arrived, and keep_central replaces the stored configuration by another exactly when the last later request that stored or deleted it (push, import, edit, delete, or a resolution that kept the record) left something else |
| CentralServer.SyncService.HandlePull | mysticentral/src/services/sync_service.rs:35-79 | an unknown instance is refused and a failing lookup or listing is an error; otherwise the answer is exactly the page's configurations modified since and not known by hash, newest first |
| CentralServer.SyncService.ProcessPushedConfig | mysticentral/src/services/sync_service.rs:126-203 | the store gains exactly the pushed configuration or nothing, and the result is acceptance or the reported conflict, in every case of conflict, staleness and failure |
| CentralServer.SyncService.HandlePush | mysticentral/src/services/sync_service.rs:83-122 | an unknown instance or a failing lookup changes nothing; otherwise the batch, for distinct ids each configuration the store lets in, then the deletions that do not fail; accepted ids include the deletions that found their id |
| CentralServer.RemovalsExactly | mysticentral/src/services/sync_service.rs:107-115 | after the deletions exactly the ids of those that did not fail are gone |
| CentralServer.AcceptedDeletionsExactly | mysticentral/src/services/sync_service.rs:107-115 | a deletion is accepted exactly when it does not fail, its id was stored and no earlier one took it out |
| CentralServer.Handlers.SyncPush | mysticentral/src/handlers/routes.rs:434-495 | store, queue and both lists are those of the handler's batch: for distinct ids each configuration the store lets in is stored and accepted, the others reported or dropped |
| CentralServer.Handlers.SyncPull | mysticentral/src/handlers/routes.rs:405-432 | the answer is exactly the page's configurations modified since, newest first, or the error of the listing |
| CentralServer.Handlers.ResolveConflict | mysticentral/src/handlers/conflicts.rs:59-112 | in place: the configuration each resolution stores, the record removed, other ids untouched, and every error case |
| CentralServer.Handlers.DismissConflict | mysticentral/src/handlers/conflicts.rs:115-128 | the record goes, the store stays; a missing record is an error |
| CentralServer.Handlers.UpdateMock | mysticentral/src/services/mock_service.rs:68-118 | in place: the fields sent, hash, vector and time are stored, and every refusal changes nothing |
| MockRepository.Filter.Limit | mysti-common/src/models.rs:605-607 | 20 by default, the requested limit when it is between 1 and 100, and always within those bounds |
| MockRepository.OffsetExactly | mysti-common/src/models.rs:598-614 | an explicit offset is taken as it is; otherwise a page starts behind the pages before it, the first for no or a zero page number |
| MockRepository.WindowExactly | mysticentral/src/services/repository.rs:93-97 | a page holds what stands at the offset and after it, up to the limit or the end |
| MockRepository.InMemoryMockRepository.FindAll | mysticentral/src/services/repository.rs:60-98 | the result is a window of the matching configurations, each once, newest first |
| MockRepository.InMemoryMockRepository.CountMatching | mysticentral/src/services/repository.rs:117-146 | the count is the length of that listing, cut to 32 bits |
| MockRepository.ListingIsUnique | mysticentral/src/services/repository.rs:90-91 | with distinct creation times the listing has one order |
| MockRepository.PagesTile | mysti-common/src/models.rs:598-614 | pages 1 to ceil(count / limit) concatenated are the whole listing, for any requested limit and no explicit offset |
| MockRepository.PagesTileExactly | mysticentral/src/services/postgres_repository.rs:47-78 | whatever orders single answers use for ties, the pages put together are a listing exactly when no tie straddles a boundary between two pages |
| MockRepository.TiedPagesMayRepeat | mysticentral/src/services/postgres_repository.rs:47-78 | with equal creation times two pages may show the same configuration: the SQL listing leaves the order of ties open; the in-memory listing repeats its order until its map changes |
| PullProtocol.FilteredPullRefinesPlain | mysticentral/src/services/sync_service.rs:58-71 | filtered and plain answers leave the same hash at every id; the rows differ exactly where a difference outside the hash was skipped |
| PullProtocol.AnswerExactly | mysticentral/src/services/sync_service.rs:49-79 | an answer holds exactly the page's configurations modified since that are not known by their hash, newest first |
| PullProtocol.PullsExactly | mystiproxy/src/management/sync.rs:285-297 | with one configuration per id, after the storage calls that succeeded each saved configuration stands in the rows with every field but the creation time of an existing row, deleted ids are absent and all other rows are as before |
| PullProtocol.PullConvergesExactly | mysticentral/src/services/sync_service.rs:48-71 | after one round the replica matches the centre exactly when everything outside the page or not modified since was matched before |
| PullProtocol.SmallStorePullsConverge | mysticentral/src/handlers/routes.rs:412-430 | with at most 20 configurations both answers agree and a replica behind only on later changes has caught up, however ties are listed |
| PullProtocol.FirstPullConvergesExactly | mysticentral/src/services/sync_service.rs:49-51 | an empty replica converges exactly when the centre holds at most 20 configurations, all modified since |
| PullProtocol.PullKeepsForeignRows | mysticentral/src/services/sync_service.rs:55 | rows the centre has deleted stay on the replica |
| PullProtocol.RetryAbsorbsInterruption | mystiproxy/src/management/sync.rs:285-296 | a pull cut short anywhere and repeated with the hashes held by then ends with the hashes of an uninterrupted one |
| PullProtocol.SyncClient.Save | mystiproxy/src/management/repository.rs:240-289 | insert or update: every field of the configuration but the creation time of an existing row, other rows untouched |
| PullProtocol.SyncClient.AllHashes | mystiproxy/src/management/repository.rs:310-325 | the hash of every active row and nothing of any other |
| PullProtocol.SyncClient.Pull | mystiproxy/src/management/sync.rs:285-297 | the rows are those after exactly the storage calls that succeeded, saves before deletions, wherever one fails; the last-sync time moves only when all do |
| PullProtocol.SyncClient.PerformPeriodicSync | mystiproxy/src/management/sync.rs:397-471 | as Pull, with the status: Connected on success, Disconnected on refusal, Syncing after any other failure |
| JsonPaths.SetThenGet | mystiproxy/src/http/body.rs:116-268 | whatever a successful set stored, the reader finds at that path |
| JsonPaths.GetIsAWalk | mystiproxy/src/mock/mod.rs:315-371 | the reader finds a value exactly where a walk of single steps, each to a field or an element of the value before, leads to it |
| JsonPaths.GetFailsExactly | mystiproxy/src/http/body.rs:331-374 | navigation fails with the error of the first step that leads nowhere |
| JsonPaths.FailedSetErrorIsReaders | mystiproxy/src/http/body.rs:116-268 | a failed set stops where the reader stops in the document it leaves, with the same error |
| JsonPaths.SetTwice | mystiproxy/src/http/body.rs:116-268 | a second set gives the document and error it would give alone, whether or not the first succeeded |
| JsonPaths.SetWhatIsThere | mystiproxy/src/http/body.rs:116-268 | setting a place to the value it has changes nothing |
| JsonPaths.SetSucceedsExactly | mystiproxy/src/http/body.rs:116-268 | a set succeeds exactly where the path resolves or where what is missing starts at an absent field and is plain object fields to the end |
| JsonPaths.SetLeavesDivergingPaths | mystiproxy/src/http/body.rs:116-268 | a set, failed or not, leaves every diverging path resolving to the same value or to none |
| JsonPaths.FailedSetOnlyGrows | mystiproxy/src/http/body.rs:147-158 | a failed set only adds containers without scalars under names that were absent |
| JsonPaths.FailedSetKeepsScalars | mystiproxy/src/http/body.rs:147-207 | after a failed set exactly the scalars that resolved before resolve, to the same scalars |
| JsonPaths.FailedSetCanGrow | mystiproxy/src/http/body.rs:172-201 | a failed set that creates an empty array |
| JsonPaths.FailedSetChangesExactly | mystiproxy/src/http/body.rs:147-201 | a failed set changes the document exactly when a field on its way is missing from the object it should be in |
| JsonDeletion.FieldIsGone | mystiproxy/src/http/body.rs:320-325 | after a successful field delete the field does not resolve |
| JsonDeletion.FieldDeleteExactly | mystiproxy/src/http/body.rs:301-328 | a field delete takes the field out of a parent object, ignores a parent that is none, and fails only on a parent that does not resolve |
| JsonDeletion.BracketDeleteExactly | mystiproxy/src/http/body.rs:397-412 | one bracket removes its element, or nothing out of range; no array and no index are errors |
| JsonDeletion.BracketsDeleteInTurn | mystiproxy/src/http/body.rs:397-412 | several brackets delete one after the other, each from what is left, until one fails |
| JsonDeletion.FieldDeleteLeavesDivergingPaths | mystiproxy/src/http/body.rs:301-328 | a field delete leaves every path that diverges from the field as it was |
| JsonDeletion.ArrayDeleteLeavesDivergingPaths | mystiproxy/src/http/body.rs:377-416 | an array delete leaves every path that diverges from the array as it was |
| JsonDeletion.ElementIsRemovedAndOthersShift | mystiproxy/src/http/body.rs:403-406 | one index in range removes that element and shifts the later ones by one, at every path below |
| JsonDeletion.FailedDeleteChangesExactly | mystiproxy/src/http/body.rs:397-412 | a failed delete leaves the document unchanged exactly when no earlier index of its last part was in range, so always with at most one index |
| JsonDeletion.TwoIndicesFailAfterRemoving | mystiproxy/src/http/body.rs:397-412 | a delete that removes an element and then fails |
| JsonDeletion.DeleteUndoesSet | mystiproxy/src/http/body.rs:320-325 | deleting a field restores the document from before the set that created it |
| BodyTransformer.OneBracket | mystiproxy/src/http/body.rs:188-192 | `name[inside` is a field that creates an array when missing, unless the name is empty, and then an index, an invalid index, or nothing when the bracket is not closed |
| BodyTransformer.PlainPart | mystiproxy/src/http/body.rs:147-154 | a part without brackets is a field that creates an object when missing |
| BodyTransformer.AnotherBracket | mystiproxy/src/http/body.rs:188-192 | a further bracket is appended to the steps of the part before it |
| BodyTransformer.NormalizedExactly | mystiproxy/src/http/body.rs:100-113 | a path text is the root or, after `$.`, the steps of what stands between its dots in turn; nothing else is a path |
| BodyTransformer.PlainPath | mystiproxy/src/http/body.rs:100-113 | a path of plain names is the list of their fields |
| BodyTransformer.PlainSetSucceedsExactly | mystiproxy/src/http/body.rs:116-162 | a set on a path of plain names succeeds exactly when what is there of the way consists of objects, and the reader then finds the value; on an empty object it always does |
| BodyTransformer.RootAndMalformed | mystiproxy/src/http/body.rs:100-111 | the root is set, read and nulled as a whole; a text that is no path is an error and changes nothing |
| BodyTransformer.DeleteAtExactly | mystiproxy/src/http/body.rs:271-328 | a plain last part deletes its field from what the parts before it name, one with a bracket deletes by index from what they and its name name |
| BodyTransformer.DeleteAnotherBracket | mystiproxy/src/http/body.rs:377-416 | a further bracket of the last part is one more removal from the same array |
| BodyTransformer.PutGet | mystiproxy/src/mock/mod.rs:315-371 | put-get for every path string and document |
| BodyTransformer.PutPut | mystiproxy/src/http/body.rs:100-113 | put-put for every path string and document |
| BodyTransformer.GetPut | mystiproxy/src/http/body.rs:100-113 | get-put for every path string and document |
| BodyTransformer.DeletedFieldDoesNotResolve | mystiproxy/src/http/body.rs:271-328 | after a successful delete whose last part has no bracket its path string does not resolve |
| BodyTransformer.MockBuilder.NavigateArray | mystiproxy/src/mock/mod.rs:339-371 | the reader's walk over one part finds what its steps resolve to |
| BodyTransformer.MockBuilder.GetValueByPath | mystiproxy/src/mock/mod.rs:315-336 | the reader's loop finds what the normalised path resolves to |
| BodyTransformer.BodyTransformer.EnterField | mystiproxy/src/http/body.rs:147-154 | moving to a field, created when missing, keeps the outcome of the set in progress |
| BodyTransformer.BodyTransformer.EnterArray | mystiproxy/src/http/body.rs:165-268 | the walk over field and brackets keeps the outcome of the set in progress, or is its error |
| BodyTransformer.BodyTransformer.SetNestedValue | mystiproxy/src/http/body.rs:116-162 | the in-place recursion leaves the document and error of the set function |
| BodyTransformer.BodyTransformer.SetValueByPath | mystiproxy/src/http/body.rs:100-113 | the in-place set does what the set function says of the path string |
| BodyTransformer.BodyTransformer.NavigateArray | mystiproxy/src/http/body.rs:331-374 | the mutable walk ends at the part's steps or with the reader's error |
| BodyTransformer.BodyTransformer.DeleteArrayElement | mystiproxy/src/http/body.rs:377-416 | the removing loop leaves the document and error of the delete function |
| BodyTransformer.BodyTransformer.DeleteValueByPath | mystiproxy/src/http/body.rs:271-328 | the in-place delete does what the delete function says of the path string |
| ConfigWatcher.EveryInterleaving | mystiproxy/src/config/watcher.rs:64-125 | in every interleaving a version no load has read has left an undelivered event, a signal or a worker about to load; every signal was dropped, became a load or is held; at rest the last load saw the latest file |
| ConfigWatcher.SettlesInBoundedSteps | mystiproxy/src/config/watcher.rs:105-125 | left alone the watcher takes no more steps of its own than a bound computed from its state |
| ConfigWatcher.RestOrStep | mystiproxy/src/config/watcher.rs:105-125 | it has no step of its own exactly when nothing is undelivered, no signal is held and the worker waits |
| ConfigWatcher.EveryChangeIsLoaded | mystiproxy/src/config/watcher.rs:64-125 | after any run, once input stops, every schedule that cannot go on has loaded the version on disk |
| ConfigWatcher.DeliverExactly | mystiproxy/src/config/watcher.rs:68-90 | a delivered event signals exactly when it is a create, modify or remove event that names the file; it fills the slot or is dropped at a full one, and any other event changes nothing |
| ConfigWatcher.ConfigFileWatcher.OnNotification | mystiproxy/src/config/watcher.rs:68-90 | the callback signals exactly on create, modify and remove events that name the file, fills the slot or drops, changes nothing otherwise, and keeps both invariants: no change missed, every signal accounted for |
| ConfigWatcher.ConfigFileWatcher.TriggerReload | mystiproxy/src/config/watcher.rs:38-40 | a manual trigger is a signal like any other, dropped when one is held, and keeps both invariants |
| ConfigWatcher.ConfigFileWatcher.WorkerReceives | mystiproxy/src/config/watcher.rs:106-107 | the worker empties the channel before it sleeps; a signal taken still stands for the change, so both invariants stay |
| ConfigWatcher.ConfigFileWatcher.WorkerLoads | mystiproxy/src/config/watcher.rs:107-113 | the load reads the version on disk at that moment and keeps both invariants |
| ConfigWatcher.ConfigFileWatcher.WorkerFinishes | mystiproxy/src/config/watcher.rs:113-123 | whatever the load and callback return, the worker waits again and both invariants stay |
| ConfigManager.HistoryRefinesLedger | mystiproxy/src/config/manager.rs:60-163 | in every run history is the last ten entries of an untrimmed ledger and the current configuration its last |
| ConfigManager.EveryRunConsistent | mystiproxy/src/config/manager.rs:38-106 | in every run history holds 1 to 10 snapshots ending in the current configuration, only the first one may be unvalidated, and the notifications chain from the first configuration to the current one |
| ConfigManager.RollbacksAlternate | mystiproxy/src/config/manager.rs:109-122 | k rollbacks alternate between the last two configurations when the previous one validates, also while snapshots are evicted, and otherwise change nothing |
| ConfigManager.RollbacksAlternateInEveryRun | mystiproxy/src/config/manager.rs:109-122 | the same of every state a run can reach |
| ConfigManager.ConfigurationManager.UpdateConfig | mystiproxy/src/config/manager.rs:60-106 | a valid configuration becomes current, is recorded and announced; a rejected one changes nothing |
| ConfigManager.ConfigurationManager.RollbackToPrevious | mystiproxy/src/config/manager.rs:109-122 | succeeds exactly with two snapshots and a valid previous one |
| ConfigManager.ConfigurationManager.SaveSnapshot | mystiproxy/src/config/manager.rs:135-163 | at most ten snapshots: the new one last, before it the end of the old history, the oldest gone exactly when there were ten |
| Templates.FindIsFirst | mystiproxy/src/mock/mod.rs:658-661 | a placeholder starts and ends at the first doubled brace |
| Templates.ParseIsLossless | mystiproxy/src/mock/mod.rs:654-685 | splitting a template loses nothing |
| Templates.ParseIsProper | mystiproxy/src/mock/mod.rs:658-662 | no text contains the start of a placeholder and no key the end of one |
| Templates.ParseIsUnique | mystiproxy/src/mock/mod.rs:658-662 | that split is the only one with this property |
| Templates.HoleRendersInPlace | mystiproxy/src/mock/mod.rs:663-673 | a placeholder's value, or its own text when unresolved, is appended and never scanned again; the rest renders as a template of its own |
| Templates.NoHoleIsIdentity | mystiproxy/src/mock/mod.rs:654-685 | a template without a closed placeholder renders as it stands |
| Templates.FindParamExactly | mystiproxy/src/mock/mod.rs:699-708 | a query parameter is the decoded value of the first pair of its name, and none when a pair without `=` comes before it |
| Templates.ResolveExactly | mystiproxy/src/mock/mod.rs:687-697 | a key, white space around it aside, is a query parameter, a path into the body, or unresolved |
| Templates.RenderTemplate | mystiproxy/src/mock/mod.rs:654-685 | the loop gives the split template, each placeholder filled once |
| Templates.NothingToResolveIsIdentity | mystiproxy/src/mock/mod.rs:687-708 | with no query string and no body every template renders to itself |
| PercentDecoding.UrlDecodeBytes | mystiproxy/src/mock/mod.rs:710-738 | the byte loop decodes unit by unit and reads the bytes as UTF-8, broken sequences replaced |
| PercentDecoding.UrlDecodeChars | mystiproxy/src/http/static_files.rs:407-428 | the character loops, strict and lenient, decode unit by unit |
| PercentDecoding.BytesExactly | mystiproxy/src/mock/mod.rs:710-738 | the byte decoder unit by unit: plain bytes, plus signs, escapes that read as a number, and percent signs that do not start one |
| PercentDecoding.CharsExactly | mystiproxy/src/mock/mod.rs:629-649 | the character decoders unit by unit, any character, with escapes cut short at the end |
| PercentDecoding.DecodeUndoesEncoding | mystiproxy/src/mock/mod.rs:710-738 | decoding undoes every mix of literals, plus signs and escapes that spells a byte string |
| PercentDecoding.RoundTrip | mystiproxy/src/mock/mod.rs:710-738 | every byte string survives encoding, whichever bytes are kept, and decoding |
| PercentDecoding.TextRoundTrip | mystiproxy/src/mock/mod.rs:710-738 | every text survives: its UTF-8 bytes, encoded and decoded, read as the text |
| PercentDecoding.CharsDecodeAsLatin | mystiproxy/src/mock/mod.rs:629-649 | on every well-formed encoding of literal ASCII, escapes of any value, both character decoders give the byte decoder's bytes, one character each |
| PercentDecoding.DecodersAgree | mystiproxy/src/http/static_files.rs:407-428 | all three give the same text for every encoding of bytes below 0x80 |
| PercentDecoding.DecodersAgreeExactly | mystiproxy/src/http/static_files.rs:407-428 | on every ASCII input the strict decoder gives the byte decoder's bytes exactly when after every percent sign it meets two characters that read as a hex number; all three give one text exactly when besides no decoded byte is above 0x7F |
| PercentDecoding.LenientAgreesExactly | mystiproxy/src/http/static_files.rs:407-428 | on every ASCII input the lenient decoder alone gives the byte decoder's bytes exactly when every escape it meets reads as a hex number of two characters or is text the byte decoder keeps too, and its text exactly when besides no decoded byte is above 0x7F |
| PercentDecoding.HexPairExactly | mystiproxy/src/mock/mod.rs:714-721 | two characters read as a hex number exactly when the second is a hex digit and the first is one too or a plus sign, and as which number |
| PercentDecoding.PlusInEscape | mystiproxy/src/mock/mod.rs:717 | `%+5` escapes the byte 5 |
| PercentDecoding.LossyIsLatinExactly | mystiproxy/src/mock/mod.rs:737 | bytes read as UTF-8 are one character each exactly when all are below 0x80 |
| PercentDecoding.DecodersDifferOnMalformedEscapes | mystiproxy/src/mock/mod.rs:714-726 | a malformed escape on which they differ |
| RangeHeader.SelectedIsSatisfiable | mystiproxy/src/http/static_files.rs:496-522 | a selected span is exactly the bytes of the file the specifier asks for, and none is selected exactly when there are none, for every specifier and size but a suffix of an empty file, which gives a span up to the largest number |
| RangeHeader.WellFormedSpecifier | mystiproxy/src/http/static_files.rs:468-522 | a specifier in digits parses to its selection exactly when its numbers fit 64 bits; otherwise the request fails, also where only the last position is too large |
| RangeHeader.SidesParseExactly | mystiproxy/src/http/static_files.rs:478-494 | a specifier parses exactly when each side is empty or, one plus sign dropped, digits that fit 64 bits; which side the error names |
| RangeHeader.PartExactly | mystiproxy/src/http/static_files.rs:468-524 | one part, whatever white space surrounds it: the first side that is no number is the error, two numbers give their selection |
| RangeHeader.OtherPartsSkipped | mystiproxy/src/http/static_files.rs:471-476 | parts with no dash or more than one are skipped |
| RangeHeader.HeaderExactly | mystiproxy/src/http/static_files.rs:457-468 | a header is `bytes=` and a list, white space before it aside; it is refused as no byte range exactly without that unit |
| RangeHeader.PlusSignIsAccepted | mystiproxy/src/http/static_files.rs:478-485 | `bytes=+5-7` is the range 5 to 7 |
| RangeHeader.JoinedListsConcatenate | mystiproxy/src/http/static_files.rs:465-528 | any two lists joined by a comma, white space included, give the concatenation, or the first error |
| RangeHeader.PartsAreInside | mystiproxy/src/http/static_files.rs:496-524 | every range has start at most end, inside the file; on an empty file every range is the one that wraps |
| RangeHeader.ParseRangeHeader | mystiproxy/src/http/static_files.rs:457-529 | the loop gives the parse of the header, errors included |
| RangeHeader.ServeRange | mystiproxy/src/http/static_files.rs:212-268 | the body is the first range's bytes and has the announced length, also on an empty file; with no range it is the whole file |
| HeaderActions.HeaderMap.Apply | mystiproxy/src/http/handler.rs:296-325 | in any iteration order the headers are the fold of the actions in that order |
| HeaderActions.HeaderMap.ApplyOne | mystiproxy/src/http/header.rs:119-146 | overwrite, add when missing, or remove one header |
| HeaderActions.HeaderMap.EvaluateCondition | mystiproxy/src/http/header.rs:85-107 | the evaluation decides the condition against the current headers |
| HeaderActions.HoldsExactly | mystiproxy/src/http/header.rs:85-107 | a condition holds when absent or empty, as a name when the header is there, as `name=value` when the header's first value reads as that value |
| HeaderActions.EffectExactly | mystiproxy/src/http/header.rs:119-146 | what an action makes of the values of its header, for each kind, valid value or not, present or not |
| HeaderActions.FoldedAt | mystiproxy/src/http/header.rs:39-71 | with names distinct ignoring case each header ends as its own action makes it, judged against the incoming headers |
| HeaderActions.EveryOrderAgrees | mystiproxy/src/http/handler.rs:296-325 | without a clash every iteration order gives the same headers, for the transformer when no condition names a touched header |
| HeaderActions.OrderIrrelevantExactly | mystiproxy/src/http/handler.rs:296-325 | the order does not matter exactly when no two actions in force clash on a header: delete against set, two overwriting values, or two values for a missing header that nothing overwrites |
| HeaderActions.TwiceIsOnce | mystiproxy/src/http/handler.rs:296-325 | applying clash-free actions twice, in any two orders, is applying them once |
| HeaderActions.TransformerIsHandler | mystiproxy/src/http/header.rs:39-107 | with empty conditions and no clash transformer and handler agree |
| HeaderActions.SpellingsCollide | mystiproxy/src/http/handler.rs:300-308 | two spellings of one name make the result depend on the order |
| HeaderActions.ConditionsCollide | mystiproxy/src/http/header.rs:39-71 | actions without a clash whose result depends on the order, because one's condition looks at the header the other sets |
| IpFilter.ContainsIsBlock | mystiproxy/src/ip_filter.rs:46-59 | the shift test is membership in the aligned block of 2^(bits - prefix) addresses around the network address; for the IPv6 prefix 0, whose shift wraps, it is equality with that address |
| IpFilter.RuleIsBlockExactly | mystiproxy/src/ip_filter.rs:46-59 | a rule matches its block exactly when it is not an IPv6 rule of prefix 0 |
| IpFilter.AddressSpaces | mystiproxy/src/ip_filter.rs:53-57 | the address spaces have 2^32 and 2^128 addresses, and each bit of prefix less doubles a block |
| IpFilter.RulesAreLaminar | mystiproxy/src/ip_filter.rs:46-59 | any two rules are nested or disjoint |
| IpFilter.AllowedSet | mystiproxy/src/ip_filter.rs:96-104 | allowed is the union of what the allow rules match, or everything without allow rules, minus the union of what the deny rules match |
| Text.SplitOnceIsFirst | mystiproxy/src/mock/mod.rs:700-702 | a single split is at the first separator and fails exactly when there is none |
| Text.SplitIsLossless | mystiproxy/src/http/body.rs:111 | splitting on a character loses nothing and leaves it in no piece |
| Text.SplitOfJoin | mystiproxy/src/http/body.rs:111 | splitting finds the pieces a string was joined from |
| Text.TrimExactly | mystiproxy/src/http/static_files.rs:470 | trimming takes white space off both ends, all of it and nothing else |
| Text.HexValueExactly | mystiproxy/src/mock/mod.rs:717 | the value of a hex digit is its place among the digits, in either case |
| Text.DecimalParsesExactly | mystiproxy/src/http/static_files.rs:478-494 | a decimal number parses exactly when, one plus sign dropped, it is digits whose value fits, and to that value |

## Left out

- Sockets, tasks, HTTP servers and clients, TLS, SQL text, serialisation, login, metrics and the web frontend: input and output or library code; each repository is a map with save and delete.
- The fields a replica does not store (team, environment, state machine, creator): the model's replica row keeps the whole configuration but for the creation time.
- That the system raises a create, modify or remove event naming the file for every change to it is an assumption of the watcher model, stated in its Write action.
- White space outside ASCII when trimming headers, range parts and placeholders.
- Entries of a push that do not deserialise: the handler skips them before anything the model covers.
- Detection times of conflicts and the placeholder configuration the service reports when it has no central version: the model reports none.
- PullProtocol.PullsExactly: one configuration per id, as the centre answers; a reply that repeats an id is covered by the fold only.
- PushProtocol.Saved: replaces the whole configuration, as the in-memory store does; the SQL store keeps an existing row's creation time (mysticentral/src/services/postgres_repository.rs:101-115) and reads every row as active (229).
- IpFilter.ContainsIsBlock: models the wrap-around of a release build; a debug build stops at the shift by 128.
- RangeHeader.SelectedIsSatisfiable: models the wrap-around of a release build; a debug build stops at the subtraction on an empty file.
- HeaderActions.OrderIrrelevantExactly: for the transformer only where no condition names a header that an action touches; with such conditions the order can matter through them as well (`ConditionsCollide`).
- ConfigWatcher.EveryChangeIsLoaded: stops at the load; the callback's tasks are not ordered by the source. Channel shutdown is not modelled.
- CentralServer.SyncService.HandlePush: one request at a time; interleaved requests on one store are not modelled.
- BodyTransformer.BodyTransformer.Write: the mutable reference is a path from the root, so sharing inside a document, which the source's ownership rules out, cannot be expressed.
- The resolve endpoint of routes.rs:511-560, which takes the local version from the request and saves nothing for keep_central; the in-memory conflict service and the offline queue, which repeat logic already modelled.
- Pull claims over several rounds: they depend on the clocks of client and server agreeing.
- Regular-expression conditions, the gateway and request matching: their meaning lies in other libraries.
- The walk of JSON paths inside template placeholders: a parameter of the renderer.
