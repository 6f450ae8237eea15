# Offline-first todo sync engine, modelled in Dafny

This project models the synchronisation and conflict engine of an
offline-first todo client written in Swift. The client keeps tasks in a
local store. Each task carries one version vector per editable field: a map
from device id to edit counter. The engine has six parts:

- **Task record** (`TaskItems`): the record with its defaults, and the store
  as a map from object id to record.
- **Version-vector comparison** (`VersionVectors`): the dominance test that
  reports `localNewer`, `remoteNewer` or `concurrent`, reading a missing key
  as 0.
- **Per-field merge** (`ConflictResolver`): title and content are merged
  independently. Each adopts the remote value and vector only on a
  `remoteNewer` verdict.
- **Local edit** (`LocalEdit`): saving an edited title and content. A save
  sets dirty flags, bumps this device's counter under the "VV" strategy, and
  moves `lastModified` only when something changed.
- **Conflict registry** (`ConflictCenter`): an ordered list of
  (local, remote) pairs. It supports append, first-match removal, clear,
  count and emptiness. Resolution writes the chosen side into the store.
- **Sync strategies** (`FullSync`, `DeltaSync`): full sync applies fetched
  records last-write-wins by `lastModified`, then uploads every record.
  Delta sync's preparation edits `min(5, n)` distinct tasks picked at random.

The repository helpers (`TaskRepository`) cover the upload payload, the
newest-first listing, clearing, dummy-task generation and random
modification. `Decimal` renders the `i` of "Task i".

Everything is sequential and value-typed:

- A store update is a new map.
- The clock (`now`, `start`, `finish`), the device id and user-default
  settings are parameters.
- Settings that may be unset are `Option`s (module `Wrappers`).
- Random choices are nondeterministic `:|` choices inside methods. The
  choices made are returned as out-parameters (`picks`).
- Timestamps are integers.
- An object id is a natural number.

Behaviour of the code worth noting:

- The merge keeps the local value on a `concurrent` verdict. It does not
  register the pair with the conflict registry.
- Full sync has no conflict gate before the upload. The gate is commented
  out in `Strategies/FullSyncStrategy.swift`.
- Full sync applies last-write-wins whatever the conflict strategy is. It
  never runs the version-vector merge.
- Resolving a registered conflict writes only title, content, the
  pending-upload flag and the timestamp. It does not write the winner's
  version vectors.
- Resolving a pair a second time restamps its stored record with the new
  clock reading (`ConflictCenter.ResolveAgainRestamps`). The second
  resolution is a no-op when the clock reads the same and the registry held
  at most one pair equal to it (`ConflictCenter.ResolveTwice`). With a
  duplicate pair registered, the second resolution removes the duplicate.
- Upload payload entries carry no `id` field.
- The record declared in `TaskItem.swift` has no `titleVersion`,
  `contentVersion` or `isPendingUpload` field. The merge, the editor and the
  conflict registry all read and write these fields. The model adds them,
  with empty vectors and `false` as defaults.
- Delta preparation picks a fixed sample of at most five tasks. Its size
  does not grow with the number of tasks, and no record is filtered by
  modification time.

## Model

| member | source | states |
|---|---|---|
| `VersionVectors.CompareVV` | offlineSyncTodo/Conflict/ConflictResolver.swift:19-43 | The source's loop over the union of both key sets returns localNewer iff the local vector dominates (every device's counter ≥ the remote one, absent = 0, some strictly >), remoteNewer iff the remote dominates, concurrent iff neither does |
| `VersionVectors.Compare` | offlineSyncTodo/Conflict/ConflictResolver.swift:19-43 | The functional form of compareVV. It carries no contract of its own; `VersionVectors.CompareVV` proves it agrees with the loop, and `VersionVectors.CompareIsDominance` proves it is the dominance order in all three directions |
| `VersionVectors.CompareIsDominance` | offlineSyncTodo/Conflict/ConflictResolver.swift:23-42 | The key-bounded comparison equals the dominance order over all device ids, in all three directions of the iff |
| `VersionVectors.CompareMirror` | offlineSyncTodo/Conflict/ConflictResolver.swift:19-43 | compareVV(b, a) is compareVV(a, b) with localNewer and remoteNewer swapped; concurrent stays concurrent |
| `VersionVectors.CompareReflexiveConcurrent` | offlineSyncTodo/Conflict/ConflictResolver.swift:36-42 | Every vector, the empty one included, compares concurrent with itself |
| `VersionVectors.ZeroEntryIrrelevant` | offlineSyncTodo/Conflict/ConflictResolver.swift:26-27 | Adding a key with counter 0 to either vector never changes the verdict |
| `VersionVectors.DominanceStrictOrder` | offlineSyncTodo/Conflict/ConflictResolver.swift:23-39 | Dominance is irreflexive, asymmetric and transitive |
| `VersionVectors.Bump` | offlineSyncTodo/EditTaskView.swift:62-64 | Raises exactly one device's counter by 1 (a missing key becomes 1) and reads every other device the same |
| `VersionVectors.BumpDominates` | offlineSyncTodo/EditTaskView.swift:61-65 | A bumped vector compares localNewer against the vector it came from, and the old one compares remoteNewer against it |
| `TaskItems.NewTask` | offlineSyncTodo/TaskItem.swift:13-19 | A fresh record has empty title and content, is not completed, has both dirty flags and the pending flag false, empty vectors, and the creation time |
| `TaskItems.PrimaryKeyUnique` | offlineSyncTodo/TaskItem.swift:13 | In a store where every record sits under its own id, two stored records with the same id are the same record |
| `TaskItems.StoreRecords` | offlineSyncTodo/Strategies/FullSyncStrategy.swift:70-72 | Listing all objects yields one record per stored id: a key order that lists every stored id exactly once, with the i-th record the one stored under the i-th key |
| `ConflictResolver.MergeField` | offlineSyncTodo/Conflict/ConflictResolver.swift:49-67 | A field changes iff the values differ and the remote vector strictly dominates; then the value and vector are remote's (a replacement, not a union), otherwise both stay local's; the merged vector never reads below the local one |
| `ConflictResolver.Resolve` | offlineSyncTodo/Conflict/ConflictResolver.swift:45-93 | Equal titles keep local's title and vector; a remoteNewer title verdict adopts remote's title and vector exactly; any other verdict keeps local's; content likewise and independently; id, completion, timestamp, dirty and pending flags are local's |
| `ConflictResolver.ResolveMonotone` | offlineSyncTodo/Conflict/ConflictResolver.swift:53-61 | Merged vectors read at least the local counters; when the values differed and the verdict was not concurrent, they read at least the remote counters too |
| `ConflictResolver.ResolveIdempotent` | offlineSyncTodo/Conflict/ConflictResolver.swift:45-93 | Merging the same remote copy again changes nothing |
| `ConflictResolver.ResolveSelf` | offlineSyncTodo/Conflict/ConflictResolver.swift:49-71 | Merging a record with an identical copy returns it unchanged |
| `ConflictResolver.ResolveIndependentEdits` | offlineSyncTodo/Conflict/ConflictResolver.swift:45-93 | A local title edit by d1 and a remote content edit by d2 merge into local's title and remote's content with their vectors |
| `ConflictResolver.ResolveConcurrentKeepsLocal` | offlineSyncTodo/Conflict/ConflictResolver.swift:62-64 | Title edits by d1 only locally and d2 only remotely are concurrent, and the local record comes back unchanged |
| `LocalEdit.SaveChanges` | offlineSyncTodo/EditTaskView.swift:50-83 | The edited values are stored; a changed field sets its dirty flag and no flag is cleared; under "VV" a changed field raises this device's counter by exactly 1 and no other, and the vector's keys gain only this device; under other strategies or for an unchanged field the vector is untouched; lastModified becomes now iff a field changed; a save with no differences returns the record unchanged |
| `LocalEdit.SaveChangesIdempotent` | offlineSyncTodo/EditTaskView.swift:54-82 | Saving the same edit twice equals saving it once, whatever the clock reads the second time |
| `LocalEdit.EditPropagatesUnderVersionVectors` | offlineSyncTodo/EditTaskView.swift:61-65 | Under "VV" the edited copy's title vector dominates the original's: merging the edited copy into the original adopts the new title and vector, and merging the original into the edited copy keeps it unchanged |
| `LocalEdit.EditInvisibleWithoutVersionVectors` | offlineSyncTodo/EditTaskView.swift:61-77 | Under any other strategy the vectors stay equal, so merging the edited copy into the original changes nothing |
| `LocalEdit.FirstEditOfNewTask` | offlineSyncTodo/EditTaskView.swift:56-65 | The first "VV" title edit of a fresh record gives it the title vector {device: 1}, sets only the title's dirty flag and stamps it |
| `ConflictCenter.SamePair` | offlineSyncTodo/Conflict/ConflictCenter.swift:18-20 | Two pairs are equal iff their local ids match and their remote ids match; the snapshot contents are never compared. `ConflictCenter.SamePairEquivalence` proves it is an equivalence |
| `ConflictCenter.SamePairEquivalence` | offlineSyncTodo/Conflict/ConflictCenter.swift:18-20 | Pair equality (same local id and same remote id) is reflexive, symmetric and transitive |
| `ConflictCenter.AddConflict` | offlineSyncTodo/Conflict/ConflictCenter.swift:28-31 | Appends at the end: one longer, the earlier pairs in order as a prefix, duplicates allowed |
| `ConflictCenter.FirstIndexOf` | offlineSyncTodo/Conflict/ConflictCenter.swift:34 | Absent iff no pair is equal; otherwise the position of an equal pair with no equal pair before it |
| `ConflictCenter.RemoveConflict` | offlineSyncTodo/Conflict/ConflictCenter.swift:33-37 | With no equal pair the list is unchanged; otherwise exactly the first equal pair is cut out and the rest keep their order |
| `ConflictCenter.Clear` | offlineSyncTodo/Conflict/ConflictCenter.swift:39-41 | The list is empty afterwards |
| `ConflictCenter.Count` | offlineSyncTodo/Conflict/ConflictCenter.swift:43-45 | The number of pending pairs. It carries no contract of its own; `ConflictCenter.RegistryCounts` states how it moves under add, remove and clear |
| `ConflictCenter.HasConflicts` | offlineSyncTodo/Conflict/ConflictCenter.swift:47-49 | Whether any pair is pending. It carries no contract of its own; `ConflictCenter.RegistryCounts` states it holds after an add and not after a clear |
| `ConflictCenter.RegistryCounts` | offlineSyncTodo/Conflict/ConflictCenter.swift:28-49 | count grows by 1 on add and shrinks by 1 on removing a present pair; hasConflicts holds after an add and not after clear; removing an absent pair changes nothing |
| `ConflictCenter.AddThenRemove` | offlineSyncTodo/Conflict/ConflictCenter.swift:28-37 | Adding a pair not yet registered and then removing it gives the registry back |
| `ConflictCenter.Resolve` | offlineSyncTodo/Conflict/ConflictCenter.swift:51-72 | The stored record with the local id takes the winner's title and content, becomes pending upload and is stamped now; its vectors, id, completion and dirty flags stay; every other record stays; a missing id leaves the store unchanged; the first equal pair is removed as removeConflict does |
| `ConflictCenter.ResolveKeepsStoreWellKeyed` | offlineSyncTodo/Conflict/ConflictCenter.swift:56-63 | Resolution keeps every record under its own id |
| `ConflictCenter.ResolveTwice` | offlineSyncTodo/Conflict/ConflictCenter.swift:51-72 | A second resolution of the same pair at the same instant leaves store and registry as the first left them, when at most one equal pair was registered |
| `ConflictCenter.ResolveAgainRestamps` | offlineSyncTodo/Conflict/ConflictCenter.swift:57-61 | A second resolution of a pair whose record is stored stamps that record with the second clock reading, so with a different reading the store differs from after the first resolution |
| `FullSync.ApplyRemote` | offlineSyncTodo/Strategies/FullSyncStrategy.swift:52-62 | A remote record with a new id is inserted verbatim; one with a known id replaces the local record iff its lastModified is strictly greater; otherwise the store is untouched |
| `FullSync.ApplyRemoteTasks` | offlineSyncTodo/Strategies/FullSyncStrategy.swift:48-65 | The fold of `FullSync.ApplyRemote` over the fetched records in order. It carries no contract of its own; the `FullSync.ApplyRemoteTasks…` lemmas below state its keys, monotonicity, coverage, provenance, last-write-wins, idempotence and keying |
| `FullSync.ApplyRemoteTasksKeys` | offlineSyncTodo/Strategies/FullSyncStrategy.swift:51-63 | After the apply the id set is the old id set united with the remote ids, and a record whose id no remote carries is unchanged |
| `FullSync.ApplyRemoteTasksMonotone` | offlineSyncTodo/Strategies/FullSyncStrategy.swift:53 | No stored record's lastModified decreases during the apply |
| `FullSync.ApplyRemoteTasksCoversRemotes` | offlineSyncTodo/Strategies/FullSyncStrategy.swift:51-63 | After the apply every fetched record's id is stored with a lastModified at least the fetched one's |
| `FullSync.ApplyRemoteTasksFromCandidates` | offlineSyncTodo/Strategies/FullSyncStrategy.swift:51-63 | After the apply every stored record is the old local one or one of the fetched records with its id |
| `FullSync.ApplyRemoteTasksLastWriteWins` | offlineSyncTodo/Strategies/FullSyncStrategy.swift:48-65 | The whole apply is last-write-wins: each id ends up holding a candidate (old local or fetched) whose lastModified is at least every candidate's, and untouched ids stay as they were |
| `FullSync.ApplyRemoteTasksCovered` | offlineSyncTodo/Strategies/FullSyncStrategy.swift:53 | When every fetched record is matched or beaten by the stored one, the apply changes nothing |
| `FullSync.ApplyRemoteTasksIdempotent` | offlineSyncTodo/Strategies/FullSyncStrategy.swift:48-65 | Applying the same fetched batch twice equals applying it once |
| `FullSync.ApplyRemoteTasksWellKeyed` | offlineSyncTodo/Strategies/FullSyncStrategy.swift:52-62 | The apply keeps every record under its own id |
| `FullSync.NewerRemoteWins` | offlineSyncTodo/Strategies/FullSyncStrategy.swift:53-57 | A strictly newer remote copy replaces the stored record: the store then holds the remote content and timestamp |
| `FullSync.UploadLocalChanges` | offlineSyncTodo/Strategies/FullSyncStrategy.swift:67-77 | The upload batch is one record per stored id (a key order listing every stored id exactly once, the i-th record stored under the i-th key), and the payload is built from exactly that batch |
| `FullSync.Sync` | offlineSyncTodo/Strategies/FullSyncStrategy.swift:23-45 | Apply runs before upload with no gate between them; the uploaded batch is the post-apply store's records, one per stored record; the payload's mode and strategy are the settings or the defaults "full" and "LWW", with one entry per uploaded record (each entry's shape is stated by `FullSync.UploadLocalChanges`); the report's itemsSent equals the store's size after the apply and itemsReceived the number of fetched records |
| `DeltaSync.Touch` | offlineSyncTodo/Strategies/DeltaSyncStrategy.swift:26-28 | A simulated edit appends " *" to the title, toggles completion, stamps now and changes nothing else |
| `DeltaSync.PrepareTasks` | offlineSyncTodo/Strategies/DeltaSyncStrategy.swift:17-33 | Exactly min(5, n) distinct positions are picked (none for an empty list); each picked task is touched, the others are unchanged, and the touched tasks are returned in pick order |
| `TaskRepository.EntryFor` | offlineSyncTodo/TaskRepository.swift:59-76 | An entry always carries title, content and isCompleted; lastModified iff the strategy is "LWW"; both version vectors iff it is "VV"; never both, and neither for any other strategy |
| `TaskRepository.UploadPayload` | offlineSyncTodo/TaskRepository.swift:55-82 | Mode defaults to "full" and strategy to "LWW" when unset; one entry per uploaded task, in order, shaped by the chosen strategy |
| `TaskRepository.DefaultPayloadIsLastWriteWins` | offlineSyncTodo/TaskRepository.swift:57-67 | With no strategy configured every entry carries its task's timestamp and no version vector |
| `TaskRepository.SortNewestFirst` | offlineSyncTodo/TaskRepository.swift:106-107 | The result is ordered by non-increasing lastModified and is a permutation of the input |
| `TaskRepository.FetchTasks` | offlineSyncTodo/TaskRepository.swift:104-109 | Returns a rearrangement of the one-record-per-id listing, ordered by non-increasing lastModified |
| `TaskRepository.ClearAllTasks` | offlineSyncTodo/TaskRepository.swift:111-117 | The store is empty afterwards |
| `TaskRepository.DummyTask` | offlineSyncTodo/TaskRepository.swift:123-126 | The i-th generated record is a fresh record titled "Task i" with content "Content i", stamped now |
| `TaskRepository.GenerateDummyTasks` | offlineSyncTodo/TaskRepository.swift:119-130 | Adds the generated records one by one. It carries no contract of its own; `TaskRepository.GenerateDummyTasksAddsCount` and `TaskRepository.GeneratedTasksDistinct` state what it does |
| `TaskRepository.GenerateDummyTasksAddsCount` | offlineSyncTodo/TaskRepository.swift:119-130 | With fresh distinct ids, generation adds exactly count records, the i-th under the i-th id as "Task i"/"Content i", and keeps every existing record |
| `TaskRepository.GeneratedTasksDistinct` | offlineSyncTodo/TaskRepository.swift:122-125 | Generation keeps the store well keyed and no two generated records share a title |
| `TaskRepository.RandomlyModifyTasks` | offlineSyncTodo/TaskRepository.swift:132-145 | An empty store is untouched; otherwise count stored records are picked with replacement; the ids stay the same, each record's title gains one " (modified)" per pick, it is stamped now iff picked, and nothing else changes |
| `TaskRepository.RandomModificationFrame` | offlineSyncTodo/TaskRepository.swift:137-144 | Random modification keeps the record count, the keying, and every record's content, completion and vectors |
| `Decimal.NatToString` | offlineSyncTodo/TaskRepository.swift:124-125 | The decimal text of i is non-empty, contains digits only, and has no leading zero except for "0" itself. `Decimal.ParseNatToString` reads it back |
| `Decimal.ParseNatToString` | offlineSyncTodo/TaskRepository.swift:124-125 | Reading back the decimal text of i gives i |
| `Decimal.NatToStringInjective` | offlineSyncTodo/TaskRepository.swift:124-125 | Distinct numbers get distinct decimal texts, so "Task i" titles differ |

## Left out

- Networking: `fetchRemoteTasks` and the HTTP part of `uploadTasks` (URL, request, JSON encoding and decoding) are not modelled. The fetched records are an input sequence. The upload's byte count is an input of `FullSync.Sync`.
- TaskRepository.EntryFor: the uploaded `lastModified` is the integer timestamp. The source sends seconds since 1970 as a floating-point number.
- Storage errors are not modelled: `ConflictCenter.resolve` logs a failed write and still removes the pair, and everywhere else a failed write traps.
- LocalEdit.SaveChanges: whether a field changed is decided by comparing characters one by one. Swift's `!=` on `String` treats canonically equivalent texts as equal (a precomposed "é" against "e" with a combining accent). For such an edit the model sets the dirty flag, bumps the counter and restamps; the source does none of these. Unicode normalisation is not modelled.
- ConflictResolver.MergeField: equal values are decided by comparing characters one by one, not by Swift's canonical equivalence. So for canonically equivalent titles or contents the model may adopt the remote side where the source keeps local's.
- ConflictResolver.Resolve: uses the same character-by-character equality through `ConflictResolver.MergeField`, with the same consequence.
- VersionVectors.Bump: the counter is an unbounded integer. Swift's `current + 1` traps when the counter is `Int.max`; the model returns one more instead.
- DeltaSync.PrepareTasks: one `now` stamps every picked task. The source reads the clock once per task inside the loop, so its stamps may differ.
- Threading and storage plumbing are not modelled: main-queue dispatch, Realm transactions and `detached()`. Each write is an atomic update of a value-typed store, and the apply runs before the upload, as the main queue orders them.
- Device identity, user defaults, UUIDs, report formatting, the view model and the SwiftUI views are not modelled. The device id and the settings are parameters.
- FullSync.Sync: the report's duration is the integer difference of two clock readings, not the floating-point interval the source computes.
- FullSync.Sync: the upload payload size is a parameter. `uploadTasks` calls its completion with no arguments, so the source never delivers a size.
- TaskRepository.GenerateDummyTasksAddsCount: object-id generation is an input list of distinct ids that are new to the store.
- TaskRepository.RandomlyModifyTasks: one `now` stamps every record in the transaction. The source reads the clock once per picked record.
- TaskRepository.GenerateDummyTasks: one `now` stamps every generated record. The source reads the clock once per record.
- TaskRepository.RandomlyModifyTasks: `count` is a natural number. On a non-empty store the source's `0..<count` traps on a negative count. On an empty store the source returns before building the range, so it accepts a negative count and does nothing; the model does not take that input.
- TaskRepository.GenerateDummyTasks: `count` is a natural number. The source has no guard here, so its `0..<count` traps on any negative count.
- ConflictResolver.Resolve: returns a new record. In the source, `merged` aliases the `local` object; no read in `resolve` sees the alias, so the result is the same.
- DeltaSync.PrepareTasks: returns the edited list. Whether the caller's task objects are live store records is up to the caller and is not modelled.
- TaskRepository.FetchTasks: the order among records with equal `lastModified` is not specified.
- The `SyncStrategy` protocol and its call sites do not match each other. The model gives each operation its per-function behaviour instead.
- `generateDummyTasks()` is called without `count` at app start. That call site is not modelled.
