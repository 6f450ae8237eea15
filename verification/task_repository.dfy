/** Store-side operations of the repository: the upload payload built from a
    batch of tasks, the newest-first listing, clearing, generating and
    randomly modifying records. The HTTP exchange itself is not modelled;
    settings read from user defaults arrive as optional parameters. */
module TaskRepository {
  import opened Wrappers
  import opened VersionVectors
  import opened TaskItems
  import opened Decimal

  /** The two version vectors a task carries under "VV". */
  datatype VersionVectorEntry = VersionVectorEntry(titleVersion: VersionVector, contentVersion: VersionVector)

  /** One task as uploaded. */
  datatype TaskEntry = TaskEntry(
    title: string,
    content: string,
    isCompleted: bool,
    lastModified: Option<int>,
    versionVector: Option<VersionVectorEntry>)

  /** The upload body: sync mode, conflict strategy and one entry per task. */
  datatype Payload = Payload(mode: string, strategy: string, tasks: seq<TaskEntry>)

  /** A setting's value, or `default` when it was never set. */
  function SettingOr(setting: Option<string>, default: string): string {
    match setting
    case Some(v) => v
    case None => default
  }

  /** The entry of one task: title, content and completion always; the
      timestamp only under "LWW"; both version vectors only under "VV";
      neither under any other strategy. */
  function EntryFor(t: Task, conflictStrategy: string): (e: TaskEntry)
    ensures e.title == t.title && e.content == t.content && e.isCompleted == t.isCompleted
    ensures e.lastModified.Some? <==> conflictStrategy == "LWW"
    ensures e.versionVector.Some? <==> conflictStrategy == "VV"
    ensures !(e.lastModified.Some? && e.versionVector.Some?)
    ensures e.lastModified.Some? ==> e.lastModified.value == t.lastModified
    ensures e.versionVector.Some? ==>
              e.versionVector.value.titleVersion == t.titleVersion && e.versionVector.value.contentVersion == t.contentVersion
  {
    TaskEntry(t.title, t.content, t.isCompleted,
              if conflictStrategy == "LWW" then Some(t.lastModified) else None,
              if conflictStrategy == "VV" then Some(VersionVectorEntry(t.titleVersion, t.contentVersion)) else None)
  }

  /** The payload uploaded for `tasks`, with the mode defaulting to "full"
      and the strategy to "LWW" when unset. */
  function UploadPayload(tasks: seq<Task>, syncModeSetting: Option<string>, strategySetting: Option<string>): (p: Payload)
    ensures syncModeSetting.None? ==> p.mode == "full"
    ensures syncModeSetting.Some? ==> p.mode == syncModeSetting.value
    ensures strategySetting.None? ==> p.strategy == "LWW"
    ensures strategySetting.Some? ==> p.strategy == strategySetting.value
    ensures |p.tasks| == |tasks|
    ensures forall i | 0 <= i < |tasks| :: p.tasks[i] == EntryFor(tasks[i], p.strategy)
  {
    var strategy := SettingOr(strategySetting, "LWW");
    Payload(SettingOr(syncModeSetting, "full"), strategy, seq(|tasks|, i requires 0 <= i < |tasks| => EntryFor(tasks[i], strategy)))
  }

  /** With no strategy configured, every entry carries its task's timestamp
      and no version vector. */
  lemma {:induction false} DefaultPayloadIsLastWriteWins(tasks: seq<Task>, syncModeSetting: Option<string>)
    ensures var p := UploadPayload(tasks, syncModeSetting, None);
      forall i | 0 <= i < |tasks| :: p.tasks[i].lastModified == Some(tasks[i].lastModified) && p.tasks[i].versionVector.None?
  {
  }

  /** Records ordered newest first: `lastModified` never increases along the list. */
  predicate NewestFirst(ts: seq<Task>) {
    forall i, j | 0 <= i < j < |ts| :: ts[i].lastModified >= ts[j].lastModified
  }

  /** Insert `t` into a newest-first list: the result starts with `t` or
      with the list's own head. */
  function InsertNewestFirst(t: Task, ts: seq<Task>): (r: seq<Task>)
    requires NewestFirst(ts)
    ensures NewestFirst(r)
    ensures multiset(r) == multiset(ts) + multiset{t}
    ensures |r| == |ts| + 1
    ensures r[0] == t || (|ts| > 0 && r[0] == ts[0])
  {
    if |ts| == 0 || ts[0].lastModified <= t.lastModified then [t] + ts
    else
      var rest := InsertNewestFirst(t, ts[1..]);
      assert ts == [ts[0]] + ts[1..];
      assert rest[0].lastModified <= ts[0].lastModified;
      [ts[0]] + rest
  }

  /** A newest-first arrangement of `ts`. */
  function SortNewestFirst(ts: seq<Task>): (r: seq<Task>)
    ensures NewestFirst(r)
    ensures multiset(r) == multiset(ts)
  {
    if |ts| == 0 then []
    else
      assert ts == ts[..|ts| - 1] + [ts[|ts| - 1]];
      InsertNewestFirst(ts[|ts| - 1], SortNewestFirst(ts[..|ts| - 1]))
  }

  /** Every stored record, newest first (ties in no promised order).
      `listed` is the unsorted listing, one record per key in the order
      `keys`; the result is a rearrangement of it. */
  method FetchTasks(store: Store) returns (tasks: seq<Task>, ghost listed: seq<Task>, ghost keys: seq<Id>)
    ensures NewestFirst(tasks)
    ensures multiset(tasks) == multiset(listed)
    ensures |listed| == |store| && |keys| == |listed| && DistinctIds(keys)
    ensures forall i | 0 <= i < |keys| :: keys[i] in store && listed[i] == store[keys[i]]
    ensures forall id | id in store :: id in keys
    ensures |tasks| == |store|
    ensures forall id | id in store :: store[id] in tasks
    ensures forall i | 0 <= i < |tasks| :: tasks[i] in store.Values
  {
    var all;
    all, keys := StoreRecords(store);
    listed := all;
    tasks := SortNewestFirst(all);
    assert |tasks| == |multiset(tasks)| == |multiset(all)| == |all|;
    forall id | id in store ensures store[id] in tasks {
      assert store[id] in multiset(all);
    }
    forall i | 0 <= i < |tasks| ensures tasks[i] in store.Values {
      assert tasks[i] in multiset(all);
    }
  }

  /** Delete every record. */
  function ClearAllTasks(store: Store): (r: Store)
    ensures |r| == 0
  {
    map[]
  }

  /** The i-th generated record: a fresh record titled "Task i" with content
      "Content i", stamped `now`. */
  function DummyTask(id: Id, i: nat, now: int): (t: Task)
    ensures t.id == id && t.title == "Task " + NatToString(i) && t.content == "Content " + NatToString(i)
    ensures t.lastModified == now && !t.isCompleted
    ensures !t.isTitleModified && !t.isContentModified && !t.isPendingUpload
    ensures t.titleVersion == map[] && t.contentVersion == map[]
  {
    NewTask(id, now).(title := "Task " + NatToString(i), content := "Content " + NatToString(i), lastModified := now)
  }

  /** Membership in a non-empty sequence splits into its front and its last element. */
  lemma {:induction false} LastMembership(ids: seq<Id>)
    requires |ids| > 0
    ensures forall id :: id in ids <==> id in ids[..|ids| - 1] || id == ids[|ids| - 1]
  {
    assert ids == ids[..|ids| - 1] + [ids[|ids| - 1]];
  }

  /** Add `count` generated records, the i-th under `ids[i]`, where `ids`
      stands for the object-id generator's output. */
  function GenerateDummyTasks(store: Store, count: nat, ids: seq<Id>, now: int): Store
    requires |ids| == count
    decreases count
  {
    if count == 0 then store
    else GenerateDummyTasks(store, count - 1, ids[..count - 1], now)[ids[count - 1] := DummyTask(ids[count - 1], count - 1, now)]
  }

  /** Generation adds exactly the generated ids to the store's ids. */
  lemma {:induction false} GenerateDummyTasksKeys(store: Store, count: nat, ids: seq<Id>, now: int)
    requires |ids| == count
    ensures forall id :: id in GenerateDummyTasks(store, count, ids, now) <==> id in store || id in ids
    decreases count
  {
    if count > 0 {
      GenerateDummyTasksKeys(store, count - 1, ids[..count - 1], now);
      LastMembership(ids);
    }
  }

  /** With fresh distinct ids, generation grows the store by `count`. */
  lemma {:induction false} GenerateDummyTasksSize(store: Store, count: nat, ids: seq<Id>, now: int)
    requires |ids| == count
    requires DistinctIds(ids)
    requires forall i | 0 <= i < |ids| :: ids[i] !in store
    ensures |GenerateDummyTasks(store, count, ids, now)| == |store| + count
    decreases count
  {
    if count > 0 {
      var prefix := ids[..count - 1];
      var last := ids[count - 1];
      assert last !in prefix;
      GenerateDummyTasksKeys(store, count - 1, prefix, now);
      GenerateDummyTasksSize(store, count - 1, prefix, now);
    }
  }

  /** Generation under fresh ids keeps every existing record. */
  lemma {:induction false} GenerateDummyTasksKeeps(store: Store, count: nat, ids: seq<Id>, now: int)
    requires |ids| == count
    requires forall i | 0 <= i < |ids| :: ids[i] !in store
    ensures forall id | id in store :: id in GenerateDummyTasks(store, count, ids, now) && GenerateDummyTasks(store, count, ids, now)[id] == store[id]
    decreases count
  {
    if count > 0 {
      GenerateDummyTasksKeeps(store, count - 1, ids[..count - 1], now);
    }
  }

  /** With distinct ids, the i-th id holds the i-th generated record. */
  lemma {:induction false} GenerateDummyTasksRecords(store: Store, count: nat, ids: seq<Id>, now: int)
    requires |ids| == count
    requires DistinctIds(ids)
    ensures forall i | 0 <= i < count ::
      ids[i] in GenerateDummyTasks(store, count, ids, now) && GenerateDummyTasks(store, count, ids, now)[ids[i]] == DummyTask(ids[i], i, now)
    decreases count
  {
    if count > 0 {
      var prefix := ids[..count - 1];
      GenerateDummyTasksRecords(store, count - 1, prefix, now);
      forall i | 0 <= i < count - 1 ensures ids[i] != ids[count - 1] && prefix[i] == ids[i] { }
    }
  }

  /** With pairwise distinct ids new to the store (as the object-id
      generator guarantees), generation adds exactly `count` records, the
      i-th titled "Task i" with content "Content i" under `ids[i]`, and keeps
      every existing record. */
  lemma {:induction false} GenerateDummyTasksAddsCount(store: Store, count: nat, ids: seq<Id>, now: int)
    requires |ids| == count
    requires DistinctIds(ids)
    requires forall i | 0 <= i < |ids| :: ids[i] !in store
    ensures forall id :: id in GenerateDummyTasks(store, count, ids, now) <==> id in store || id in ids
    ensures |GenerateDummyTasks(store, count, ids, now)| == |store| + count
    ensures forall id | id in store :: GenerateDummyTasks(store, count, ids, now)[id] == store[id]
    ensures forall i | 0 <= i < count :: GenerateDummyTasks(store, count, ids, now)[ids[i]] == DummyTask(ids[i], i, now)
  {
    GenerateDummyTasksKeys(store, count, ids, now);
    GenerateDummyTasksSize(store, count, ids, now);
    GenerateDummyTasksKeeps(store, count, ids, now);
    GenerateDummyTasksRecords(store, count, ids, now);
  }

  /** Generated records with different positions get different titles. */
  lemma {:induction false} DummyTitlesDiffer(x: Id, i: nat, y: Id, j: nat, now: int)
    requires i != j
    ensures DummyTask(x, i, now).title != DummyTask(y, j, now).title
  {
    NatToStringInjective(i, j);
    assert DummyTask(x, i, now).title[5..] == NatToString(i);
    assert DummyTask(y, j, now).title[5..] == NatToString(j);
  }

  /** Generation keeps the store well keyed and gives every new record its
      own title. */
  lemma {:induction false} GeneratedTasksDistinct(store: Store, count: nat, ids: seq<Id>, now: int)
    requires WellKeyed(store)
    requires |ids| == count
    requires DistinctIds(ids)
    requires forall i | 0 <= i < |ids| :: ids[i] !in store
    ensures WellKeyed(GenerateDummyTasks(store, count, ids, now))
    ensures forall i | 0 <= i < count :: ids[i] in GenerateDummyTasks(store, count, ids, now)
    ensures forall i, j | 0 <= i < j < count ::
      GenerateDummyTasks(store, count, ids, now)[ids[i]].title != GenerateDummyTasks(store, count, ids, now)[ids[j]].title
  {
    var r := GenerateDummyTasks(store, count, ids, now);
    GenerateDummyTasksKeys(store, count, ids, now);
    GenerateDummyTasksKeeps(store, count, ids, now);
    GenerateDummyTasksRecords(store, count, ids, now);
    forall id | id in r ensures r[id].id == id {
      if id !in store {
        var i :| 0 <= i < |ids| && ids[i] == id;
      }
    }
    forall i, j | 0 <= i < j < count ensures r[ids[i]].title != r[ids[j]].title {
      DummyTitlesDiffer(ids[i], i, ids[j], j, now);
    }
  }

  /** The suffix appended on each random modification, repeated `k` times. */
  function Modified(k: nat): string {
    if k == 0 then "" else Modified(k - 1) + " (modified)"
  }

  /** How often `id` occurs in `picks`. */
  function Occurrences(picks: seq<Id>, id: Id): nat {
    if |picks| == 0 then 0
    else Occurrences(picks[..|picks| - 1], id) + (if picks[|picks| - 1] == id then 1 else 0)
  }

  /** A stored record after the random picks `picks`: one suffix per time it
      was picked, and stamped `now` if it was picked at all. */
  function AfterPicks(t: Task, id: Id, picks: seq<Id>, now: int): Task {
    t.(title := t.title + Modified(Occurrences(picks, id)),
       lastModified := if id in picks then now else t.lastModified)
  }

  /** One more pick of `x` appends one more suffix to `x`'s record only. */
  lemma {:induction false} AfterOneMorePick(t: Task, id: Id, picks: seq<Id>, x: Id, now: int)
    ensures AfterPicks(t, id, picks + [x], now) ==
      if x == id then AfterPicks(t, id, picks, now).(title := AfterPicks(t, id, picks, now).title + " (modified)", lastModified := now)
      else AfterPicks(t, id, picks, now)
  {
    var picks' := picks + [x];
    assert picks'[..|picks'| - 1] == picks;
    var k := Occurrences(picks, id);
    if x == id {
      assert t.title + Modified(k + 1) == (t.title + Modified(k)) + " (modified)";
    }
  }

  /** The whole store after the random picks `picks`. */
  function ModifiedStore(store: Store, picks: seq<Id>, now: int): (r: Store)
    ensures r.Keys == store.Keys
  {
    map id | id in store :: AfterPicks(store[id], id, picks, now)
  }

  /** One more pick of a stored record `x` modifies `x`'s record once more
      and leaves every other record as it was. */
  lemma {:induction false} ModifyOneMore(store: Store, picks: seq<Id>, x: Id, now: int)
    requires x in store
    ensures ModifiedStore(store, picks + [x], now) ==
      ModifiedStore(store, picks, now)[x := ModifiedStore(store, picks, now)[x].(
        title := ModifiedStore(store, picks, now)[x].title + " (modified)", lastModified := now)]
  {
    forall id | id in store {
      AfterOneMorePick(store[id], id, picks, x, now);
    }
  }

  /** Pick a stored record `count` times at random (with replacement) and
      append " (modified)" to its title each time, stamping it `now`. An
      empty store is left alone. The random picks are returned. */
  method RandomlyModifyTasks(store: Store, count: nat, now: int) returns (r: Store, picks: seq<Id>)
    ensures |store| == 0 ==> r == store && picks == []
    ensures |store| > 0 ==> |picks| == count
    ensures forall i | 0 <= i < |picks| :: picks[i] in store
    ensures r.Keys == store.Keys
    ensures forall id | id in store ::
      r[id] == store[id].(title := store[id].title + Modified(Occurrences(picks, id)),
                          lastModified := if id in picks then now else store[id].lastModified)
  {
    r, picks := store, [];
    if |store| == 0 {
      return;
    }
    forall id | id in store ensures AfterPicks(store[id], id, [], now) == store[id] {
      assert store[id].title + Modified(0) == store[id].title;
    }
    assert r == ModifiedStore(store, picks, now);
    var n := 0;
    while n < count
      invariant 0 <= n <= count && |picks| == n
      invariant forall i | 0 <= i < |picks| :: picks[i] in store
      invariant r == ModifiedStore(store, picks, now)
    {
      var x :| x in r;
      ModifyOneMore(store, picks, x, now);
      r := r[x := r[x].(title := r[x].title + " (modified)", lastModified := now)];
      picks := picks + [x];
      n := n + 1;
    }
  }

  /** Random modification keeps the store well keyed and changes no record's
      id, content or completion. */
  lemma {:induction false} RandomModificationFrame(store: Store, r: Store, picks: seq<Id>, now: int)
    requires WellKeyed(store)
    requires r.Keys == store.Keys
    requires forall id | id in store ::
      r[id] == store[id].(title := store[id].title + Modified(Occurrences(picks, id)),
                          lastModified := if id in picks then now else store[id].lastModified)
    ensures WellKeyed(r) && |r| == |store|
    ensures forall id | id in store ::
      r[id].content == store[id].content && r[id].isCompleted == store[id].isCompleted
      && r[id].titleVersion == store[id].titleVersion && r[id].contentVersion == store[id].contentVersion
  {
    assert |r.Keys| == |store.Keys|;
  }
}
