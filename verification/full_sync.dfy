/** Full synchronisation: apply every fetched remote record to the local
    store last-write-wins by `lastModified`, then upload every local record.
    There is no conflict gate between the two phases and no version-vector
    merge. The fetch and the upload's transport are inputs and outputs of the
    model; the clock and the upload's byte count are parameters. */
module FullSync {
  import opened Wrappers
  import opened TaskItems
  import opened TaskRepository

  /** Apply one remote record: insert it verbatim if its id is new, replace
      the local record if the remote one is strictly newer, otherwise keep
      the local record. */
  function ApplyRemote(store: Store, remote: Task): (r: Store)
    ensures remote.id !in store ==> r == store[remote.id := remote]
    ensures remote.id in store && remote.lastModified > store[remote.id].lastModified ==> r == store[remote.id := remote]
    ensures remote.id in store && remote.lastModified <= store[remote.id].lastModified ==> r == store
  {
    if remote.id in store then
      if remote.lastModified > store[remote.id].lastModified then store[remote.id := remote] else store
    else store[remote.id := remote]
  }

  /** The ids of a batch of records. */
  function IdsOf(remotes: seq<Task>): set<Id> {
    set i | 0 <= i < |remotes| :: remotes[i].id
  }

  /** Apply the fetched records one after another, in order. */
  function ApplyRemoteTasks(store: Store, remotes: seq<Task>): Store
    decreases |remotes|
  {
    if |remotes| == 0 then store
    else ApplyRemoteTasks(ApplyRemote(store, remotes[0]), remotes[1..])
  }

  /** Whether `t` is the record the store kept for `id` before the apply, or
      one of the fetched records with that id. */
  ghost predicate Candidate(store: Store, remotes: seq<Task>, id: Id, t: Task) {
    (id in store && t == store[id]) || (exists i | 0 <= i < |remotes| :: remotes[i].id == id && remotes[i] == t)
  }

  /** The ids of a non-empty batch: the first record's id and the rest's. */
  lemma {:induction false} IdsOfCons(remotes: seq<Task>)
    requires |remotes| > 0
    ensures IdsOf(remotes) == {remotes[0].id} + IdsOf(remotes[1..])
  {
    var tail := remotes[1..];
    forall x | x in IdsOf(remotes) ensures x in {remotes[0].id} + IdsOf(tail) {
      var i :| 0 <= i < |remotes| && remotes[i].id == x;
      if i > 0 {
        assert tail[i - 1].id == x;
      }
    }
    forall x | x in IdsOf(tail) ensures x in IdsOf(remotes) {
      var i :| 0 <= i < |tail| && tail[i].id == x;
      assert remotes[i + 1].id == x;
    }
  }

  /** After the apply the ids are the old ids together with the remote ids,
      and a record whose id nobody fetched is untouched. */
  lemma {:induction false} ApplyRemoteTasksKeys(store: Store, remotes: seq<Task>)
    ensures ApplyRemoteTasks(store, remotes).Keys == store.Keys + IdsOf(remotes)
    ensures forall id | id in store && id !in IdsOf(remotes) :: ApplyRemoteTasks(store, remotes)[id] == store[id]
    decreases |remotes|
  {
    if |remotes| > 0 {
      IdsOfCons(remotes);
      ApplyRemoteTasksKeys(ApplyRemote(store, remotes[0]), remotes[1..]);
    }
  }

  /** No stored record's `lastModified` decreases during the apply. */
  lemma {:induction false} ApplyRemoteTasksMonotone(store: Store, remotes: seq<Task>)
    ensures forall id | id in store ::
      id in ApplyRemoteTasks(store, remotes) && store[id].lastModified <= ApplyRemoteTasks(store, remotes)[id].lastModified
    decreases |remotes|
  {
    if |remotes| > 0 {
      var mid := ApplyRemote(store, remotes[0]);
      assert forall id | id in store :: id in mid && store[id].lastModified <= mid[id].lastModified;
      ApplyRemoteTasksMonotone(mid, remotes[1..]);
    }
  }

  /** After the apply every fetched record is matched or beaten in
      `lastModified` by the stored record with its id. */
  lemma {:induction false} ApplyRemoteTasksCoversRemotes(store: Store, remotes: seq<Task>)
    ensures forall i | 0 <= i < |remotes| ::
      remotes[i].id in ApplyRemoteTasks(store, remotes)
      && remotes[i].lastModified <= ApplyRemoteTasks(store, remotes)[remotes[i].id].lastModified
    decreases |remotes|
  {
    if |remotes| > 0 {
      var mid := ApplyRemote(store, remotes[0]);
      var tail := remotes[1..];
      ApplyRemoteTasksCoversRemotes(mid, tail);
      ApplyRemoteTasksMonotone(mid, tail);
      forall i | 1 <= i < |remotes| ensures remotes[i] == tail[i - 1] { }
    }
  }

  /** After the apply every stored record is the old local record or one of
      the fetched records with its id. */
  lemma {:induction false} ApplyRemoteTasksFromCandidates(store: Store, remotes: seq<Task>)
    ensures forall id | id in ApplyRemoteTasks(store, remotes) :: Candidate(store, remotes, id, ApplyRemoteTasks(store, remotes)[id])
    decreases |remotes|
  {
    if |remotes| > 0 {
      var head := remotes[0];
      var tail := remotes[1..];
      var mid := ApplyRemote(store, head);
      ApplyRemoteTasksFromCandidates(mid, tail);
      var r := ApplyRemoteTasks(mid, tail);
      forall id | id in r ensures Candidate(store, remotes, id, r[id]) {
        assert Candidate(mid, tail, id, r[id]);
        if id in mid && r[id] == mid[id] {
          if id == head.id && mid[id] == head {
            assert remotes[0].id == id && remotes[0] == r[id];
          }
        } else {
          var i :| 0 <= i < |tail| && tail[i].id == id && tail[i] == r[id];
          assert remotes[i + 1] == tail[i];
        }
      }
    }
  }

  /** The last-write-wins apply, over the whole batch: the ids afterwards are
      the old ids together with the remote ids; no stored record's
      `lastModified` decreases; every fetched record is matched or beaten by
      the stored record with its id; every stored record is the old local
      record or a fetched one with its id, so it carries the newest timestamp
      among them; a record whose id nobody fetched is untouched. */
  lemma {:induction false} ApplyRemoteTasksLastWriteWins(store: Store, remotes: seq<Task>)
    ensures ApplyRemoteTasks(store, remotes).Keys == store.Keys + IdsOf(remotes)
    ensures forall id | id in store :: store[id].lastModified <= ApplyRemoteTasks(store, remotes)[id].lastModified
    ensures forall i | 0 <= i < |remotes| :: remotes[i].lastModified <= ApplyRemoteTasks(store, remotes)[remotes[i].id].lastModified
    ensures forall id | id in ApplyRemoteTasks(store, remotes) :: Candidate(store, remotes, id, ApplyRemoteTasks(store, remotes)[id])
    ensures forall id | id in store && id !in IdsOf(remotes) :: ApplyRemoteTasks(store, remotes)[id] == store[id]
  {
    ApplyRemoteTasksKeys(store, remotes);
    ApplyRemoteTasksMonotone(store, remotes);
    ApplyRemoteTasksCoversRemotes(store, remotes);
    ApplyRemoteTasksFromCandidates(store, remotes);
  }

  /** Once every fetched record is matched or beaten by the stored record with
      its id, applying the batch changes nothing. */
  lemma {:induction false} ApplyRemoteTasksCovered(store: Store, remotes: seq<Task>)
    requires forall i | 0 <= i < |remotes| :: remotes[i].id in store && remotes[i].lastModified <= store[remotes[i].id].lastModified
    ensures ApplyRemoteTasks(store, remotes) == store
    decreases |remotes|
  {
    if |remotes| > 0 {
      assert ApplyRemote(store, remotes[0]) == store;
      var tail := remotes[1..];
      assert forall i | 0 <= i < |tail| :: tail[i] == remotes[i + 1];
      ApplyRemoteTasksCovered(store, tail);
    }
  }

  /** Applying the same fetched batch twice is the same as applying it once. */
  lemma {:induction false} ApplyRemoteTasksIdempotent(store: Store, remotes: seq<Task>)
    ensures ApplyRemoteTasks(ApplyRemoteTasks(store, remotes), remotes) == ApplyRemoteTasks(store, remotes)
  {
    ApplyRemoteTasksCoversRemotes(store, remotes);
    ApplyRemoteTasksCovered(ApplyRemoteTasks(store, remotes), remotes);
  }

  /** The apply keeps the store well keyed. */
  lemma {:induction false} ApplyRemoteTasksWellKeyed(store: Store, remotes: seq<Task>)
    requires WellKeyed(store)
    ensures WellKeyed(ApplyRemoteTasks(store, remotes))
    decreases |remotes|
  {
    if |remotes| > 0 {
      ApplyRemoteTasksWellKeyed(ApplyRemote(store, remotes[0]), remotes[1..]);
    }
  }

  /** A strictly newer remote copy of a stored record replaces it entirely:
      afterwards the store holds the remote content and timestamp. */
  lemma {:induction false} NewerRemoteWins(store: Store, remote: Task)
    requires remote.id in store && remote.lastModified > store[remote.id].lastModified
    ensures var r := ApplyRemoteTasks(store, [remote]);
      remote.id in r && r[remote.id] == remote && r[remote.id].content == remote.content && r[remote.id].lastModified == remote.lastModified
  {
    assert [remote][1..] == [];
  }

  /** The report of one sync: items sent, items received, elapsed time and
      the upload's size in bytes. */
  datatype SyncReport = SyncReport(itemsSent: nat, itemsReceived: nat, duration: int, payloadSize: int)

  /** The outcome of one full sync: the store after the apply, the uploaded
      records and their payload, and the report. */
  datatype SyncOutcome = SyncOutcome(store: Store, uploaded: seq<Task>, payload: Payload, report: SyncReport)

  /** Upload every local record: the batch is the whole store, one record per
      stored id, listed in the order `keys`. */
  method UploadLocalChanges(store: Store, syncModeSetting: Option<string>, strategySetting: Option<string>)
    returns (uploaded: seq<Task>, payload: Payload, ghost keys: seq<Id>)
    ensures |uploaded| == |store| && |keys| == |uploaded|
    ensures DistinctIds(keys)
    ensures forall i | 0 <= i < |keys| :: keys[i] in store && uploaded[i] == store[keys[i]]
    ensures forall id | id in store :: id in keys
    ensures forall id | id in store :: store[id] in uploaded
    ensures forall i | 0 <= i < |uploaded| :: uploaded[i] in store.Values
    ensures payload == UploadPayload(uploaded, syncModeSetting, strategySetting)
  {
    uploaded, keys := StoreRecords(store);
    payload := UploadPayload(uploaded, syncModeSetting, strategySetting);
  }

  /** One full sync: `remotes` is what the fetch returned, `start` and
      `finish` are the clock at the start and at the upload's completion, and
      `payloadSize` is the upload's reported size. */
  method Sync(store: Store, remotes: seq<Task>, syncModeSetting: Option<string>, strategySetting: Option<string>,
              start: int, finish: int, payloadSize: int)
    returns (outcome: SyncOutcome)
    ensures outcome.store == ApplyRemoteTasks(store, remotes)
    ensures outcome.store.Keys == store.Keys + IdsOf(remotes)
    ensures |outcome.uploaded| == |outcome.store|
    ensures forall id | id in outcome.store :: outcome.store[id] in outcome.uploaded
    ensures forall i | 0 <= i < |outcome.uploaded| :: outcome.uploaded[i] in outcome.store.Values
    ensures outcome.payload.mode == SettingOr(syncModeSetting, "full")
    ensures outcome.payload.strategy == SettingOr(strategySetting, "LWW")
    ensures |outcome.payload.tasks| == |outcome.uploaded|
    ensures outcome.report.itemsSent == |outcome.store|
    ensures outcome.report.itemsReceived == |remotes|
    ensures outcome.report.duration == finish - start && outcome.report.payloadSize == payloadSize
  {
    var applied := ApplyRemoteTasks(store, remotes);
    ApplyRemoteTasksKeys(store, remotes);
    var uploaded: seq<Task>, payload: Payload, keys: seq<Id> := UploadLocalChanges(applied, syncModeSetting, strategySetting);
    outcome := SyncOutcome(applied, uploaded, payload, SyncReport(|uploaded|, |remotes|, finish - start, payloadSize));
  }
}
