/** The registry of unresolved conflicts: an ordered list of (local, remote)
    snapshot pairs, and the resolution that writes the chosen side back into
    the store. */
module ConflictCenter {
  import opened Wrappers
  import opened TaskItems

  /** A local record and a remote record captured together. */
  datatype ConflictPair = ConflictPair(local: Task, remote: Task)

  /** Pair equality as the registry sees it: only the two ids are compared,
      never the snapshots' contents. */
  predicate SamePair(a: ConflictPair, b: ConflictPair) {
    a.local.id == b.local.id && a.remote.id == b.remote.id
  }

  /** Pair equality is an equivalence relation. */
  lemma {:induction false} SamePairEquivalence(a: ConflictPair, b: ConflictPair, c: ConflictPair)
    ensures SamePair(a, a)
    ensures SamePair(a, b) ==> SamePair(b, a)
    ensures SamePair(a, b) && SamePair(b, c) ==> SamePair(a, c)
  {
  }

  /** Register a new pair at the end; duplicates are allowed. */
  function AddConflict(conflicts: seq<ConflictPair>, local: Task, remote: Task): (r: seq<ConflictPair>)
    ensures |r| == |conflicts| + 1
    ensures r[..|conflicts|] == conflicts
    ensures r[|conflicts|] == ConflictPair(local, remote)
  {
    conflicts + [ConflictPair(local, remote)]
  }

  /** The position of the first pair equal to `pair`, if any. */
  function FirstIndexOf(conflicts: seq<ConflictPair>, pair: ConflictPair): (r: Option<nat>)
    ensures r.None? <==> forall i | 0 <= i < |conflicts| :: !SamePair(conflicts[i], pair)
    ensures r.Some? ==> r.value < |conflicts| && SamePair(conflicts[r.value], pair)
    ensures r.Some? ==> forall i | 0 <= i < r.value :: !SamePair(conflicts[i], pair)
  {
    if |conflicts| == 0 then None
    else if SamePair(conflicts[0], pair) then Some(0)
    else match FirstIndexOf(conflicts[1..], pair)
      case None => None
      case Some(i) => Some(i + 1)
  }

  /** Drop the first pair equal to `pair`; without one the list is unchanged.
      The remaining pairs keep their order. */
  function RemoveConflict(conflicts: seq<ConflictPair>, pair: ConflictPair): (r: seq<ConflictPair>)
    ensures (forall i | 0 <= i < |conflicts| :: !SamePair(conflicts[i], pair)) ==> r == conflicts
    ensures (exists i | 0 <= i < |conflicts| :: SamePair(conflicts[i], pair)) ==>
      exists i | 0 <= i < |conflicts| ::
        && SamePair(conflicts[i], pair)
        && (forall j | 0 <= j < i :: !SamePair(conflicts[j], pair))
        && r == conflicts[..i] + conflicts[i + 1..]
  {
    match FirstIndexOf(conflicts, pair)
    case None => conflicts
    case Some(i) => conflicts[..i] + conflicts[i + 1..]
  }

  /** Drop every pair. */
  function Clear(conflicts: seq<ConflictPair>): (r: seq<ConflictPair>)
    ensures |r| == 0
  {
    []
  }

  /** The number of pending pairs. */
  function Count(conflicts: seq<ConflictPair>): nat {
    |conflicts|
  }

  /** Whether any pair is pending. */
  function HasConflicts(conflicts: seq<ConflictPair>): bool {
    |conflicts| != 0
  }

  /** How the registry's queries react to its updates: adding makes it
      non-empty and one longer, clearing empties it, removing a present pair
      shortens it by one and removing an absent one changes nothing. */
  lemma {:induction false} RegistryCounts(conflicts: seq<ConflictPair>, local: Task, remote: Task, pair: ConflictPair)
    ensures Count(AddConflict(conflicts, local, remote)) == Count(conflicts) + 1
    ensures HasConflicts(AddConflict(conflicts, local, remote))
    ensures !HasConflicts(Clear(conflicts)) && Count(Clear(conflicts)) == 0
    ensures FirstIndexOf(conflicts, pair).Some? ==> Count(RemoveConflict(conflicts, pair)) == Count(conflicts) - 1
    ensures FirstIndexOf(conflicts, pair).None? ==> RemoveConflict(conflicts, pair) == conflicts
  {
  }

  /** Adding a pair the registry does not yet hold and then removing it gives
      the registry back. */
  lemma {:induction false} AddThenRemove(conflicts: seq<ConflictPair>, local: Task, remote: Task)
    requires forall i | 0 <= i < |conflicts| :: !SamePair(conflicts[i], ConflictPair(local, remote))
    ensures RemoveConflict(AddConflict(conflicts, local, remote), ConflictPair(local, remote)) == conflicts
  {
    var pair := ConflictPair(local, remote);
    var added := AddConflict(conflicts, local, remote);
    assert FirstIndexOf(added, pair) == Some(|conflicts|) by {
      assert forall i | 0 <= i < |conflicts| :: added[i] == conflicts[i];
    }
  }

  /** The registry and the store after a resolution. */
  datatype Resolution = Resolution(conflicts: seq<ConflictPair>, store: Store)

  /** Resolve `pair` in favour of the remote side (`useRemote`) or the local
      side: the stored record with the local id takes the winner's title and
      content, is marked pending upload and stamped `now`; then the first
      equal pair leaves the registry. A missing record leaves the store as it
      was. */
  function Resolve(conflicts: seq<ConflictPair>, store: Store, pair: ConflictPair, useRemote: bool, now: int): (r: Resolution)
    ensures r.conflicts == RemoveConflict(conflicts, pair)
    ensures r.store.Keys == store.Keys
    ensures forall id | id in store && id != pair.local.id :: r.store[id] == store[id]
    ensures pair.local.id !in store ==> r.store == store
    ensures pair.local.id in store ==>
      var winner := if useRemote then pair.remote else pair.local;
      var before := store[pair.local.id];
      var after := r.store[pair.local.id];
      && after.title == winner.title && after.content == winner.content
      && after.isPendingUpload && after.lastModified == now
      && after.titleVersion == before.titleVersion && after.contentVersion == before.contentVersion
      && after.id == before.id && after.isCompleted == before.isCompleted
      && after.isTitleModified == before.isTitleModified && after.isContentModified == before.isContentModified
  {
    var winner := if useRemote then pair.remote else pair.local;
    var id := pair.local.id;
    var store' :=
      if id in store then
        store[id := store[id].(title := winner.title, content := winner.content, isPendingUpload := true, lastModified := now)]
      else store;
    Resolution(RemoveConflict(conflicts, pair), store')
  }

  /** Resolution keeps the store well keyed. */
  lemma {:induction false} ResolveKeepsStoreWellKeyed(conflicts: seq<ConflictPair>, store: Store, pair: ConflictPair,
                                                      useRemote: bool, now: int)
    requires WellKeyed(store)
    ensures WellKeyed(Resolve(conflicts, store, pair, useRemote, now).store)
  {
  }

  /** Resolving the same pair a second time with the same choice at the same
      instant leaves the store as the first resolution did; if the registry
      held at most one pair equal to it, the registry is unchanged too. */
  lemma {:induction false} ResolveTwice(conflicts: seq<ConflictPair>, store: Store, pair: ConflictPair, useRemote: bool, now: int)
    requires forall i, j | 0 <= i < j < |conflicts| :: !(SamePair(conflicts[i], pair) && SamePair(conflicts[j], pair))
    ensures var once := Resolve(conflicts, store, pair, useRemote, now);
      Resolve(once.conflicts, once.store, pair, useRemote, now) == once
  {
    var once := Resolve(conflicts, store, pair, useRemote, now);
    match FirstIndexOf(conflicts, pair)
    case None =>
    case Some(i) =>
      var rest := conflicts[..i] + conflicts[i + 1..];
      assert once.conflicts == rest;
      forall k | 0 <= k < |rest| ensures !SamePair(rest[k], pair) {
        if k < i {
          assert rest[k] == conflicts[k];
        } else {
          assert rest[k] == conflicts[k + 1];
        }
      }
  }

  /** Resolving a pair whose record is stored a second time, at a later
      reading of the clock, stamps the record again: the second resolution
      is not a no-op when the clock has moved. */
  lemma {:induction false} ResolveAgainRestamps(conflicts: seq<ConflictPair>, store: Store, pair: ConflictPair,
                                                useRemote: bool, now: int, later: int)
    requires pair.local.id in store
    ensures pair.local.id in Resolve(Resolve(conflicts, store, pair, useRemote, now).conflicts,
                                     Resolve(conflicts, store, pair, useRemote, now).store, pair, useRemote, later).store
    ensures Resolve(Resolve(conflicts, store, pair, useRemote, now).conflicts,
                    Resolve(conflicts, store, pair, useRemote, now).store, pair, useRemote, later).store[pair.local.id].lastModified == later
    ensures later != now ==>
      Resolve(Resolve(conflicts, store, pair, useRemote, now).conflicts,
              Resolve(conflicts, store, pair, useRemote, now).store, pair, useRemote, later).store
      != Resolve(conflicts, store, pair, useRemote, now).store
  {
    var once := Resolve(conflicts, store, pair, useRemote, now);
    var twice := Resolve(once.conflicts, once.store, pair, useRemote, later);
    assert once.store[pair.local.id].lastModified == now;
    assert twice.store[pair.local.id].lastModified == later;
  }
}
