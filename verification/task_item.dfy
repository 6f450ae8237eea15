/** The task record, keyed by its id, and the local store that holds one
    record per id. */
module TaskItems {
  import opened VersionVectors

  /** A record's primary key: an object id, a 12-byte value read as a number. */
  type Id = nat

  /** One task. Timestamps are integers. `titleVersion`, `contentVersion` and
      `isPendingUpload` are the fields the merge, the editor and the conflict
      registry read and write on every record. */
  datatype Task = Task(
    id: Id,
    title: string,
    content: string,
    isCompleted: bool,
    lastModified: int,
    isTitleModified: bool,
    isContentModified: bool,
    isPendingUpload: bool,
    titleVersion: VersionVector,
    contentVersion: VersionVector)

  /** A record created with every field at its default and the clock at `now`. */
  function NewTask(id: Id, now: int): (t: Task)
    ensures t.id == id && t.lastModified == now
    ensures t.title == "" && t.content == ""
    ensures !t.isCompleted
    ensures !t.isTitleModified && !t.isContentModified && !t.isPendingUpload
    ensures t.titleVersion == map[] && t.contentVersion == map[]
  {
    Task(id, "", "", false, now, false, false, false, map[], map[])
  }

  /** The local store: at most one record per primary key. */
  type Store = map<Id, Task>

  /** Every record sits under its own id. */
  predicate WellKeyed(s: Store) {
    forall id | id in s :: s[id].id == id
  }

  /** In a well-keyed store two stored records with the same id are the same
      record: the id is a primary key. */
  lemma {:induction false} PrimaryKeyUnique(s: Store, x: Task, y: Task)
    requires WellKeyed(s)
    requires x in s.Values && y in s.Values
    ensures x.id == y.id ==> x == y
  {
    var i :| i in s && s[i] == x;
    var j :| j in s && s[j] == y;
  }

  /** No id occurs twice. */
  predicate DistinctIds(ids: seq<Id>) {
    forall i, j | 0 <= i < j < |ids| :: ids[i] != ids[j]
  }

  /** Every stored record, in an order the store does not promise. `keys`
      is the order the records were listed in: one entry per stored id, the
      i-th record being the one under the i-th key. */
  method StoreRecords(s: Store) returns (tasks: seq<Task>, ghost keys: seq<Id>)
    ensures |tasks| == |s| && |keys| == |tasks|
    ensures DistinctIds(keys)
    ensures forall i | 0 <= i < |keys| :: keys[i] in s && tasks[i] == s[keys[i]]
    ensures forall id | id in s :: id in keys
    ensures forall id | id in s :: s[id] in tasks
    ensures forall i | 0 <= i < |tasks| :: tasks[i] in s.Values
  {
    tasks, keys := [], [];
    var pending := s.Keys;
    while pending != {}
      invariant pending <= s.Keys
      invariant |tasks| + |pending| == |s.Keys| && |keys| == |tasks|
      invariant DistinctIds(keys)
      invariant forall i | 0 <= i < |keys| :: keys[i] in s.Keys - pending && tasks[i] == s[keys[i]]
      invariant forall id | id in s.Keys - pending :: id in keys
      invariant forall id | id in s.Keys - pending :: s[id] in tasks
      decreases pending
    {
      var id :| id in pending;
      tasks, keys := tasks + [s[id]], keys + [id];
      pending := pending - {id};
    }
  }
}
