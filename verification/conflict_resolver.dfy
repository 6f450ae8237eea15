/** The per-field merge of a local record with a remote copy of it. Title
    and content are merged independently; a field adopts the remote value and
    vector only when the remote vector strictly dominates. */
module ConflictResolver {
  import opened VersionVectors
  import opened TaskItems

  /** The merge of one field: the winning value and the winning vector. */
  datatype Field = Field(value: string, version: VersionVector)

  /** Merge one field. Equal values are never compared; otherwise the remote
      value and vector replace the local ones (replacement, not union) only
      on a remoteNewer verdict. */
  function MergeField(local: Field, remote: Field): (r: Field)
    ensures r.value != local.value <==> local.value != remote.value && Dominates(remote.version, local.version)
    ensures r.value == local.value ==> r == local
    ensures r.value != local.value ==> r == remote
    ensures forall k :: Get(local.version, k) <= Get(r.version, k)
  {
    CompareIsDominance(local.version, remote.version);
    if local.value != remote.value && Compare(local.version, remote.version) == RemoteNewer then remote
    else local
  }

  /** Merge `remote` into `local`. Only title, content and their vectors can
      change; every other field is local's. The device id is accepted but not
      consulted. */
  function Resolve(local: Task, remote: Task, deviceId: string): (m: Task)
    ensures m.id == local.id && m.isCompleted == local.isCompleted && m.lastModified == local.lastModified
    ensures m.isTitleModified == local.isTitleModified && m.isContentModified == local.isContentModified
    ensures m.isPendingUpload == local.isPendingUpload
    ensures local.title == remote.title ==> m.title == local.title && m.titleVersion == local.titleVersion
    ensures local.title != remote.title && Compare(local.titleVersion, remote.titleVersion) == RemoteNewer ==>
              m.title == remote.title && m.titleVersion == remote.titleVersion
    ensures Compare(local.titleVersion, remote.titleVersion) != RemoteNewer ==>
              m.title == local.title && m.titleVersion == local.titleVersion
    ensures local.content == remote.content ==> m.content == local.content && m.contentVersion == local.contentVersion
    ensures local.content != remote.content && Compare(local.contentVersion, remote.contentVersion) == RemoteNewer ==>
              m.content == remote.content && m.contentVersion == remote.contentVersion
    ensures Compare(local.contentVersion, remote.contentVersion) != RemoteNewer ==>
              m.content == local.content && m.contentVersion == local.contentVersion
  {
    CompareIsDominance(local.titleVersion, remote.titleVersion);
    CompareIsDominance(local.contentVersion, remote.contentVersion);
    var title := MergeField(Field(local.title, local.titleVersion), Field(remote.title, remote.titleVersion));
    var content := MergeField(Field(local.content, local.contentVersion), Field(remote.content, remote.contentVersion));
    local.(title := title.value, titleVersion := title.version,
           content := content.value, contentVersion := content.version)
  }

  /** Merging never forgets a local edit: each merged vector reads at least
      the local counter for every device, and when a field's verdict was not
      concurrent (and the values differed) the winning vector reads at least
      both sides' counters. */
  lemma {:induction false} ResolveMonotone(local: Task, remote: Task, deviceId: string)
    ensures var m := Resolve(local, remote, deviceId);
      && (forall k :: Get(local.titleVersion, k) <= Get(m.titleVersion, k))
      && (forall k :: Get(local.contentVersion, k) <= Get(m.contentVersion, k))
    ensures var m := Resolve(local, remote, deviceId);
      local.title != remote.title && Compare(local.titleVersion, remote.titleVersion) != Concurrent ==>
        forall k :: Get(remote.titleVersion, k) <= Get(m.titleVersion, k)
    ensures var m := Resolve(local, remote, deviceId);
      local.content != remote.content && Compare(local.contentVersion, remote.contentVersion) != Concurrent ==>
        forall k :: Get(remote.contentVersion, k) <= Get(m.contentVersion, k)
  {
    var m := Resolve(local, remote, deviceId);
    CompareIsDominance(local.titleVersion, remote.titleVersion);
    CompareIsDominance(local.contentVersion, remote.contentVersion);
    assert Field(m.title, m.titleVersion) == MergeField(Field(local.title, local.titleVersion), Field(remote.title, remote.titleVersion));
    assert Field(m.content, m.contentVersion) == MergeField(Field(local.content, local.contentVersion), Field(remote.content, remote.contentVersion));
  }

  /** Merging the same remote copy a second time changes nothing. */
  lemma {:induction false} ResolveIdempotent(local: Task, remote: Task, deviceId: string)
    ensures Resolve(Resolve(local, remote, deviceId), remote, deviceId) == Resolve(local, remote, deviceId)
  {
    var m := Resolve(local, remote, deviceId);
    if local.title != remote.title && Compare(local.titleVersion, remote.titleVersion) == RemoteNewer {
      assert m.title == remote.title;
    }
    if local.content != remote.content && Compare(local.contentVersion, remote.contentVersion) == RemoteNewer {
      assert m.content == remote.content;
    }
  }

  /** A record merged with an identical copy of itself is unchanged. */
  lemma {:induction false} ResolveSelf(t: Task, deviceId: string)
    ensures Resolve(t, t, deviceId) == t
  {
  }

  /** Independent edits to different fields on two devices merge without
      conflict: device d1 edited the title locally, device d2 edited the
      content remotely, and the merge keeps local's title and takes
      remote's content. */
  lemma ResolveIndependentEdits(now: int)
    ensures
      var local := NewTask(1, now).(title := "A", titleVersion := map["d1" := 1], content := "c");
      var remote := NewTask(1, now).(title := "B", content := "C", contentVersion := map["d2" := 1]);
      var m := Resolve(local, remote, "d1");
      m.title == "A" && m.titleVersion == map["d1" := 1] && m.content == "C" && m.contentVersion == map["d2" := 1]
  {
    var local := NewTask(1, now).(title := "A", titleVersion := map["d1" := 1], content := "c");
    var remote := NewTask(1, now).(title := "B", content := "C", contentVersion := map["d2" := 1]);
    assert Get(local.titleVersion, "d1") > Get(remote.titleVersion, "d1");
    CompareIsDominance(local.titleVersion, remote.titleVersion);
    assert Get(remote.contentVersion, "d2") > Get(local.contentVersion, "d2");
    CompareIsDominance(local.contentVersion, remote.contentVersion);
  }

  /** Truly concurrent title edits (d1 only locally, d2 only remotely) keep
      the local title: no winner is chosen. */
  lemma ResolveConcurrentKeepsLocal(now: int)
    ensures
      var local := NewTask(1, now).(title := "A", titleVersion := map["d1" := 1]);
      var remote := NewTask(1, now).(title := "B", titleVersion := map["d2" := 1]);
      Resolve(local, remote, "d1") == local
  {
    var local := NewTask(1, now).(title := "A", titleVersion := map["d1" := 1]);
    var remote := NewTask(1, now).(title := "B", titleVersion := map["d2" := 1]);
    assert Get(local.titleVersion, "d1") > Get(remote.titleVersion, "d1");
    assert Get(remote.titleVersion, "d2") > Get(local.titleVersion, "d2");
    CompareIsDominance(local.titleVersion, remote.titleVersion);
  }
}
