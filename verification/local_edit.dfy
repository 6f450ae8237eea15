/** Saving an edit of a task's title and content on this device. */
module LocalEdit {
  import opened VersionVectors
  import opened TaskItems
  import ConflictResolver

  /** One field after a save: a changed value sets the dirty flag and, under
      "VV", raises this device's counter. */
  function SaveField(value: string, dirty: bool, version: VersionVector, edited: string,
                     conflictStrategy: string, deviceId: string): (string, bool, VersionVector)
  {
    if value != edited then
      (edited, true, if conflictStrategy == "VV" then Bump(version, deviceId) else version)
    else (value, dirty, version)
  }

  /** Save the edited title and content into `task` at time `now`. */
  function SaveChanges(task: Task, editedTitle: string, editedContent: string,
                       conflictStrategy: string, deviceId: string, now: int): (r: Task)
    // the edited values are stored
    ensures r.title == editedTitle && r.content == editedContent
    // a changed field becomes dirty; saving never clears a dirty flag
    ensures r.isTitleModified == (task.isTitleModified || task.title != editedTitle)
    ensures r.isContentModified == (task.isContentModified || task.content != editedContent)
    // under "VV" a changed field raises exactly this device's counter by one
    ensures conflictStrategy == "VV" && task.title != editedTitle ==>
              Get(r.titleVersion, deviceId) == Get(task.titleVersion, deviceId) + 1
              && (forall k :: k != deviceId ==> Get(r.titleVersion, k) == Get(task.titleVersion, k))
              && r.titleVersion.Keys == task.titleVersion.Keys + {deviceId}
    ensures conflictStrategy == "VV" && task.content != editedContent ==>
              Get(r.contentVersion, deviceId) == Get(task.contentVersion, deviceId) + 1
              && (forall k :: k != deviceId ==> Get(r.contentVersion, k) == Get(task.contentVersion, k))
              && r.contentVersion.Keys == task.contentVersion.Keys + {deviceId}
    // an unchanged field, or any strategy but "VV", leaves the vector alone
    ensures conflictStrategy != "VV" || task.title == editedTitle ==> r.titleVersion == task.titleVersion
    ensures conflictStrategy != "VV" || task.content == editedContent ==> r.contentVersion == task.contentVersion
    // the clock moves iff something changed
    ensures r.lastModified == (if task.title != editedTitle || task.content != editedContent then now else task.lastModified)
    // nothing else changes
    ensures r.id == task.id && r.isCompleted == task.isCompleted && r.isPendingUpload == task.isPendingUpload
    ensures task.title == editedTitle && task.content == editedContent ==> r == task
  {
    var (title, titleDirty, titleVersion) :=
      SaveField(task.title, task.isTitleModified, task.titleVersion, editedTitle, conflictStrategy, deviceId);
    var (content, contentDirty, contentVersion) :=
      SaveField(task.content, task.isContentModified, task.contentVersion, editedContent, conflictStrategy, deviceId);
    var didModify := task.title != editedTitle || task.content != editedContent;
    task.(title := title, isTitleModified := titleDirty, titleVersion := titleVersion,
          content := content, isContentModified := contentDirty, contentVersion := contentVersion,
          lastModified := if didModify then now else task.lastModified)
  }

  /** Saving the same edit twice is the same as saving it once, whatever the
      clock reads the second time. */
  lemma {:induction false} SaveChangesIdempotent(task: Task, editedTitle: string, editedContent: string,
                                                conflictStrategy: string, deviceId: string, now: int, later: int)
    ensures var once := SaveChanges(task, editedTitle, editedContent, conflictStrategy, deviceId, now);
      SaveChanges(once, editedTitle, editedContent, conflictStrategy, deviceId, later) == once
  {
  }

  /** Under "VV" an edit propagates through the merge: the edited copy's
      title vector dominates the copy it was made from, so merging the edited
      copy into the old one adopts the new title and vector, and merging the
      old copy back into the edited one keeps the edit. */
  lemma {:induction false} EditPropagatesUnderVersionVectors(task: Task, editedTitle: string, deviceId: string, now: int)
    requires task.title != editedTitle
    ensures var edited := SaveChanges(task, editedTitle, task.content, "VV", deviceId, now);
      && Compare(edited.titleVersion, task.titleVersion) == LocalNewer
      && ConflictResolver.Resolve(task, edited, deviceId).title == editedTitle
      && ConflictResolver.Resolve(task, edited, deviceId).titleVersion == edited.titleVersion
      && ConflictResolver.Resolve(edited, task, deviceId) == edited
  {
    var edited := SaveChanges(task, editedTitle, task.content, "VV", deviceId, now);
    assert edited.titleVersion == Bump(task.titleVersion, deviceId);
    BumpDominates(task.titleVersion, deviceId);
  }

  /** Under any other strategy an edit leaves the vectors equal, so the merge
      sees a concurrent verdict and never carries the edited title over. */
  lemma {:induction false} EditInvisibleWithoutVersionVectors(task: Task, editedTitle: string, conflictStrategy: string,
                                                              deviceId: string, now: int)
    requires conflictStrategy != "VV"
    ensures var edited := SaveChanges(task, editedTitle, task.content, conflictStrategy, deviceId, now);
      ConflictResolver.Resolve(task, edited, deviceId) == task
  {
    CompareReflexiveConcurrent(task.titleVersion);
    CompareReflexiveConcurrent(task.contentVersion);
  }

  /** The first "VV" edit of a fresh record gives its title vector exactly
      one entry: this device at counter 1. */
  lemma {:induction false} FirstEditOfNewTask(id: Id, created: int, editedTitle: string, deviceId: string, now: int)
    requires editedTitle != ""
    ensures var r := SaveChanges(NewTask(id, created), editedTitle, "", "VV", deviceId, now);
      && r.titleVersion == map[deviceId := 1]
      && r.contentVersion == map[]
      && r.isTitleModified && !r.isContentModified
      && r.lastModified == now
  {
  }
}
