/** Delta synchronisation's preparation step: pick up to five distinct tasks
    at random and simulate an offline edit on each. The random shuffle is a
    nondeterministic choice; the picks are returned as positions. */
module DeltaSync {
  import opened TaskItems

  /** How many tasks a preparation touches at most. */
  const SampleSize: nat := 5

  function Min(a: nat, b: nat): nat {
    if a <= b then a else b
  }

  /** The simulated offline edit: " *" appended to the title, completion
      toggled, stamped `now`. */
  function Touch(t: Task, now: int): (r: Task)
    ensures r.title == t.title + " *"
    ensures r.isCompleted == !t.isCompleted
    ensures r.lastModified == now
    ensures r.id == t.id && r.content == t.content
    ensures r.titleVersion == t.titleVersion && r.contentVersion == t.contentVersion
    ensures r.isTitleModified == t.isTitleModified && r.isContentModified == t.isContentModified
    ensures r.isPendingUpload == t.isPendingUpload
  {
    t.(title := t.title + " *", isCompleted := !t.isCompleted, lastModified := now)
  }

  /** Whether position `i` is among the picks. */
  predicate Picked(picks: seq<nat>, i: nat) {
    i in picks
  }

  /** No position is picked twice. */
  predicate DistinctPicks(picks: seq<nat>) {
    forall j, k | 0 <= j < k < |picks| :: picks[j] != picks[k]
  }

  /** The task list with exactly the picked positions touched. */
  function TouchPicked(tasks: seq<Task>, picks: seq<nat>, now: int): (r: seq<Task>)
    ensures |r| == |tasks|
  {
    seq(|tasks|, i requires 0 <= i < |tasks| => if Picked(picks, i) then Touch(tasks[i], now) else tasks[i])
  }

  /** Some position below `n` is not yet in `chosen` while fewer than `n` are. */
  lemma {:induction false} UnchosenPositionExists(chosen: set<nat>, n: nat)
    requires forall i | i in chosen :: i < n
    requires |chosen| < n
    ensures exists i :: 0 <= i < n && i !in chosen
  {
    if n - 1 in chosen {
      UnchosenPositionExists(chosen - {n - 1}, n - 1);
    } else {
      assert 0 <= n - 1 < n && n - 1 !in chosen;
    }
  }

  /** Picking a position not yet picked keeps the picks distinct. */
  lemma {:induction false} FreshPickDistinct(picks: seq<nat>, i: nat)
    requires DistinctPicks(picks) && !Picked(picks, i)
    ensures DistinctPicks(picks + [i])
  {
    forall j | 0 <= j < |picks| ensures picks[j] != i {
      assert picks[j] in picks;
    }
  }

  /** Pick `min(5, |tasks|)` distinct positions at random and touch the tasks
      there. `updated` is the task list afterwards (the picked tasks edited in
      place, all others unchanged) and `selected` the edited tasks in pick
      order. */
  method PrepareTasks(tasks: seq<Task>, now: int) returns (updated: seq<Task>, picks: seq<nat>, selected: seq<Task>)
    ensures |picks| == Min(SampleSize, |tasks|)
    ensures forall j | 0 <= j < |picks| :: picks[j] < |tasks|
    ensures forall j, k | 0 <= j < k < |picks| :: picks[j] != picks[k]
    ensures |selected| == |picks|
    ensures forall j | 0 <= j < |picks| :: selected[j] == Touch(tasks[picks[j]], now)
    ensures |updated| == |tasks|
    ensures forall i | 0 <= i < |tasks| :: updated[i] == if Picked(picks, i) then Touch(tasks[i], now) else tasks[i]
  {
    var count := Min(SampleSize, |tasks|);
    picks := [];
    var chosen: set<nat> := {};
    while |picks| < count
      invariant |picks| <= count
      invariant forall j | 0 <= j < |picks| :: picks[j] < |tasks|
      invariant DistinctPicks(picks)
      invariant forall i :: i in chosen <==> Picked(picks, i)
      invariant |chosen| == |picks|
      decreases count - |picks|
    {
      UnchosenPositionExists(chosen, |tasks|);
      var i :| 0 <= i < |tasks| && i !in chosen;
      FreshPickDistinct(picks, i);
      picks := picks + [i];
      chosen := chosen + {i};
    }
    selected := seq(|picks|, j requires 0 <= j < |picks| => Touch(tasks[picks[j]], now));
    updated := TouchPicked(tasks, picks, now);
  }
}
