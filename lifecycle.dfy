/** The task state machine behind `App::toggle_task` and `App::complete_task`
    (taskquest/src/app.rs), as transition functions on a task value. The app methods apply
    them in place to the selected task; the lemmas here say what a run of transitions keeps. */
module Lifecycle {
  import opened Models

  /** The toggle request: Pending starts, InProgress pauses, Paused resumes (folding the pause
      into the running total), Completed stays as it is. */
  function Toggled(t: Task, now: Timestamp): (r: Task)
    ensures r.id == t.id && r.title == t.title && r.difficulty == t.difficulty
    ensures r.createdAt == t.createdAt && r.completedAt == t.completedAt && r.pointsEarned == t.pointsEarned
    ensures t.status == Completed <==> r.status == Completed
    ensures t.status == Completed ==> r == t
    ensures t.status == Pending ==> r.status == InProgress && r.startedAt == Some(now)
    ensures t.status != Pending ==> r.startedAt == t.startedAt
    ensures t.status == InProgress ==> r.status == Paused && r.pausedAt == Some(now)
    ensures t.status == Paused ==> r.status == InProgress && r.pausedAt == None
    ensures t.status == Pending ==> r == t.(status := InProgress, startedAt := Some(now))
    ensures t.status == InProgress ==> r == t.(status := Paused, pausedAt := Some(now))
    ensures t.status == Paused ==>
      r == t.(status := InProgress, pausedAt := None, totalPauseDuration := FoldPause(t, now))
  {
    match t.status
    case Pending => t.(status := InProgress, startedAt := Some(now))
    case InProgress => t.(status := Paused, pausedAt := Some(now))
    case Paused => Resumed(t, now)
    case Completed => t
  }

  /** Leaving the Paused state: the time since `pausedAt` (when it is set) is added to the
      pause total. */
  function FoldPause(t: Task, now: Timestamp): (total: int)
    ensures t.pausedAt.Some? && t.pausedAt.value <= now ==> total >= t.totalPauseDuration
    ensures t.pausedAt.None? ==> total == t.totalPauseDuration
    ensures t.pausedAt.Some? ==> total == t.totalPauseDuration + (now - t.pausedAt.value)
  {
    match t.pausedAt
    case Some(p) => t.totalPauseDuration + (now - p)
    case None => t.totalPauseDuration
  }

  function Resumed(t: Task, now: Timestamp): (r: Task)
    ensures r.status == InProgress && r.pausedAt == None
    ensures r.totalPauseDuration == FoldPause(t, now)
  {
    t.(status := InProgress, totalPauseDuration := FoldPause(t, now), pausedAt := None)
  }

  /** The completion request on a task that is not yet Completed: a pending pause is folded
      into the total first (without resuming), then the task is marked Completed at `now`.
      `pausedAt` is left as it was. */
  function Finished(t: Task, now: Timestamp): (r: Task)
    requires t.status != Completed
    ensures r.status == Completed && r.completedAt == Some(now)
    ensures r.id == t.id && r.title == t.title && r.difficulty == t.difficulty
    ensures r.createdAt == t.createdAt && r.startedAt == t.startedAt && r.pausedAt == t.pausedAt
    ensures r.pointsEarned == t.pointsEarned
    ensures r.totalPauseDuration == if t.status == Paused then FoldPause(t, now) else t.totalPauseDuration
  {
    var folded := if t.status == Paused then t.(totalPauseDuration := FoldPause(t, now)) else t;
    folded.(status := Completed, completedAt := Some(now))
  }

  /** Pausing at `p` and resuming at `q` adds exactly `q - p` to the pause total and leaves the
      task running from the same start. */
  lemma PauseThenResume(t: Task, p: Timestamp, q: Timestamp)
    requires t.status == InProgress
    ensures var r := Toggled(Toggled(t, p), q);
      && r.status == InProgress && r.pausedAt == None && r.startedAt == t.startedAt
      && r.totalPauseDuration == t.totalPauseDuration + (q - p)
  {
  }

  /** Completing from Paused gives the same pause total as resuming and then completing at the
      same instant. */
  lemma CompleteFromPausedFoldsLikeResume(t: Task, now: Timestamp)
    requires t.status == Paused
    ensures Finished(t, now).totalPauseDuration == Finished(Toggled(t, now), now).totalPauseDuration
  {
  }

  /** The time bookkeeping a task's history keeps, given that no recorded instant lies after
      `clock`: the pause total is never negative, and the start time plus the pause total
      never passes the instant the task was paused or completed (or `clock` while it runs). */
  predicate WellTimed(t: Task, clock: Timestamp) {
    && t.totalPauseDuration >= 0
    && match t.status
       case Pending =>
         t.startedAt == None && t.pausedAt == None && t.completedAt == None && t.totalPauseDuration == 0
       case InProgress =>
         && t.startedAt.Some? && t.pausedAt == None && t.completedAt == None
         && t.startedAt.value + t.totalPauseDuration <= clock
       case Paused =>
         && t.startedAt.Some? && t.pausedAt.Some? && t.completedAt == None
         && t.startedAt.value + t.totalPauseDuration <= t.pausedAt.value <= clock
       case Completed =>
         && t.completedAt.Some? && t.completedAt.value <= clock
         && (t.startedAt.Some? ==> t.startedAt.value + t.totalPauseDuration <= t.completedAt.value)
         && (t.startedAt.None? ==> t.totalPauseDuration == 0)
  }

  /** A task created by the store is well timed from its creation on. */
  lemma NewTaskWellTimed(t: Task, clock: Timestamp)
    requires t.status == Pending && t.startedAt == None && t.pausedAt == None
    requires t.completedAt == None && t.totalPauseDuration == 0
    ensures WellTimed(t, clock)
  {
  }

  /** With a clock that does not run backwards, toggling keeps a task well timed. */
  lemma ToggleKeepsWellTimed(t: Task, clock: Timestamp, now: Timestamp)
    requires WellTimed(t, clock) && clock <= now
    ensures WellTimed(Toggled(t, now), now)
  {
  }

  /** With a clock that does not run backwards, completing keeps a task well timed. */
  lemma FinishKeepsWellTimed(t: Task, clock: Timestamp, now: Timestamp)
    requires WellTimed(t, clock) && clock <= now && t.status != Completed
    ensures WellTimed(Finished(t, now), now)
  {
  }

  /** The active time of a well-timed completed task (completion minus start minus pauses)
      is never negative, and never more than the time between start and completion. */
  lemma ActiveTimeInRange(t: Task, clock: Timestamp)
    requires WellTimed(t, clock) && t.status == Completed && t.startedAt.Some?
    ensures 0 <= t.completedAt.value - t.startedAt.value - t.totalPauseDuration
              <= t.completedAt.value - t.startedAt.value
  {
  }

  /** The result of a run of toggles at the given instants. */
  function ToggledAt(t: Task, instants: seq<Timestamp>): Task
    decreases |instants|
  {
    if instants == [] then t else ToggledAt(Toggled(t, instants[0]), instants[1..])
  }

  /** Any run of toggles at non-decreasing instants keeps a task well timed, never completes
      it, and never lowers its pause total. */
  lemma {:induction false} ToggleRunKeepsWellTimed(t: Task, clock: Timestamp, instants: seq<Timestamp>)
    requires WellTimed(t, clock)
    requires forall i :: 0 <= i < |instants| ==> clock <= instants[i]
    requires forall i, j :: 0 <= i < j < |instants| ==> instants[i] <= instants[j]
    ensures var last := if instants == [] then clock else instants[|instants| - 1];
      WellTimed(ToggledAt(t, instants), last)
    ensures (ToggledAt(t, instants).status == Completed) == (t.status == Completed)
    ensures ToggledAt(t, instants).totalPauseDuration >= t.totalPauseDuration
    decreases |instants|
  {
    if instants != [] {
      ToggleKeepsWellTimed(t, clock, instants[0]);
      ToggleRunKeepsWellTimed(Toggled(t, instants[0]), instants[0], instants[1..]);
    }
  }
}
