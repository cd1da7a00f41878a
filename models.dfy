/** The records every other part of TaskQuest works on (taskquest/src/models.rs).
    Timestamps are whole seconds since the epoch; the clock itself is not modelled. */
module Models {

  datatype Option<+T> = None | Some(value: T)

  type Timestamp = int

  /** The four states a task can be in. */
  datatype TaskStatus = Pending | InProgress | Paused | Completed

  /** The label the status is shown with; every status has one, and no two share it. */
  function AsStr(status: TaskStatus): (name: string)
    ensures |name| > 0
    ensures status == InProgress <==> name == "In Progress"
  {
    match status
    case Pending => "Pending"
    case InProgress => "In Progress"
    case Paused => "Paused"
    case Completed => "Completed"
  }

  /** No two statuses share a label. */
  lemma AsStrInjective(a: TaskStatus, b: TaskStatus)
    ensures AsStr(a) == AsStr(b) <==> a == b
  {
  }

  /** One unit of work. `difficulty` is meant to lie in 1..10 (see ValidDifficulty);
      `totalPauseDuration` counts seconds spent paused. */
  datatype Task = Task(
    id: int,
    title: string,
    difficulty: int,
    status: TaskStatus,
    createdAt: Timestamp,
    startedAt: Option<Timestamp>,
    completedAt: Option<Timestamp>,
    pausedAt: Option<Timestamp>,
    totalPauseDuration: int,
    pointsEarned: int)

  predicate ValidDifficulty(d: int) {
    1 <= d <= 10
  }

  /** The single aggregate statistics record. */
  datatype UserStats = UserStats(
    totalPoints: int,
    currentStreak: int,
    longestStreak: int,
    lastCompletionDate: Option<Timestamp>,
    tasksCompleted: int,
    totalFocusTime: int,
    streakBonusPool: real)

  /** What the scoring engine keeps true of the statistics: the bonus pool stays in (0, 1]
      and the counters stay non-negative. */
  predicate StatsValid(s: UserStats) {
    && 0.0 < s.streakBonusPool <= 1.0
    && s.currentStreak >= 0
    && s.longestStreak >= 0
    && s.tasksCompleted >= 0
  }

  /** `UserStats::default()`: a fresh installation, nothing completed yet, full bonus pool. */
  function DefaultStats(): (s: UserStats)
    ensures s.streakBonusPool == 1.0
    ensures s.totalPoints == 0 && s.currentStreak == 0 && s.longestStreak == 0
    ensures s.tasksCompleted == 0 && s.totalFocusTime == 0
    ensures s.lastCompletionDate == None
    ensures StatsValid(s)
  {
    UserStats(0, 0, 0, None, 0, 0, 1.0)
  }
}
