/** The scoring engine (taskquest/src/scoring.rs): the point award for a finished task, the
    statistics update that follows it (totals, milestone bonus, streak and its decaying bonus
    pool), and the two reporting scores. Floats are real numbers here; `as i32` is Truncate. */
module Scoring {
  import opened Models

  const BasePointsMultiplier: int := 10
  const MilestoneThresholds: seq<int> := [10, 25, 50, 100, 250, 500]
  const MilestoneBonus: int := 100
  const SecondsPerDay: int := 86400

  function MinReal(a: real, b: real): real { if a <= b then a else b }
  function MaxReal(a: real, b: real): real { if a >= b then a else b }
  function MaxInt(a: int, b: int): int { if a >= b then a else b }

  /** Integer division rounding toward zero, as chrono's `num_days` does. */
  function TruncDiv(a: int, b: int): (q: int)
    requires b > 0
    ensures a >= 0 ==> q == a / b
    ensures a < 0 ==> q == -((-a) / b)
  {
    if a >= 0 then a / b else -((-a) / b)
  }

  /** `x as i32`: drops the fraction, rounding toward zero (saturation at the i32 bounds is
      not modelled). */
  function Truncate(x: real): (n: int)
    ensures x >= 0.0 ==> n as real <= x < n as real + 1.0
    ensures x < 0.0 ==> n as real - 1.0 < x <= n as real && n <= 0
  {
    if x >= 0.0 then x.Floor else -((-x).Floor)
  }

  /** `(n as f32 * 0.5) as i32` is half of `n`, rounded toward zero. */
  lemma HalfTruncates(n: int)
    ensures Truncate(n as real * 0.5) == TruncDiv(n, 2)
  {
    if n >= 0 {
      assert (n / 2) as real <= n as real * 0.5 < (n / 2) as real + 1.0;
    } else {
      assert ((-n) / 2) as real <= (-n) as real * 0.5 < ((-n) / 2) as real + 1.0;
    }
  }

  function Base(t: Task): int {
    t.difficulty * BasePointsMultiplier
  }

  /** Both a start and a completion time are recorded. */
  predicate Timed(t: Task) {
    t.startedAt.Some? && t.completedAt.Some?
  }

  function ElapsedSeconds(t: Task): int
    requires Timed(t)
  {
    t.completedAt.value - t.startedAt.value
  }

  function ActiveSeconds(t: Task): int
    requires Timed(t)
  {
    ElapsedSeconds(t) - t.totalPauseDuration
  }

  /** `calculate_time_bonus`. An untimed task earns nothing; a first task of its difficulty (no
      average yet) earns a flat twice its difficulty; otherwise only beating the average pays,
      and never more than half the base points. With an average of zero and a negative active
      time the float ratio is +infinity, which the cap turns into one half. */
  function TimeBonus(t: Task, avg: Option<real>): (bonus: real)
    ensures !Timed(t) ==> bonus == 0.0
    ensures Timed(t) && avg.None? ==> bonus == (t.difficulty * 2) as real
    ensures Timed(t) && avg.Some? && ActiveSeconds(t) as real >= avg.value ==> bonus == 0.0
    ensures t.difficulty >= 0 ==> bonus <= Base(t) as real / 2.0
    ensures t.difficulty > 0 && Timed(t) && avg.Some? && 0.0 < avg.value && (ActiveSeconds(t) as real) < avg.value
            ==> bonus > 0.0
  {
    if Timed(t) then
      var actual := ActiveSeconds(t) as real;
      match avg
      case Some(a) =>
        if actual < a then
          var ratio := if a == 0.0 then 0.5 else MinReal((a - actual) / a, 0.5);
          assert ratio <= 0.5;
          MulMono(Base(t) as real, ratio, 0.5);
          Base(t) as real * ratio
        else 0.0
      case None => (t.difficulty * 2) as real
    else 0.0
  }

  /** Multiplying by a non-negative factor keeps order. */
  lemma MulMono(k: real, x: real, y: real)
    requires x <= y
    ensures k >= 0.0 ==> k * x <= k * y
    ensures k > 0.0 && x > 0.0 ==> k * x > 0.0
  {
  }

  lemma PositiveProduct(a: real, b: real)
    requires a > 0.0 && b > 0.0
    ensures a * b > 0.0
  {
  }

  /** Dividing a non-negative number by a positive one gives a non-negative quotient. */
  lemma QuotientNonNegative(x: real, n: real)
    requires n > 0.0 && x >= 0.0
    ensures x / n >= 0.0
  {
  }

  /** Dividing by a positive number keeps order. */
  lemma QuotientMono(x: real, y: real, n: real)
    requires n > 0.0 && x <= y
    ensures x / n <= y / n
  {
    assert y / n - x / n == (y - x) / n;
    QuotientNonNegative(y - x, n);
  }

  /** A quotient lies in [0, k] when the dividend lies in [0, k * n]. */
  lemma QuotientBounds(x: real, n: real, k: real)
    requires n > 0.0 && x <= k * n
    ensures x / n <= k
    ensures x >= 0.0 ==> x / n >= 0.0
  {
    assert (k * n) / n == k;
    QuotientMono(x, k * n, n);
    if x >= 0.0 {
      QuotientNonNegative(x, n);
    }
  }

  /** A real number no larger than an integer truncates to no more than that integer. */
  lemma TruncateAtMost(x: real, k: int)
    requires x <= k as real
    ensures Truncate(x) <= k || Truncate(x) <= 0
  {
  }

  /** Finishing faster never earns a smaller time bonus (for a positive or missing average). */
  lemma FasterEarnsMore(t: Task, u: Task, avg: Option<real>)
    requires Timed(t) && Timed(u) && t.difficulty == u.difficulty >= 0
    requires avg.None? || avg.value > 0.0
    requires ActiveSeconds(t) <= ActiveSeconds(u)
    ensures TimeBonus(t, avg) >= TimeBonus(u, avg)
  {
    if avg.Some? {
      var a := avg.value;
      var x, y := ActiveSeconds(t) as real, ActiveSeconds(u) as real;
      var b := Base(t) as real;
      assert Base(u) as real == b && b >= 0.0;
      var rt := MinReal((a - x) / a, 0.5);
      if x < a {
        assert TimeBonus(t, avg) == b * rt;
        QuotientNonNegative(a - x, a);
        if y < a {
          var ru := MinReal((a - y) / a, 0.5);
          assert TimeBonus(u, avg) == b * ru;
          QuotientMono(a - y, a - x, a);
          ScaledOrder(b, ru, rt, TimeBonus(u, avg), TimeBonus(t, avg));
        } else {
          assert TimeBonus(u, avg) == 0.0;
          ScaledOrder(b, 0.0, rt, TimeBonus(u, avg), TimeBonus(t, avg));
        }
      } else {
        assert TimeBonus(t, avg) == 0.0 && TimeBonus(u, avg) == 0.0;
      }
    }
  }

  /** Two amounts scaled by the same non-negative factor keep their order. */
  lemma ScaledOrder(k: real, x: real, y: real, kx: real, ky: real)
    requires k >= 0.0 && x <= y && kx == k * x && ky == k * y
    ensures kx <= ky
  {
    MulMono(k, x, y);
  }

  /** The streak share of the multiplier: 5% per streak day, at most 50%. */
  function StreakBonus(streak: int): (bonus: real)
    ensures bonus <= 0.5
    ensures streak >= 0 ==> bonus >= 0.0
  {
    MinReal(streak as real * 0.05, 0.5)
  }

  /** `calculate_streak_multiplier`: 5% per streak day, at most 50%, scaled by the bonus pool.
      With valid statistics it lies between the pool and one and a half times the pool. */
  function StreakMultiplier(s: UserStats): (m: real)
    ensures s.currentStreak >= 0 && s.streakBonusPool >= 0.0 ==>
              s.streakBonusPool <= m <= 1.5 * s.streakBonusPool
    ensures StatsValid(s) ==> 0.0 < m <= 1.5
  {
    var bonus := StreakBonus(s.currentStreak);
    var pool := s.streakBonusPool;
    if s.currentStreak >= 0 && pool >= 0.0 then
      ScaledPoolBounds(pool, bonus);
      assert pool <= 1.0 ==> 1.5 * pool <= 1.5;
      (1.0 + bonus) * pool
    else
      (1.0 + bonus) * pool
  }

  /** A pool scaled by one plus a bonus of at most one half lies between the pool and one and
      a half times it, and is positive when the pool is. */
  lemma ScaledPoolBounds(pool: real, bonus: real)
    requires 0.0 <= bonus <= 0.5 && pool >= 0.0
    ensures pool <= (1.0 + bonus) * pool <= 1.5 * pool
    ensures pool > 0.0 ==> (1.0 + bonus) * pool > 0.0
  {
    MulMono(pool, 1.0, 1.0 + bonus);
    MulMono(pool, 1.0 + bonus, 1.5);
    if pool > 0.0 {
      PositiveProduct(1.0 + bonus, pool);
    }
  }

  /** `calculate_focus_bonus`: only the share of active time above 80% pays, at half rate, so an
      uninterrupted task earns a tenth of its base points and no task earns more (the comment at
      scoring.rs:68 says "up to 20%"). Nothing is paid unless some time elapsed. */
  function FocusBonus(t: Task): (bonus: real)
    ensures t.difficulty >= 0 ==> bonus >= 0.0
    ensures !(Timed(t) && ElapsedSeconds(t) > 0) ==> bonus == 0.0
    ensures t.difficulty >= 0 && t.totalPauseDuration >= 0 ==> bonus <= Base(t) as real / 10.0
    ensures Timed(t) && ElapsedSeconds(t) > 0 && t.totalPauseDuration == 0 ==> bonus == Base(t) as real / 10.0
  {
    if Timed(t) && ElapsedSeconds(t) > 0 then
      var ratio := ActiveSeconds(t) as real / ElapsedSeconds(t) as real;
      var share := MaxReal(ratio - 0.8, 0.0);
      FocusShareBound(t, ratio, share);
      Base(t) as real * share * 0.5
    else 0.0
  }

  lemma FocusShareBound(t: Task, ratio: real, share: real)
    requires Timed(t) && ElapsedSeconds(t) > 0
    requires ratio == ActiveSeconds(t) as real / ElapsedSeconds(t) as real
    requires share == MaxReal(ratio - 0.8, 0.0)
    ensures t.difficulty >= 0 ==> Base(t) as real * share * 0.5 >= 0.0
    ensures t.difficulty >= 0 && t.totalPauseDuration >= 0 ==> Base(t) as real * share * 0.5 <= Base(t) as real / 10.0
    ensures t.totalPauseDuration == 0 ==> Base(t) as real * share * 0.5 == Base(t) as real / 10.0
  {
    var e := ElapsedSeconds(t) as real;
    if t.totalPauseDuration >= 0 {
      assert ActiveSeconds(t) as real <= e;
      assert ratio <= 1.0;
      assert share <= 0.2;
      MulMono(Base(t) as real, share, 0.2);
    }
    if t.totalPauseDuration == 0 {
      assert ratio == 1.0;
    }
    MulMono(Base(t) as real, 0.0, share);
  }

  /** `calculate_task_points`: base points times the streak multiplier plus both bonuses,
      truncated, and never less than half the base. */
  function TaskPoints(t: Task, s: UserStats, avg: Option<real>): (points: int)
    ensures points >= Base(t) / 2
    ensures !Timed(t) ==> points == MaxInt(Truncate(Base(t) as real * StreakMultiplier(s)), Base(t) / 2)
  {
    Award(Base(t), StreakMultiplier(s), TimeBonus(t, avg), FocusBonus(t))
  }

  /** The award from its parts: base points scaled by the multiplier plus both bonuses,
      truncated, with half the base as the floor. */
  function Award(base: int, multiplier: real, timeBonus: real, focusBonus: real): (points: int)
    ensures points >= base / 2
    ensures timeBonus == 0.0 && focusBonus == 0.0 ==>
              points == MaxInt(Truncate(base as real * multiplier), base / 2)
  {
    MaxInt(Truncate(base as real * multiplier + timeBonus + focusBonus), base / 2)
  }

  /** The worked example: difficulty 5, 100 seconds without pauses, no average yet, no streak
      and a full pool earn 50 + 10 + 5 = 65 points. */
  lemma WorkedExample(t: Task, s: UserStats)
    requires t.difficulty == 5 && t.startedAt == Some(1000) && t.completedAt == Some(1100)
    requires t.totalPauseDuration == 0
    requires s.currentStreak == 0 && s.streakBonusPool == 1.0
    ensures TimeBonus(t, None) == 10.0 && FocusBonus(t) == 5.0 && StreakMultiplier(s) == 1.0
    ensures TaskPoints(t, s, None) == 65
  {
    assert Truncate(65.0) == 65;
  }

  /** With a valid difficulty, valid statistics and a non-negative pause total, the award is
      at most 2.1 times the base (1.5 from the multiplier, 0.5 time bonus, 0.1 focus bonus). */
  lemma PointsBounded(t: Task, s: UserStats, avg: Option<real>)
    requires ValidDifficulty(t.difficulty) && StatsValid(s) && t.totalPauseDuration >= 0
    ensures TaskPoints(t, s, avg) <= 21 * t.difficulty
  {
    AwardAtMost(t.difficulty, Base(t), StreakMultiplier(s), TimeBonus(t, avg), FocusBonus(t));
  }

  /** The award arithmetic alone: a multiplier of at most 1.5, a time bonus of at most half the
      base and a focus bonus of at most a tenth of it truncate to at most 21 points per unit of
      difficulty, and so does the floor of half the base. */
  lemma AwardAtMost(d: int, b: int, m: real, tb: real, fb: real)
    requires 1 <= d && b == d * 10
    requires m <= 1.5 && tb <= b as real / 2.0 && fb <= b as real / 10.0
    ensures Award(b, m, tb, fb) <= 21 * d
  {
    AwardSumAtMost(d, b, m, tb, fb);
    TruncateAtMost(b as real * m + tb + fb, 21 * d);
  }

  lemma AwardSumAtMost(d: int, b: int, m: real, tb: real, fb: real)
    requires 1 <= d && b == d * 10
    requires m <= 1.5 && tb <= b as real / 2.0 && fb <= b as real / 10.0
    ensures b as real * m + tb + fb <= (21 * d) as real
  {
    MulMono(b as real, m, 1.5);
  }

  /** `num_days` on the gap between two instants: whole days, rounded toward zero, so twelve
      hours back is day 0 while a full day back is -1. */
  function DaysSince(now: Timestamp, last: Timestamp): (days: int)
    ensures days == 0 <==> -SecondsPerDay < now - last < SecondsPerDay
    ensures now >= last ==> days * SecondsPerDay <= now - last < (days + 1) * SecondsPerDay
    ensures now < last ==> (days - 1) * SecondsPerDay < now - last <= days * SecondsPerDay
  {
    TruncDiv(now - last, SecondsPerDay)
  }

  /** The streak rules of `update_streak`, stated per gap: no previous completion starts a
      streak of one; a same-day completion changes nothing; the next day extends the streak and
      refills the pool by 0.1 (up to 1); a gap of two or three days halves the streak and keeps
      70% of the pool; any other gap, negative ones included, resets the streak and keeps 30%
      of the pool. The completion instant is always recorded. */
  function StreakUpdated(s: UserStats, now: Timestamp): (r: UserStats)
    ensures r.lastCompletionDate == Some(now)
    ensures r.totalPoints == s.totalPoints && r.tasksCompleted == s.tasksCompleted
    ensures r.totalFocusTime == s.totalFocusTime
    ensures r.longestStreak >= s.longestStreak
    ensures StatsValid(s) ==> StatsValid(r)
  {
    match s.lastCompletionDate
    case None => s.(currentStreak := 1, lastCompletionDate := Some(now))
    case Some(last) =>
      var gap := DaysSince(now, last);
      var kept :=
        if gap == 0 then s
        else if gap == 1 then
          s.(currentStreak := s.currentStreak + 1,
             streakBonusPool := MinReal(s.streakBonusPool + 0.1, 1.0),
             longestStreak := MaxInt(s.longestStreak, s.currentStreak + 1))
        else if 2 <= gap <= 3 then
          s.(streakBonusPool := s.streakBonusPool * 0.7, currentStreak := TruncDiv(s.currentStreak, 2))
        else
          s.(streakBonusPool := s.streakBonusPool * 0.3, currentStreak := 0);
      kept.(lastCompletionDate := Some(now))
  }

  /** `update_streak`, step by step on the record it updates. */
  method UpdateStreak(stats: UserStats, now: Timestamp) returns (s: UserStats)
    ensures s == StreakUpdated(stats, now)
  {
    s := stats;
    if s.lastCompletionDate.Some? {
      var daysSince := DaysSince(now, s.lastCompletionDate.value);
      if daysSince == 0 {
        // same day: the streak continues as it is
      } else if daysSince == 1 {
        s := s.(currentStreak := s.currentStreak + 1);
        s := s.(streakBonusPool := MinReal(s.streakBonusPool + 0.1, 1.0));
        if s.currentStreak > s.longestStreak {
          s := s.(longestStreak := s.currentStreak);
        }
      } else if 2 <= daysSince <= 3 {
        s := s.(streakBonusPool := s.streakBonusPool * 0.7);
        HalfTruncates(s.currentStreak);
        s := s.(currentStreak := Truncate(s.currentStreak as real * 0.5));
      } else {
        s := s.(streakBonusPool := s.streakBonusPool * 0.3);
        s := s.(currentStreak := 0);
      }
    } else {
      s := s.(currentStreak := 1);
    }
    s := s.(lastCompletionDate := Some(now));
  }

  /** The rules of `update_streak`, one per arm, for every record and every gap (negative gaps
      included): with no previous completion the streak becomes 1 and nothing else but the date
      changes; a gap of day 0 changes only the date; day 1 extends the streak, refills the pool
      by 0.1 up to 1 and raises the longest streak to the new one if it is longer; days 2 and 3
      halve the streak (toward zero) and keep 70% of the pool; any other day count resets the
      streak and keeps 30% of the pool. */
  lemma StreakRules(s: UserStats, now: Timestamp)
    ensures s.lastCompletionDate.None? ==>
      StreakUpdated(s, now) == s.(currentStreak := 1, lastCompletionDate := Some(now))
    ensures s.lastCompletionDate.Some? && DaysSince(now, s.lastCompletionDate.value) == 0 ==>
      StreakUpdated(s, now) == s.(lastCompletionDate := Some(now))
    ensures s.lastCompletionDate.Some? && DaysSince(now, s.lastCompletionDate.value) == 1 ==>
      var r := StreakUpdated(s, now);
      && r.currentStreak == s.currentStreak + 1
      && r.streakBonusPool == (if s.streakBonusPool + 0.1 < 1.0 then s.streakBonusPool + 0.1 else 1.0)
      && r.longestStreak == (if s.currentStreak + 1 > s.longestStreak then s.currentStreak + 1 else s.longestStreak)
      && r == s.(currentStreak := r.currentStreak, streakBonusPool := r.streakBonusPool,
                 longestStreak := r.longestStreak, lastCompletionDate := Some(now))
    ensures s.lastCompletionDate.Some? && 2 <= DaysSince(now, s.lastCompletionDate.value) <= 3 ==>
      StreakUpdated(s, now) == s.(streakBonusPool := s.streakBonusPool * 0.7,
                                  currentStreak := TruncDiv(s.currentStreak, 2),
                                  lastCompletionDate := Some(now))
    ensures s.lastCompletionDate.Some? && !(0 <= DaysSince(now, s.lastCompletionDate.value) <= 3) ==>
      StreakUpdated(s, now) == s.(streakBonusPool := s.streakBonusPool * 0.3, currentStreak := 0,
                                  lastCompletionDate := Some(now))
  {
  }

  /** A same-day completion leaves streak, record and pool as they were; so do two completions
      on the same day in a row. */
  lemma SameDayKeepsStreak(s: UserStats, now: Timestamp, later: Timestamp)
    requires s.lastCompletionDate.Some? && DaysSince(now, s.lastCompletionDate.value) == 0
    requires now <= later < now + SecondsPerDay
    ensures var once := StreakUpdated(s, now);
      && once.currentStreak == s.currentStreak && once.longestStreak == s.longestStreak
      && once.streakBonusPool == s.streakBonusPool
    ensures var twice := StreakUpdated(StreakUpdated(s, now), later);
      && twice.currentStreak == s.currentStreak && twice.streakBonusPool == s.streakBonusPool
  {
  }

  /** More than three days away, or a clock that went back a whole day, resets the streak
      whatever its length and keeps 30% of the pool; half a day back still counts as day 0. */
  lemma LongGapResets(s: UserStats, last: Timestamp)
    requires s.lastCompletionDate == Some(last)
    ensures StreakUpdated(s, last + 5 * SecondsPerDay).currentStreak == 0
    ensures StreakUpdated(s, last + 5 * SecondsPerDay).streakBonusPool == s.streakBonusPool * 0.3
    ensures StreakUpdated(s, last - SecondsPerDay).currentStreak == 0
    ensures StreakUpdated(s, last - SecondsPerDay / 2).currentStreak == s.currentStreak
  {
  }

  /** The first completion ever starts a streak of one without touching the longest streak,
      so right after it the current streak exceeds the recorded longest one. */
  lemma FirstCompletionOutrunsLongest(now: Timestamp)
    ensures StreakUpdated(DefaultStats(), now).currentStreak == 1
    ensures StreakUpdated(DefaultStats(), now).longestStreak == 0
  {
  }

  /** The statistics after a run of completions at the given instants. */
  function StreaksAt(s: UserStats, instants: seq<Timestamp>): UserStats
    decreases |instants|
  {
    if instants == [] then s else StreaksAt(StreakUpdated(s, instants[0]), instants[1..])
  }

  /** Whatever the gaps, any number of streak updates keeps the pool in (0, 1], the counters
      non-negative, and never lowers the longest streak. */
  lemma {:induction false} PoolStaysInRange(s: UserStats, instants: seq<Timestamp>)
    requires StatsValid(s)
    ensures StatsValid(StreaksAt(s, instants))
    ensures StreaksAt(s, instants).longestStreak >= s.longestStreak
    decreases |instants|
  {
    if instants != [] {
      PoolStaysInRange(StreakUpdated(s, instants[0]), instants[1..]);
    }
  }

  /** The one-time milestone award: paid exactly when the completion count hits one of the
      thresholds, 100 points per ten completions. */
  function MilestoneBonusFor(count: int): (bonus: int)
    ensures bonus > 0 <==> count in MilestoneThresholds
    ensures bonus > 0 ==> bonus == MilestoneBonus * (count / 10)
  {
    if count in MilestoneThresholds then MilestoneBonus * MaxInt(count / 10, 1) else 0
  }

  /** The awards at each threshold, and none next to them. */
  lemma MilestoneAwards()
    ensures MilestoneBonusFor(10) == 100 && MilestoneBonusFor(25) == 200
    ensures MilestoneBonusFor(50) == 500 && MilestoneBonusFor(100) == 1000
    ensures MilestoneBonusFor(250) == 2500 && MilestoneBonusFor(500) == 5000
    ensures MilestoneBonusFor(9) == 0 && MilestoneBonusFor(11) == 0
    ensures MilestoneBonusFor(24) == 0 && MilestoneBonusFor(26) == 0
  {
  }

  /** What `update_stats_on_completion` leaves behind: the points and one more completion
      counted, the task's active time added when it was timed, the streak updated, and the
      milestone award for the new count. */
  function StatsAfterCompletion(s: UserStats, t: Task, points: int, now: Timestamp): (r: UserStats)
    ensures r.tasksCompleted == s.tasksCompleted + 1
    ensures r.totalPoints == s.totalPoints + points + MilestoneBonusFor(s.tasksCompleted + 1)
    ensures points >= 0 ==> r.totalPoints >= s.totalPoints + points
    ensures r.totalFocusTime == s.totalFocusTime + (if Timed(t) then ActiveSeconds(t) else 0)
    ensures r.lastCompletionDate == Some(now)
    ensures StatsValid(s) ==> StatsValid(r)
    ensures var streaked := StreakUpdated(s, now);
      && r.currentStreak == streaked.currentStreak && r.longestStreak == streaked.longestStreak
      && r.streakBonusPool == streaked.streakBonusPool
  {
    var counted := s.(totalPoints := s.totalPoints + points,
                      tasksCompleted := s.tasksCompleted + 1,
                      totalFocusTime := s.totalFocusTime + (if Timed(t) then ActiveSeconds(t) else 0));
    var streaked := StreakUpdated(counted, now);
    streaked.(totalPoints := streaked.totalPoints + MilestoneBonusFor(streaked.tasksCompleted))
  }

  /** `update_stats_on_completion`, step by step on the record it updates. */
  method UpdateStatsOnCompletion(stats: UserStats, t: Task, points: int, now: Timestamp)
    returns (s: UserStats)
    ensures s == StatsAfterCompletion(stats, t, points, now)
  {
    s := stats;
    s := s.(totalPoints := s.totalPoints + points);
    s := s.(tasksCompleted := s.tasksCompleted + 1);
    if Timed(t) {
      var activeTime := (t.completedAt.value - t.startedAt.value) - t.totalPauseDuration;
      s := s.(totalFocusTime := s.totalFocusTime + activeTime);
    }
    s := UpdateStreak(s, now);
    if s.tasksCompleted in MilestoneThresholds {
      s := s.(totalPoints := s.totalPoints + MilestoneBonus * MaxInt(s.tasksCompleted / 10, 1));
    }
  }

  /** How many tasks in the slice are Completed: the divisor of both reporting scores. */
  function CompletedCount(tasks: seq<Task>): (n: nat)
    ensures n <= |tasks|
    ensures n == |tasks| <==> forall t <- tasks :: t.status == Completed
    ensures n == 0 <==> forall t <- tasks :: t.status != Completed
  {
    if tasks == [] then 0
    else (if tasks[0].status == Completed then 1 else 0) + CompletedCount(tasks[1..])
  }

  /** The statuses of the slice, in order. */
  function Statuses(tasks: seq<Task>): seq<TaskStatus> {
    if tasks == [] then [] else [tasks[0].status] + Statuses(tasks[1..])
  }

  /** The count is the number of times Completed occurs among the slice's statuses. */
  lemma {:induction false} CompletedCountIsMultiplicity(tasks: seq<Task>)
    ensures CompletedCount(tasks) == multiset(Statuses(tasks))[Completed]
  {
    if tasks != [] {
      CompletedCountIsMultiplicity(tasks[1..]);
      assert multiset(Statuses(tasks)) == multiset{tasks[0].status} + multiset(Statuses(tasks[1..]));
    }
  }

  /** The shape both reporting scores share: a sum over a count, scaled, capped at 100, and 0
      when nothing is counted. */
  function ScaledMean(sum: real, count: nat, scale: real): (score: real)
    ensures count == 0 ==> score == 0.0
    ensures score <= 100.0
  {
    if count > 0 then MinReal(Mean(sum, count) * scale, 100.0) else 0.0
  }

  function Mean(sum: real, count: nat): real
    requires count > 0
  {
    sum / count as real
  }

  /** When every term is at most `bound` and `bound * scale` is at most 100, the cap never
      bites; a non-negative sum gives a non-negative score. */
  lemma ScaledMeanUncapped(sum: real, count: nat, scale: real, bound: real)
    requires count > 0 && scale >= 0.0 && bound * scale <= 100.0
    requires sum <= bound * count as real
    ensures ScaledMean(sum, count, scale) == Mean(sum, count) * scale
    ensures sum >= 0.0 ==> Mean(sum, count) * scale >= 0.0
  {
    var q := Mean(sum, count);
    assert ScaledMean(sum, count, scale) == MinReal(q * scale, 100.0);
    QuotientBounds(sum, count as real, bound);
    MulMono(scale, q, bound);
    if sum >= 0.0 {
      MulMono(scale, 0.0, q);
    }
  }

  /** The per-task term of the focus score: the active share of a timed task with positive
      elapsed time. */
  function FocusRatio(t: Task): (r: Option<real>)
    ensures r.Some? <==> Timed(t) && ElapsedSeconds(t) > 0
    ensures r.Some? ==> r.value * ElapsedSeconds(t) as real == ActiveSeconds(t) as real
    ensures r.Some? && t.totalPauseDuration >= 0 ==> r.value <= 1.0
    ensures r.Some? && t.totalPauseDuration <= ElapsedSeconds(t) ==> r.value >= 0.0
  {
    if Timed(t) && ElapsedSeconds(t) > 0 then
      var e := ElapsedSeconds(t) as real;
      var a := ActiveSeconds(t) as real;
      assert t.totalPauseDuration >= 0 ==> a / e <= 1.0;
      assert t.totalPauseDuration <= ElapsedSeconds(t) ==> a / e >= 0.0;
      Some(a / e)
    else None
  }

  function FocusRatioSum(tasks: seq<Task>): real {
    if tasks == [] then 0.0
    else (match FocusRatio(tasks[0]) case Some(r) => r case None => 0.0) + FocusRatioSum(tasks[1..])
  }

  /** `calculate_focus_score`: the sum of the focus terms over the number of Completed tasks,
      as a percentage capped at 100; 0 for an empty slice or one without a Completed task. */
  function FocusScore(tasks: seq<Task>): (score: real)
    ensures tasks == [] ==> score == 0.0
    ensures CompletedCount(tasks) == 0 ==> score == 0.0
    ensures score <= 100.0
  {
    if tasks == [] then 0.0
    else
      var completed := CompletedCount(tasks);
      ScaledMean(FocusRatioSum(tasks), completed, 100.0)
  }

  /** Pause totals never above the elapsed time make every term, hence the sum, non-negative. */
  lemma {:induction false} FocusRatioSumNonNegative(tasks: seq<Task>)
    requires forall t <- tasks :: Timed(t) ==> t.totalPauseDuration <= ElapsedSeconds(t)
    ensures FocusRatioSum(tasks) >= 0.0
  {
    if tasks != [] {
      FocusRatioSumNonNegative(tasks[1..]);
    }
  }

  /** Pause totals never below zero keep every term at most one, hence the sum at most the
      number of tasks. */
  lemma {:induction false} FocusRatioSumAtMostCount(tasks: seq<Task>)
    requires forall t <- tasks :: t.totalPauseDuration >= 0
    ensures FocusRatioSum(tasks) <= |tasks| as real
  {
    if tasks != [] {
      FocusRatioSumAtMostCount(tasks[1..]);
    }
  }

  /** On a slice of completed tasks whose pause totals lie within their elapsed times (what the
      store hands to the report), the focus score is the plain mean percentage: it is never
      negative and the cap at 100 never bites. */
  lemma FocusScoreOnCompletedSlice(tasks: seq<Task>)
    requires tasks != [] && forall t <- tasks :: t.status == Completed
    requires forall t <- tasks :: 0 <= t.totalPauseDuration && (Timed(t) ==> t.totalPauseDuration <= ElapsedSeconds(t))
    ensures FocusScore(tasks) == Mean(FocusRatioSum(tasks), |tasks|) * 100.0
    ensures FocusScore(tasks) >= 0.0
  {
    assert CompletedCount(tasks) == |tasks|;
    FocusRatioSumNonNegative(tasks);
    FocusRatioSumAtMostCount(tasks);
    FocusScoreUncapped(tasks);
  }

  lemma FocusScoreUncapped(tasks: seq<Task>)
    requires tasks != [] && CompletedCount(tasks) == |tasks|
    requires 0.0 <= FocusRatioSum(tasks) <= |tasks| as real
    ensures FocusScore(tasks) == Mean(FocusRatioSum(tasks), |tasks|) * 100.0
    ensures FocusScore(tasks) >= 0.0
  {
    PercentOfCount(FocusRatioSum(tasks), |tasks|);
  }

  /** n terms summing to n have mean 1. */
  lemma MeanOfOnes(n: nat)
    requires n > 0
    ensures Mean(n as real, n) == 1.0
  {
  }

  /** A mean of terms in [0, 1] as a percentage: uncapped and non-negative. */
  lemma PercentOfCount(sum: real, n: nat)
    requires 0.0 <= sum <= n as real && n > 0
    ensures ScaledMean(sum, n, 100.0) == Mean(sum, n) * 100.0
    ensures ScaledMean(sum, n, 100.0) >= 0.0
  {
    ScaledMeanUncapped(sum, n, 100.0, 1.0);
  }

  /** `avg_times.iter().find(..)`: the first recorded average for the difficulty. */
  function LookupAverage(avgTimes: seq<(int, real)>, difficulty: int): (r: Option<real>)
    ensures r.None? <==> forall i :: 0 <= i < |avgTimes| ==> avgTimes[i].0 != difficulty
    ensures r.Some? ==> exists i :: 0 <= i < |avgTimes| && avgTimes[i] == (difficulty, r.value)
                                    && forall j :: 0 <= j < i ==> avgTimes[j].0 != difficulty
  {
    if avgTimes == [] then None
    else if avgTimes[0].0 == difficulty then Some(avgTimes[0].1)
    else
      var r := LookupAverage(avgTimes[1..], difficulty);
      assert forall i :: 0 < i < |avgTimes| ==> avgTimes[i] == avgTimes[1..][i - 1];
      if r.Some? then
        var i :| 0 <= i < |avgTimes[1..]| && avgTimes[1..][i] == (difficulty, r.value)
                 && forall j :: 0 <= j < i ==> avgTimes[1..][j].0 != difficulty;
        assert avgTimes[i + 1] == (difficulty, r.value);
        assert forall j :: 0 <= j < i + 1 ==> avgTimes[j].0 != difficulty;
        r
      else r
  }

  /** The per-task term of the efficiency score: the average over the actual active time, for a
      timed task with a recorded average and positive active time, capped at 2. */
  function EfficiencyTerm(t: Task, avgTimes: seq<(int, real)>): (r: Option<real>)
    ensures r.Some? ==> r.value <= 2.0
    ensures r.Some? <==> Timed(t) && ActiveSeconds(t) > 0 && LookupAverage(avgTimes, t.difficulty).Some?
    ensures r.Some? ==>
      var actual, avg := ActiveSeconds(t) as real, LookupAverage(avgTimes, t.difficulty).value;
      r.value * actual <= avg && (r.value == 2.0 || r.value * actual == avg)
  {
    if Timed(t) then
      var actual := ActiveSeconds(t) as real;
      match LookupAverage(avgTimes, t.difficulty)
      case Some(avg) => if actual > 0.0 then Some(MinReal(avg / actual, 2.0)) else None
      case None => None
    else None
  }

  function EfficiencySum(tasks: seq<Task>, avgTimes: seq<(int, real)>): real {
    if tasks == [] then 0.0
    else (match EfficiencyTerm(tasks[0], avgTimes) case Some(e) => e case None => 0.0)
         + EfficiencySum(tasks[1..], avgTimes)
  }

  /** `calculate_efficiency_score`: the sum of the efficiency terms over the number of Completed
      tasks, times 50, capped at 100; 0 for an empty slice or one without a Completed task. */
  function EfficiencyScore(tasks: seq<Task>, avgTimes: seq<(int, real)>): (score: real)
    ensures tasks == [] ==> score == 0.0
    ensures CompletedCount(tasks) == 0 ==> score == 0.0
    ensures score <= 100.0
  {
    if tasks == [] then 0.0
    else
      var completed := CompletedCount(tasks);
      ScaledMean(EfficiencySum(tasks, avgTimes), completed, 50.0)
  }

  /** Each term is at most 2, so the sum is at most twice the number of tasks. */
  lemma {:induction false} EfficiencySumBound(tasks: seq<Task>, avgTimes: seq<(int, real)>)
    ensures EfficiencySum(tasks, avgTimes) <= 2.0 * |tasks| as real
  {
    if tasks != [] {
      EfficiencySumBound(tasks[1..], avgTimes);
    }
  }

  /** On a slice of completed tasks the efficiency score is the plain mean term times 50: the
      cap at 100 never bites. */
  lemma EfficiencyScoreOnCompletedSlice(tasks: seq<Task>, avgTimes: seq<(int, real)>)
    requires tasks != [] && forall t <- tasks :: t.status == Completed
    ensures EfficiencyScore(tasks, avgTimes) == Mean(EfficiencySum(tasks, avgTimes), |tasks|) * 50.0
  {
    EfficiencySumBound(tasks, avgTimes);
    assert CompletedCount(tasks) == |tasks|;
    ScaledMeanUncapped(EfficiencySum(tasks, avgTimes), |tasks|, 50.0, 2.0);
  }

  /** An unfinished, untimed task changes neither score: it adds no term and is not counted. */
  lemma UnfinishedTaskIsNotCounted(u: Task, tasks: seq<Task>, avgTimes: seq<(int, real)>)
    requires u.status != Completed && !Timed(u)
    ensures FocusScore([u] + tasks) == FocusScore(tasks)
    ensures EfficiencyScore([u] + tasks, avgTimes) == EfficiencyScore(tasks, avgTimes)
  {
    assert ([u] + tasks)[0] == u && ([u] + tasks)[1..] == tasks;
  }

  /** Timed tasks without pauses and with positive elapsed time each add a full term. */
  lemma {:induction false} UninterruptedRatioSum(tasks: seq<Task>)
    requires forall t <- tasks :: Timed(t) && ElapsedSeconds(t) > 0 && t.totalPauseDuration == 0
    ensures FocusRatioSum(tasks) == |tasks| as real
  {
    if tasks != [] {
      assert tasks[0] in tasks;
      UninterruptedRatioSum(tasks[1..]);
    }
  }

  /** Completed tasks, all timed, never paused and with positive elapsed time, score a full 100
      for focus. */
  lemma FullFocus(tasks: seq<Task>)
    requires tasks != []
    requires forall t <- tasks ::
      t.status == Completed && Timed(t) && ElapsedSeconds(t) > 0 && t.totalPauseDuration == 0
    ensures FocusScore(tasks) == 100.0
  {
    UninterruptedRatioSum(tasks);
    assert CompletedCount(tasks) == |tasks|;
    PercentOfCount(|tasks| as real, |tasks|);
    MeanOfOnes(|tasks|);
  }

  /** The task was timed, took a positive active time, and took exactly the first recorded
      average for its difficulty. */
  predicate OnPace(t: Task, avgTimes: seq<(int, real)>) {
    Timed(t) && ActiveSeconds(t) > 0 && LookupAverage(avgTimes, t.difficulty) == Some(ActiveSeconds(t) as real)
  }

  /** Tasks on pace each add a term of exactly 1. */
  lemma {:induction false} OnPaceSum(tasks: seq<Task>, avgTimes: seq<(int, real)>)
    requires forall t <- tasks :: OnPace(t, avgTimes)
    ensures EfficiencySum(tasks, avgTimes) == |tasks| as real
  {
    if tasks != [] {
      assert OnPace(tasks[0], avgTimes);
      OnPaceSum(tasks[1..], avgTimes);
    }
  }

  /** Completed tasks that each took exactly the recorded average for their difficulty score 50
      for efficiency. */
  lemma OnPaceScoresFifty(tasks: seq<Task>, avgTimes: seq<(int, real)>)
    requires tasks != []
    requires forall t <- tasks :: t.status == Completed && OnPace(t, avgTimes)
    ensures EfficiencyScore(tasks, avgTimes) == 50.0
  {
    var n := |tasks|;
    assert EfficiencySum(tasks, avgTimes) == n as real by { OnPaceSum(tasks, avgTimes); }
    assert CompletedCount(tasks) == n;
    MeanOfOnes(n);
  }
}
