/** The `App` state of taskquest/src/app.rs: the visible task list, the selection, the add/edit
    form and the user statistics, together with the database the methods write through to. The
    `tasks` table is the sequence `table` (newest first, as `get_all_tasks` orders it), the
    `user_stats` row is `storedStats`, and `nextId` is the next AUTOINCREMENT id. The clock and
    the per-difficulty averages the database computes are parameters. */
module TaskApp {
  import opened Models
  import opened Store
  import opened Lifecycle
  import opened Scoring
  import opened RustText

  datatype InputMode = Normal | AddingTask | EditingTask

  datatype InputFocus = Title | Difficulty

  /** `toggle_input_focus`: the other field of the form. */
  function Flipped(focus: InputFocus): (r: InputFocus)
    ensures r != focus
  {
    match focus
    case Title => Difficulty
    case Difficulty => Title
  }

  /** Switching the form focus twice lands where it started. */
  lemma FlippedTwice(focus: InputFocus)
    ensures Flipped(Flipped(focus)) == focus
  {
  }

  function Clamp(v: int, lo: int, hi: int): (r: int)
    requires lo <= hi
    ensures lo <= r <= hi
    ensures lo <= v <= hi ==> r == v
    ensures v < lo ==> r == lo
    ensures v > hi ==> r == hi
  {
    if v < lo then lo else if v > hi then hi else v
  }

  /** `difficulty_input.parse::<i32>().unwrap_or(5).clamp(1, 10)`. */
  function ParsedDifficulty(input: string): (d: int)
    ensures ValidDifficulty(d)
    ensures ParseI32(input).None? ==> d == 5
    ensures ParseI32(input).Some? ==> d == Clamp(ParseI32(input).value, 1, 10)
  {
    match ParseI32(input)
    case Some(v) => Clamp(v, 1, 10)
    case None => Clamp(5, 1, 10)
  }

  /** The form pre-filled by `start_edit_task` gives back the task's own difficulty on submit. */
  lemma EditKeepsDifficulty(d: int)
    requires ValidDifficulty(d)
    ensures ParsedDifficulty(DecimalString(d)) == d
  {
    ParseDecimalRoundTrip(d);
  }

  /** What the difficulty field yields: an emptied field falls back to 5; out-of-range
      numbers are clamped. */
  lemma DifficultyFallbacks()
    ensures ParsedDifficulty("") == 5
    ensures ParsedDifficulty("0") == 1
    ensures ParsedDifficulty("99") == 10
    ensures ParsedDifficulty("7") == 7
  {
    assert DigitsValue("0") == 0;
    assert DigitsValue("9") == 9;
    assert "99"[..1] == "9";
    assert DigitsValue("99") == 99;
    assert DigitsValue("7") == 7;
  }

  /** A form value the difficulty field can hold: at most two ASCII digits. */
  predicate DifficultyField(s: string) {
    AllDigits(s) && |s| <= 2
  }

  /** The form text `start_edit_task` puts in the difficulty field fits the field. */
  lemma DecimalDifficultyFits(d: int)
    requires ValidDifficulty(d)
    ensures DifficultyField(DecimalString(d))
  {
    if d == 10 {
      assert DecimalString(d) == NatDigits(1) + [DigitChar(0)];
    }
  }

  /** `refresh_tasks`: all rows when completed tasks are shown, the pending listing otherwise. */
  function Listing(table: seq<Task>, showCompleted: bool): (r: seq<Task>)
    ensures showCompleted ==> r == table
    ensures !showCompleted ==> forall t :: t in r <==> t in table && t.status != Completed
    ensures TableValid(table) ==> TableValid(r)
    ensures NewestFirst(table) ==> NewestFirst(r)
  {
    if showCompleted then table
    else if NewestFirst(table) then PendingListingKeepsNewestFirst(table); PendingListing(table)
    else PendingListing(table)
  }

  /** `iter().find(|t| t.id == id)`: the position of the first task with the id. */
  function FirstWithId(tasks: seq<Task>, id: int): (r: Option<nat>)
    ensures r.Some? ==> r.value < |tasks| && tasks[r.value].id == id
    ensures r.Some? ==> forall j :: 0 <= j < r.value ==> tasks[j].id != id
    ensures r.None? ==> forall j :: 0 <= j < |tasks| ==> tasks[j].id != id
  {
    if tasks == [] then None
    else if tasks[0].id == id then Some(0)
    else
      match FirstWithId(tasks[1..], id)
      case Some(k) => Some(k + 1)
      case None => None
  }

  /** The status line `toggle_task` shows for each transition it makes. */
  function ToggleMessage(status: TaskStatus): (message: string)
    ensures status == Completed <==> message == []
  {
    match status
    case Pending => "Task started!"
    case InProgress => "Task paused"
    case Paused => "Task resumed!"
    case Completed => ""
  }

  /** Each transition reports its own message: no two statuses share one. */
  lemma ToggleMessagesDistinct(a: TaskStatus, b: TaskStatus)
    ensures ToggleMessage(a) == ToggleMessage(b) <==> a == b
  {
  }

  /** The task `complete_task` stores: finished at `now`, with the award computed from the
      statistics before the completion and the first average recorded for its difficulty. */
  function CompletedWithPoints(t: Task, stats: UserStats, avgTimes: seq<(int, real)>, now: Timestamp): (r: Task)
    requires t.status != Completed
    ensures r.status == Completed && r.completedAt == Some(now) && r.id == t.id
    ensures r.pointsEarned == TaskPoints(Finished(t, now), stats, LookupAverage(avgTimes, t.difficulty))
    ensures r.pointsEarned >= Base(t) / 2
    ensures r == Finished(t, now).(pointsEarned := r.pointsEarned)
  {
    var finished := Finished(t, now);
    finished.(pointsEarned := TaskPoints(finished, stats, LookupAverage(avgTimes, finished.difficulty)))
  }

  class App {
    var tasks: seq<Task>
    var table: seq<Task>
    var nextId: int
    var storedStats: UserStats
    var userStats: UserStats
    var inputMode: InputMode
    var inputFocus: InputFocus
    var selectedTaskIndex: nat
    var showCompleted: bool
    var inputBuffer: string
    var difficultyInput: string
    var statusMessage: Option<string>
    var editingTaskId: Option<int>

    /** The schema's difficulty CHECK holds for every stored row and every listed task, every
        row id lies below the next AUTOINCREMENT id, and the difficulty field holds at most two
        digits. */
    predicate Valid()
      reads this
    {
      && TableValid(table) && TableValid(tasks)
      && (forall t <- table :: t.id < nextId)
      && DifficultyField(difficultyInput)
    }

    /** `App::new`: every stored task is listed (completed ones too, although `showCompleted`
        starts false), the statistics are the stored ones, and the form is empty. */
    constructor (rows: seq<Task>, stats: UserStats, nextRowId: int)
      requires TableValid(rows) && forall t <- rows :: t.id < nextRowId
      ensures Valid()
      ensures table == rows && tasks == rows && nextId == nextRowId
      ensures userStats == stats && storedStats == stats
      ensures inputMode == Normal && inputFocus == Title && selectedTaskIndex == 0
      ensures !showCompleted && inputBuffer == [] && difficultyInput == []
      ensures statusMessage == None && editingTaskId == None
    {
      table := rows;
      tasks := rows;
      nextId := nextRowId;
      storedStats := stats;
      userStats := stats;
      inputMode := Normal;
      inputFocus := Title;
      selectedTaskIndex := 0;
      showCompleted := false;
      inputBuffer := [];
      difficultyInput := [];
      statusMessage := None;
      editingTaskId := None;
    }

    /** `refresh_tasks`: the list is reloaded from the table, with or without the completed
        tasks. */
    method RefreshTasks()
      requires Valid()
      modifies this`tasks
      ensures Valid()
      ensures tasks == Listing(table, showCompleted)
    {
      tasks := if showCompleted then table else PendingListing(table);
    }

    /** `refresh_stats`: the statistics are reloaded from their stored row. */
    method RefreshStats()
      modifies this`userStats
      ensures userStats == storedStats
    {
      userStats := storedStats;
    }

    /** `self.tasks[i] = task` followed by `db.update_task(&task)`: the task replaces the
        listed one at `i` and rewrites every row with its id. */
    method ReplaceTask(i: nat, task: Task)
      requires Valid() && i < |tasks| && task.id == tasks[i].id && ValidDifficulty(task.difficulty)
      modifies this`tasks, this`table
      ensures Valid()
      ensures tasks == old(tasks)[i := task]
      ensures table == UpdateRow(old(table), task)
    {
      assert tasks[i] in tasks;
      tasks := tasks[i := task];
      assert forall t <- tasks :: t == task || t in old(tasks);
      UpdateRowKeepsIdsBelow(table, task, nextId);
      table := UpdateRow(table, task);
    }

    /** `move_selection_up`: one row up, never below the first. */
    method MoveSelectionUp()
      modifies this`selectedTaskIndex
      ensures old(selectedTaskIndex) > 0 ==> selectedTaskIndex == old(selectedTaskIndex) - 1
      ensures old(selectedTaskIndex) == 0 ==> selectedTaskIndex == 0
    {
      if selectedTaskIndex > 0 {
        selectedTaskIndex := selectedTaskIndex - 1;
      }
    }

    /** `move_selection_down`: one row down, never past the last listed task; a selection
        already beyond the list stays where it is. */
    method MoveSelectionDown()
      modifies this`selectedTaskIndex
      ensures old(selectedTaskIndex) + 1 < |tasks| ==> selectedTaskIndex == old(selectedTaskIndex) + 1
      ensures old(selectedTaskIndex) + 1 >= |tasks| ==> selectedTaskIndex == old(selectedTaskIndex)
      ensures old(selectedTaskIndex) < |tasks| ==> selectedTaskIndex < |tasks|
    {
      var maxIndex := if |tasks| > 0 then |tasks| - 1 else 0;
      if selectedTaskIndex < maxIndex {
        selectedTaskIndex := selectedTaskIndex + 1;
      }
    }

    /** `start_add_task`: an empty title, focus on it, and difficulty 5 pre-filled. */
    method StartAddTask()
      requires Valid()
      modifies this`inputMode, this`inputFocus, this`inputBuffer, this`difficultyInput
      ensures Valid()
      ensures inputMode == AddingTask && inputFocus == Title
      ensures inputBuffer == [] && difficultyInput == "5"
    {
      inputMode := AddingTask;
      inputFocus := Title;
      inputBuffer := [];
      difficultyInput := "5";
    }

    /** `start_edit_task`: with a task selected, the form is filled with its title and
        difficulty and remembers its id; with none selected nothing happens. */
    method StartEditTask()
      requires Valid()
      modifies this`inputMode, this`inputFocus, this`inputBuffer, this`difficultyInput, this`editingTaskId
      ensures Valid()
      ensures selectedTaskIndex < |tasks| ==>
        && inputMode == EditingTask && inputFocus == Title
        && inputBuffer == tasks[selectedTaskIndex].title
        && difficultyInput == DecimalString(tasks[selectedTaskIndex].difficulty)
        && editingTaskId == Some(tasks[selectedTaskIndex].id)
        && ParsedDifficulty(difficultyInput) == tasks[selectedTaskIndex].difficulty
      ensures selectedTaskIndex >= |tasks| ==>
        && inputMode == old(inputMode) && inputFocus == old(inputFocus) && inputBuffer == old(inputBuffer)
        && difficultyInput == old(difficultyInput) && editingTaskId == old(editingTaskId)
    {
      if selectedTaskIndex < |tasks| {
        var task := tasks[selectedTaskIndex];
        assert task in tasks;
        DecimalDifficultyFits(task.difficulty);
        EditKeepsDifficulty(task.difficulty);
        inputMode := EditingTask;
        inputFocus := Title;
        inputBuffer := task.title;
        difficultyInput := DecimalString(task.difficulty);
        editingTaskId := Some(task.id);
      }
    }

    /** `cancel_input`: back to normal mode with an empty form. */
    method CancelInput()
      requires Valid()
      modifies this`inputMode, this`inputFocus, this`inputBuffer, this`difficultyInput, this`editingTaskId
      ensures Valid()
      ensures inputMode == Normal && inputFocus == Title
      ensures inputBuffer == [] && difficultyInput == [] && editingTaskId == None
    {
      inputMode := Normal;
      inputFocus := Title;
      inputBuffer := [];
      difficultyInput := [];
      editingTaskId := None;
    }

    /** `toggle_input_focus`. */
    method ToggleInputFocus()
      modifies this`inputFocus
      ensures inputFocus == Flipped(old(inputFocus))
    {
      match inputFocus
      case Title => inputFocus := Difficulty;
      case Difficulty => inputFocus := Title;
    }

    /** `handle_input_char`: the title takes any character; the difficulty field takes a
        digit only while it holds fewer than two. */
    method HandleInputChar(c: char)
      requires Valid()
      modifies this`inputBuffer, this`difficultyInput
      ensures Valid()
      ensures inputFocus == Title ==> inputBuffer == old(inputBuffer) + [c] && difficultyInput == old(difficultyInput)
      ensures inputFocus == Difficulty ==> inputBuffer == old(inputBuffer)
      ensures inputFocus == Difficulty && IsDigit(c) && |old(difficultyInput)| < 2 ==>
                difficultyInput == old(difficultyInput) + [c]
      ensures inputFocus == Difficulty && !(IsDigit(c) && |old(difficultyInput)| < 2) ==>
                difficultyInput == old(difficultyInput)
    {
      match inputFocus
      case Title =>
        inputBuffer := inputBuffer + [c];
      case Difficulty =>
        if IsDigit(c) && |difficultyInput| < 2 {
          difficultyInput := difficultyInput + [c];
        }
    }

    /** `handle_input_backspace`: drops the last character of the focused field, if any. */
    method HandleInputBackspace()
      requires Valid()
      modifies this`inputBuffer, this`difficultyInput
      ensures Valid()
      ensures inputFocus == Title ==>
        && difficultyInput == old(difficultyInput)
        && inputBuffer == if old(inputBuffer) == [] then [] else old(inputBuffer)[..|old(inputBuffer)| - 1]
      ensures inputFocus == Difficulty ==>
        && inputBuffer == old(inputBuffer)
        && difficultyInput == if old(difficultyInput) == [] then [] else old(difficultyInput)[..|old(difficultyInput)| - 1]
    {
      match inputFocus
      case Title =>
        if inputBuffer != [] {
          inputBuffer := inputBuffer[..|inputBuffer| - 1];
        }
      case Difficulty =>
        if difficultyInput != [] {
          difficultyInput := difficultyInput[..|difficultyInput| - 1];
        }
    }

    /** The AddingTask arm of `submit_task`: the store creates the row (newest first, with the
        next id) and the list is reloaded. */
    method AddTask(title: string, difficulty: int, now: Timestamp)
      requires Valid() && ValidDifficulty(difficulty)
      modifies this`tasks, this`table, this`nextId, this`statusMessage
      ensures Valid()
      ensures table == [NewTask(old(nextId), title, difficulty, now)] + old(table)
      ensures nextId == old(nextId) + 1
      ensures tasks == Listing(table, showCompleted)
      ensures statusMessage == Some("Task '" + title + "' added!")
      ensures NewestFirst(old(table)) && (forall u <- old(table) :: u.createdAt <= now) ==>
        NewestFirst(table) && NewestFirst(tasks)
    {
      if NewestFirst(table) && forall u <- table :: u.createdAt <= now {
        NewRowKeepsNewestFirst(table, NewTask(nextId, title, difficulty, now));
      }
      var task := NewTask(nextId, title, difficulty, now);
      table := [task] + table;
      nextId := nextId + 1;
      statusMessage := Some("Task '" + task.title + "' added!");
      RefreshTasks();
    }

    /** The EditingTask arm of `submit_task`: the first listed task with the edited id takes the
        new title and difficulty, in the list and in its row; with no such task nothing changes. */
    method EditTask(id: int, title: string, difficulty: int)
      requires Valid() && ValidDifficulty(difficulty)
      modifies this`tasks, this`table, this`statusMessage
      ensures Valid()
      ensures FirstWithId(old(tasks), id).Some? ==>
        var i := FirstWithId(old(tasks), id).value;
        var edited := old(tasks)[i].(title := title, difficulty := difficulty);
        && tasks == old(tasks)[i := edited] && table == UpdateRow(old(table), edited)
        && statusMessage == Some("Task '" + title + "' updated!")
      ensures FirstWithId(old(tasks), id).None? ==>
        tasks == old(tasks) && table == old(table) && statusMessage == old(statusMessage)
    {
      var found := FirstWithId(tasks, id);
      if found.Some? {
        var i := found.value;
        var task := tasks[i];
        task := task.(title := title);
        task := task.(difficulty := difficulty);
        ReplaceTask(i, task);
        statusMessage := Some("Task '" + title + "' updated!");
      }
    }

    /** `submit_task`. A blank title only sets an error message. Otherwise the trimmed title and
        the parsed, clamped difficulty either create a new row or edit the task being edited
        (see `AddTask` and `EditTask`), and in every such case the form is reset. */
    method SubmitTask(now: Timestamp)
      requires Valid()
      modifies this`tasks, this`table, this`nextId, this`statusMessage
      modifies this`inputMode, this`inputFocus, this`inputBuffer, this`difficultyInput, this`editingTaskId
      ensures Valid()
      ensures Trim(old(inputBuffer)) == [] ==>
        && statusMessage == Some("Task title cannot be empty")
        && tasks == old(tasks) && table == old(table) && nextId == old(nextId)
        && inputMode == old(inputMode) && inputFocus == old(inputFocus) && inputBuffer == old(inputBuffer)
        && difficultyInput == old(difficultyInput) && editingTaskId == old(editingTaskId)
      ensures Trim(old(inputBuffer)) != [] ==>
        && inputMode == Normal && inputFocus == Title
        && inputBuffer == [] && difficultyInput == [] && editingTaskId == None
      ensures Trim(old(inputBuffer)) != [] && old(inputMode) == AddingTask ==>
        var title := Trim(old(inputBuffer));
        && table == [NewTask(old(nextId), title, ParsedDifficulty(old(difficultyInput)), now)] + old(table)
        && nextId == old(nextId) + 1
        && tasks == Listing(table, showCompleted)
        && statusMessage == Some("Task '" + title + "' added!")
      ensures Trim(old(inputBuffer)) != [] && old(inputMode) == EditingTask && old(editingTaskId).Some?
              && FirstWithId(old(tasks), old(editingTaskId).value).Some? ==>
        var title := Trim(old(inputBuffer));
        var i := FirstWithId(old(tasks), old(editingTaskId).value).value;
        var edited := old(tasks)[i].(title := title, difficulty := ParsedDifficulty(old(difficultyInput)));
        && tasks == old(tasks)[i := edited] && table == UpdateRow(old(table), edited)
        && nextId == old(nextId)
        && statusMessage == Some("Task '" + title + "' updated!")
      ensures Trim(old(inputBuffer)) != [] && old(inputMode) != AddingTask
              && !(old(inputMode) == EditingTask && old(editingTaskId).Some?
                   && FirstWithId(old(tasks), old(editingTaskId).value).Some?) ==>
        tasks == old(tasks) && table == old(table) && nextId == old(nextId) && statusMessage == old(statusMessage)
    {
      var title := Trim(inputBuffer);
      if title == [] {
        statusMessage := Some("Task title cannot be empty");
        return;
      }
      var difficulty := ParsedDifficulty(difficultyInput);
      match inputMode {
        case AddingTask =>
          AddTask(title, difficulty, now);
        case EditingTask =>
          if editingTaskId.Some? {
            EditTask(editingTaskId.value, title, difficulty);
          }
        case Normal =>
      }
      CancelInput();
    }

    /** `delete_selected_task`: removes the selected task's row, reports its title, reloads the
        list and pulls the selection back onto the list if it fell off the end. */
    method DeleteSelectedTask()
      requires Valid()
      modifies this`tasks, this`table, this`statusMessage, this`selectedTaskIndex
      ensures Valid()
      ensures old(selectedTaskIndex) >= |old(tasks)| ==>
        tasks == old(tasks) && table == old(table) && statusMessage == old(statusMessage)
        && selectedTaskIndex == old(selectedTaskIndex)
      ensures old(selectedTaskIndex) < |old(tasks)| ==>
        var gone := old(tasks)[old(selectedTaskIndex)];
        && table == DeleteRow(old(table), gone.id)
        && (forall t <- table :: t.id != gone.id)
        && tasks == Listing(table, showCompleted)
        && statusMessage == Some("Task '" + gone.title + "' deleted")
        && selectedTaskIndex == (if old(selectedTaskIndex) >= |tasks| && |tasks| > 0 then |tasks| - 1
                                 else old(selectedTaskIndex))
      ensures old(selectedTaskIndex) < |old(tasks)| && |tasks| > 0 ==> selectedTaskIndex < |tasks|
    {
      if selectedTaskIndex < |tasks| {
        var task := tasks[selectedTaskIndex];
        table := DeleteRow(table, task.id);
        statusMessage := Some("Task '" + task.title + "' deleted");
        RefreshTasks();
        if selectedTaskIndex >= |tasks| && |tasks| > 0 {
          selectedTaskIndex := |tasks| - 1;
        }
      }
    }

    /** `toggle_task`: the selected task takes its next state (see `Toggled`) in the list and in
        its row, with a status line naming the transition; a selection past the list or a
        Completed task leaves everything as it was. */
    method ToggleTask(now: Timestamp)
      requires Valid()
      modifies this`tasks, this`table, this`statusMessage
      ensures Valid()
      ensures old(selectedTaskIndex) >= |old(tasks)| || old(tasks)[selectedTaskIndex].status == Completed ==>
        tasks == old(tasks) && table == old(table) && statusMessage == old(statusMessage)
      ensures selectedTaskIndex < |old(tasks)| && old(tasks)[selectedTaskIndex].status != Completed ==>
        var toggled := Toggled(old(tasks)[selectedTaskIndex], now);
        && tasks == old(tasks)[selectedTaskIndex := toggled]
        && table == UpdateRow(old(table), toggled)
        && statusMessage == Some(ToggleMessage(old(tasks)[selectedTaskIndex].status))
    {
      if selectedTaskIndex >= |tasks| {
        return;
      }
      var task := tasks[selectedTaskIndex];
      if task.status == Completed {
        return;
      }
      var toggled, message := ToggleStep(task, now);
      ReplaceTask(selectedTaskIndex, toggled);
      statusMessage := Some(message);
    }

    /** The `match task.status` of `toggle_task` for a task that is not Completed: the task's
        next state and the status line for the transition. */
    static method ToggleStep(task: Task, now: Timestamp) returns (toggled: Task, message: string)
      requires task.status != Completed
      ensures toggled == Toggled(task, now)
      ensures message == ToggleMessage(task.status)
    {
      toggled := task;
      match task.status {
        case Pending =>
          toggled := toggled.(status := InProgress);
          toggled := toggled.(startedAt := Some(now));
          message := "Task started!";
        case InProgress =>
          toggled := toggled.(status := Paused);
          toggled := toggled.(pausedAt := Some(now));
          message := "Task paused";
        case Paused =>
          if toggled.pausedAt.Some? {
            var pauseDuration := now - toggled.pausedAt.value;
            toggled := toggled.(totalPauseDuration := toggled.totalPauseDuration + pauseDuration);
          }
          toggled := toggled.(status := InProgress);
          toggled := toggled.(pausedAt := None);
          message := "Task resumed!";
      }
    }

    /** The completion steps of `complete_task` on one task: a pending pause is folded into the
        total, then the task is marked Completed at `now`. */
    static method FinishTask(t: Task, now: Timestamp) returns (r: Task)
      requires t.status != Completed
      ensures r == Finished(t, now)
    {
      r := t;
      if r.status == Paused {
        if r.pausedAt.Some? {
          var pauseDuration := now - r.pausedAt.value;
          r := r.(totalPauseDuration := r.totalPauseDuration + pauseDuration);
        }
      }
      r := r.(status := Completed);
      r := r.(completedAt := Some(now));
    }

    /** The bookkeeping of `complete_task` once the task is finished and awarded: the statistics
        take the completion, the task row and the statistics row are stored, the list and the
        statistics are reloaded, and the selection is pulled back onto the list when completed
        tasks are hidden. */
    method RecordCompletion(done: Task, now: Timestamp)
      requires Valid() && selectedTaskIndex < |tasks| && done.id == tasks[selectedTaskIndex].id
      requires ValidDifficulty(done.difficulty)
      modifies this`tasks, this`table, this`userStats, this`storedStats, this`statusMessage, this`selectedTaskIndex
      ensures Valid()
      ensures table == UpdateRow(old(table), done)
      ensures userStats == StatsAfterCompletion(old(userStats), done, done.pointsEarned, now)
      ensures storedStats == userStats
      ensures tasks == Listing(table, showCompleted)
      ensures statusMessage == Some("Task completed! +" + DecimalString(done.pointsEarned) + " points")
      ensures selectedTaskIndex == (if !showCompleted && old(selectedTaskIndex) >= |tasks| && |tasks| > 0
                                    then |tasks| - 1 else old(selectedTaskIndex))
    {
      SaveCompletion(done, now);
      ReloadAfterCompletion(done.pointsEarned);
    }

    /** The writes of `complete_task`: the statistics take the completion, the task replaces
        the selected one in the list and in its row, and the statistics row is stored. */
    method SaveCompletion(done: Task, now: Timestamp)
      requires Valid() && selectedTaskIndex < |tasks| && done.id == tasks[selectedTaskIndex].id
      requires ValidDifficulty(done.difficulty)
      modifies this`tasks, this`table, this`userStats, this`storedStats
      ensures Valid()
      ensures tasks == old(tasks)[old(selectedTaskIndex) := done]
      ensures table == UpdateRow(old(table), done)
      ensures userStats == StatsAfterCompletion(old(userStats), done, done.pointsEarned, now)
      ensures storedStats == userStats
    {
      var points := done.pointsEarned;
      userStats := UpdateStatsOnCompletion(userStats, done, points, now);
      ReplaceTask(selectedTaskIndex, done);
      storedStats := userStats;
    }

    /** The reloads of `complete_task`: the award is reported, the list and the statistics
        are reloaded, and the selection is pulled back onto the list when completed tasks are
        hidden. */
    method ReloadAfterCompletion(points: int)
      requires Valid()
      modifies this`tasks, this`userStats, this`statusMessage, this`selectedTaskIndex
      ensures Valid()
      ensures statusMessage == Some("Task completed! +" + DecimalString(points) + " points")
      ensures tasks == Listing(table, showCompleted)
      ensures userStats == storedStats
      ensures selectedTaskIndex == (if !showCompleted && old(selectedTaskIndex) >= |tasks| && |tasks| > 0
                                    then |tasks| - 1 else old(selectedTaskIndex))
    {
      statusMessage := Some("Task completed! +" + DecimalString(points) + " points");
      RefreshTasks();
      RefreshStats();
      if !showCompleted && selectedTaskIndex >= |tasks| && |tasks| > 0 {
        selectedTaskIndex := |tasks| - 1;
      }
    }

    /** `complete_task`: a Completed selection only gets "Task already completed!". Otherwise
        the selected task is finished at `now` (folding a pending pause) and awarded points from
        the statistics as they were, with the first average recorded for its difficulty; then
        `RecordCompletion` stores it. */
    method CompleteTask(now: Timestamp, avgTimes: seq<(int, real)>)
      requires Valid()
      modifies this`tasks, this`table, this`userStats, this`storedStats, this`statusMessage, this`selectedTaskIndex
      ensures Valid()
      ensures old(selectedTaskIndex) >= |old(tasks)| ==>
        tasks == old(tasks) && table == old(table) && userStats == old(userStats)
        && storedStats == old(storedStats) && statusMessage == old(statusMessage)
      ensures old(selectedTaskIndex) < |old(tasks)| && old(tasks)[old(selectedTaskIndex)].status == Completed ==>
        tasks == old(tasks) && table == old(table) && userStats == old(userStats)
        && storedStats == old(storedStats) && statusMessage == Some("Task already completed!")
      ensures old(selectedTaskIndex) >= |old(tasks)| || old(tasks)[old(selectedTaskIndex)].status == Completed ==>
        selectedTaskIndex == old(selectedTaskIndex)
      ensures old(selectedTaskIndex) < |old(tasks)| && old(tasks)[old(selectedTaskIndex)].status != Completed ==>
        var done := CompletedWithPoints(old(tasks)[old(selectedTaskIndex)], old(userStats), avgTimes, now);
        && table == UpdateRow(old(table), done)
        && userStats == StatsAfterCompletion(old(userStats), done, done.pointsEarned, now)
        && storedStats == userStats
        && tasks == Listing(table, showCompleted)
        && statusMessage == Some("Task completed! +" + DecimalString(done.pointsEarned) + " points")
        && selectedTaskIndex == (if !showCompleted && old(selectedTaskIndex) >= |tasks| && |tasks| > 0
                                 then |tasks| - 1 else old(selectedTaskIndex))
      ensures StatsValid(old(userStats)) ==> StatsValid(userStats)
    {
      if selectedTaskIndex >= |tasks| {
        return;
      }
      var task := tasks[selectedTaskIndex];
      if task.status == Completed {
        statusMessage := Some("Task already completed!");
        return;
      }
      assert task in tasks;
      var finished := FinishTask(task, now);
      var avgTime := LookupAverage(avgTimes, finished.difficulty);
      var points := TaskPoints(finished, userStats, avgTime);
      var done := finished.(pointsEarned := points);
      assert done == CompletedWithPoints(task, userStats, avgTimes, now);
      RecordCompletion(done, now);
    }

    /** `toggle_completed_view`: flips whether completed tasks are listed, reloads the list and
        selects its first row. */
    method ToggleCompletedView()
      requires Valid()
      modifies this`showCompleted, this`tasks, this`selectedTaskIndex
      ensures Valid()
      ensures showCompleted == !old(showCompleted)
      ensures tasks == Listing(table, showCompleted)
      ensures selectedTaskIndex == 0
    {
      showCompleted := !showCompleted;
      RefreshTasks();
      selectedTaskIndex := 0;
    }
  }
}
