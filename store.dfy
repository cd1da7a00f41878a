/** The parts of the SQLite store (taskquest/src/db.rs) the core depends on: the status codec,
    the shape of a freshly created task, and the `tasks` table seen as a sequence of rows,
    newest first, with the UPDATE, DELETE and pending-listing queries the app issues. */
module Store {
  import opened Models

  /** `Database::status_to_string`: the name a status is stored under. */
  function StatusToString(status: TaskStatus): (name: string)
    ensures |name| > 0
  {
    match status
    case Pending => "Pending"
    case InProgress => "InProgress"
    case Paused => "Paused"
    case Completed => "Completed"
  }

  /** `Database::parse_status`: any name it does not know reads back as Pending. */
  function ParseStatus(name: string): (status: TaskStatus)
    ensures name !in {"Pending", "InProgress", "Paused", "Completed"} ==> status == Pending
    ensures StatusToString(status) == name || status == Pending
  {
    if name == "InProgress" then InProgress
    else if name == "Paused" then Paused
    else if name == "Completed" then Completed
    else Pending
  }

  /** Storing a status and reading it back gives the same status. */
  lemma ParseStatusRoundTrip(status: TaskStatus)
    ensures ParseStatus(StatusToString(status)) == status
  {
  }

  /** The four stored names are distinct. */
  lemma StatusToStringInjective(a: TaskStatus, b: TaskStatus)
    ensures StatusToString(a) == StatusToString(b) <==> a == b
  {
  }

  /** The display label of InProgress ("In Progress") is not its stored name: reading the
      label back as a stored name gives Pending. Only the InProgress label differs. */
  lemma DisplayLabelIsNotStoredName()
    ensures ParseStatus(AsStr(InProgress)) == Pending
    ensures forall s: TaskStatus :: s != InProgress ==> AsStr(s) == StatusToString(s)
  {
  }

  /** The row `Database::create_task` returns: pending, never started, paused or
      completed, with no pause time and no points. */
  function NewTask(id: int, title: string, difficulty: int, now: Timestamp): (t: Task)
    ensures t.id == id && t.title == title && t.difficulty == difficulty && t.createdAt == now
    ensures t.status == Pending
    ensures t.startedAt == None && t.completedAt == None && t.pausedAt == None
    ensures t.totalPauseDuration == 0 && t.pointsEarned == 0
  {
    Task(id, title, difficulty, Pending, now, None, None, None, 0, 0)
  }

  /** The schema's CHECK on every stored row: difficulty lies in 1..10. */
  predicate TableValid(table: seq<Task>) {
    forall t <- table :: ValidDifficulty(t.difficulty)
  }

  /** `Database::update_task`: every row with the task's id takes all of the task's fields
      except its id and its creation time. */
  function UpdateRow(table: seq<Task>, t: Task): (r: seq<Task>)
    ensures |r| == |table|
    ensures forall i :: 0 <= i < |table| ==> r[i].id == table[i].id && r[i].createdAt == table[i].createdAt
    ensures forall i :: 0 <= i < |table| && table[i].id != t.id ==> r[i] == table[i]
    ensures forall i :: 0 <= i < |table| && table[i].id == t.id ==> r[i] == t.(createdAt := table[i].createdAt)
    ensures TableValid(table) && ValidDifficulty(t.difficulty) ==> TableValid(r)
  {
    seq(|table|, i requires 0 <= i < |table| =>
      if table[i].id == t.id then t.(createdAt := table[i].createdAt) else table[i])
  }

  /** Rewriting rows keeps every id below an AUTOINCREMENT bound that was above them all. */
  lemma UpdateRowKeepsIdsBelow(table: seq<Task>, t: Task, bound: int)
    requires forall u <- table :: u.id < bound
    ensures forall u <- UpdateRow(table, t) :: u.id < bound
  {
    var r := UpdateRow(table, t);
    forall u | u in r
      ensures u.id < bound
    {
      var i :| 0 <= i < |r| && r[i] == u;
      assert table[i] in table;
    }
  }

  /** `Database::delete_task`: removes the rows with the given id and keeps the others in order. */
  function DeleteRow(table: seq<Task>, id: int): (r: seq<Task>)
    ensures |r| <= |table|
    ensures forall t :: t in r <==> t in table && t.id != id
    ensures TableValid(table) ==> TableValid(r)
  {
    if table == [] then []
    else
      var rest := DeleteRow(table[1..], id);
      assert forall t :: t in table[1..] ==> t in table;
      if table[0].id == id then rest else [table[0]] + rest
  }

  /** `Database::get_pending_tasks`: the rows whose stored status name is one of
      'Pending', 'InProgress' or 'Paused', in table order. */
  function PendingListing(table: seq<Task>): (r: seq<Task>)
    ensures |r| <= |table|
    ensures forall t :: t in r <==> t in table && t.status != Completed
    ensures TableValid(table) ==> TableValid(r)
  {
    if table == [] then []
    else
      var rest := PendingListing(table[1..]);
      assert forall t :: t in table[1..] ==> t in table;
      if StatusToString(table[0].status) in ["Pending", "InProgress", "Paused"]
      then [table[0]] + rest
      else rest
  }

  /** The order `ORDER BY created_at DESC` lists rows in: no row is older than a later one. */
  predicate NewestFirst(table: seq<Task>) {
    forall i, j :: 0 <= i < j < |table| ==> table[i].createdAt >= table[j].createdAt
  }

  /** A row created no earlier than every stored row goes in front of a newest-first table and
      keeps it newest first: inserting in front is the SQL order while the clock does not run
      back. */
  lemma NewRowKeepsNewestFirst(table: seq<Task>, t: Task)
    requires NewestFirst(table) && forall u <- table :: u.createdAt <= t.createdAt
    ensures NewestFirst([t] + table)
  {
    var r := [t] + table;
    forall i, j | 0 <= i < j < |r|
      ensures r[i].createdAt >= r[j].createdAt
    {
      if i == 0 {
        assert r[j] == table[j - 1] && r[j] in table;
      } else {
        assert r[i] == table[i - 1] && r[j] == table[j - 1];
      }
    }
  }

  /** An UPDATE keeps every creation time, so it keeps the order. */
  lemma UpdateRowKeepsNewestFirst(table: seq<Task>, t: Task)
    requires NewestFirst(table)
    ensures NewestFirst(UpdateRow(table, t))
  {
  }

  /** A DELETE keeps the remaining rows in order. */
  lemma {:induction false} DeleteRowKeepsNewestFirst(table: seq<Task>, id: int)
    requires NewestFirst(table)
    ensures NewestFirst(DeleteRow(table, id))
    decreases |table|
  {
    if table != [] {
      var rest := DeleteRow(table[1..], id);
      DeleteRowKeepsNewestFirst(table[1..], id);
      if table[0].id != id {
        OlderTail(table[0], table[1..], rest);
      }
    }
  }

  /** The pending listing keeps the rows it lists in order. */
  lemma {:induction false} PendingListingKeepsNewestFirst(table: seq<Task>)
    requires NewestFirst(table)
    ensures NewestFirst(PendingListing(table))
    decreases |table|
  {
    if table != [] {
      var rest := PendingListing(table[1..]);
      PendingListingKeepsNewestFirst(table[1..]);
      if StatusToString(table[0].status) in ["Pending", "InProgress", "Paused"] {
        OlderTail(table[0], table[1..], rest);
      }
    }
  }

  /** A row in front of newest-first rows taken from a table it heads stays newest first. */
  lemma OlderTail(head: Task, tail: seq<Task>, rest: seq<Task>)
    requires NewestFirst([head] + tail) && NewestFirst(rest)
    requires forall u <- rest :: u in tail
    ensures NewestFirst([head] + rest)
  {
    var r := [head] + rest;
    forall i, j | 0 <= i < j < |r|
      ensures r[i].createdAt >= r[j].createdAt
    {
      if i == 0 {
        assert r[j] in rest;
        var k :| 0 <= k < |tail| && tail[k] == r[j];
        assert ([head] + tail)[0] == head && ([head] + tail)[k + 1] == tail[k];
      } else {
        assert r[i] == rest[i - 1] && r[j] == rest[j - 1];
      }
    }
  }
}
