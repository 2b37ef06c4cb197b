/**
 * `Database`: the store object the bot's handlers share. Its tables are
 * fields that the methods reassign; `nextTaskId` and `nextResultId` stand
 * for SQLite's AUTOINCREMENT counters. "Today" and the day of the year are
 * parameters instead of `CURRENT_DATE` and the clock.
 */
module Store {
  import opened Wrappers
  import opened Tables
  import Schedule

  /** Some task has this id. */
  predicate HasTask(tasks: seq<Task>, id: nat) {
    exists k :: 0 <= k < |tasks| && tasks[k].id == id
  }

  /** The result row with that id, if any. */
  function FindResult(rows: seq<ResultRow>, id: nat): (r: Option<ResultRow>)
    ensures r.Some? ==> r.value in rows && r.value.id == id
    ensures r.None? ==> forall k :: 0 <= k < |rows| ==> rows[k].id != id
  {
    if rows == [] then None
    else if rows[0].id == id then Some(rows[0])
    else FindResult(rows[1..], id)
  }

  /** Task ids are positive, increasing, and below the next id to hand out. */
  ghost predicate TasksKeyed(tasks: seq<Task>, next: nat) {
    0 < next &&
    (forall k :: 0 <= k < |tasks| ==> 0 < tasks[k].id < next) &&
    (forall i, j :: 0 <= i < j < |tasks| ==> tasks[i].id < tasks[j].id)
  }

  /** Result ids are positive, increasing, below the next id, and every row's task exists. */
  ghost predicate RowsKeyed(rows: seq<ResultRow>, next: nat, tasks: seq<Task>) {
    0 < next &&
    (forall k :: 0 <= k < |rows| ==> 0 < rows[k].id < next) &&
    (forall i, j :: 0 <= i < j < |rows| ==> rows[i].id < rows[j].id) &&
    (forall k :: 0 <= k < |rows| ==> HasTask(tasks, rows[k].taskId))
  }

  lemma RowsKeyedAppend(rows: seq<ResultRow>, next: nat, tasks: seq<Task>, row: ResultRow)
    requires RowsKeyed(rows, next, tasks) && row.id == next && HasTask(tasks, row.taskId)
    ensures RowsKeyed(rows + [row], next + 1, tasks)
  {
  }

  /** The row a slot inserts: one Pending row dated today for a pick, none otherwise. */
  function NewRow(c: Option<Task>, userId: int, today: Date, id: nat): seq<ResultRow> {
    match c
    case Some(t) => [ResultRow(id, userId, t.id, Pending, None, today)]
    case None => []
  }

  lemma SelectionAppend(before: seq<ResultRow>, chosen: seq<Option<Task>>, c: Option<Task>,
      userId: int, today: Date, firstId: nat)
    ensures before + PendingRows(Picks(chosen + [c]), userId, today, firstId) ==
      before + PendingRows(Picks(chosen), userId, today, firstId) + NewRow(c, userId, today, firstId + |Picks(chosen)|)
    ensures |Picks(chosen + [c])| == |Picks(chosen)| + |NewRow(c, userId, today, firstId + |Picks(chosen)|)|
    ensures FreshItems(Picks(chosen + [c])) ==
      FreshItems(Picks(chosen)) + (match c case Some(t) => [ItemOf(t, false)] case None => [])
  {
    PicksAppend(chosen, c);
    var picks := Picks(chosen);
    match c
    case Some(t) =>
      PendingRowsAppend(picks, t, userId, today, firstId);
      FreshItemsAppend(picks, t);
    case None =>
      assert picks + [] == picks;
  }

  /** A slot drawn against the rows inserted so far is a slot drawn against the rows before the selection. */
  lemma SlotOkDuringSelection(chosen: seq<Option<Task>>, lines: seq<int>, userId: int, today: Date,
      tasks: seq<Task>, before: seq<ResultRow>, firstId: nat, c: Option<Task>)
    requires |chosen| < |lines| && Distinct(lines) && TaskIdsUnique(tasks)
    requires forall k :: 0 <= k < |chosen| ==> SlotOk(chosen[k], lines[k], userId, tasks, before)
    requires SlotOk(c, lines[|chosen|], userId, tasks, before + PendingRows(Picks(chosen), userId, today, firstId))
    ensures SlotOk(c, lines[|chosen|], userId, tasks, before)
  {
    forall t | t in tasks
      ensures Eligible(t, lines[|chosen|], userId, before + PendingRows(Picks(chosen), userId, today, firstId))
          <==> Eligible(t, lines[|chosen|], userId, before)
    {
      EligibleDuringSelection(chosen, lines, userId, today, tasks, before, firstId, t);
    }
  }

  lemma SlotsAppend(chosen: seq<Option<Task>>, c: Option<Task>, lines: seq<int>, userId: int,
      tasks: seq<Task>, before: seq<ResultRow>)
    requires |chosen| < |lines|
    requires forall k :: 0 <= k < |chosen| ==> SlotOk(chosen[k], lines[k], userId, tasks, before)
    requires SlotOk(c, lines[|chosen|], userId, tasks, before)
    ensures forall k :: 0 <= k <= |chosen| ==> SlotOk((chosen + [c])[k], lines[k], userId, tasks, before)
  {
    forall k | 0 <= k <= |chosen| ensures SlotOk((chosen + [c])[k], lines[k], userId, tasks, before) {
      if k < |chosen| {
        assert (chosen + [c])[k] == chosen[k];
      }
    }
  }

  lemma PendingRowsAppend(picks: seq<Task>, t: Task, userId: int, today: Date, firstId: nat)
    ensures PendingRows(picks + [t], userId, today, firstId) ==
      PendingRows(picks, userId, today, firstId) + [ResultRow(firstId + |picks|, userId, t.id, Pending, None, today)]
  {
  }

  lemma FreshItemsAppend(picks: seq<Task>, t: Task)
    ensures FreshItems(picks + [t]) == FreshItems(picks) + [ItemOf(t, false)]
  {
  }

  class Database {
    var users: seq<User>
    var tasks: seq<Task>
    var results: seq<ResultRow>
    var nextTaskId: nat
    var nextResultId: nat

    /** Primary keys are unique (AUTOINCREMENT hands them out in increasing order), every
        result row refers to an existing task, and no user has two rows for one task. */
    ghost predicate Valid()
      reads this
    {
      KeysValid() && UniquePairs(results)
    }

    ghost predicate KeysValid()
      reads this
    {
      UserIdsUnique(users) && TasksKeyed(tasks, nextTaskId) && RowsKeyed(results, nextResultId, tasks)
    }

    constructor ()
      ensures Valid()
      ensures users == [] && tasks == [] && results == []
    {
      users, tasks, results := [], [], [];
      nextTaskId, nextResultId := 1, 1;
    }

    /** `add_user`: insert a learner. An id that is already registered violates the primary
        key; the insert is then refused and the table is unchanged. */
    method AddUser(userId: int, username: Option<string>, fullName: string) returns (ok: bool)
      requires Valid()
      modifies this`users
      ensures Valid()
      ensures ok <==> !UserKnown(old(users), userId)
      ensures users == if ok then old(users) + [User(userId, username, fullName)] else old(users)
    {
      ok := !UserKnown(users, userId);
      if ok {
        users := users + [User(userId, username, fullName)];
      }
    }

    /** The insert of a scraped task: a fresh AUTOINCREMENT id, `is_active` at its default 1. */
    method AddTask(line: int, question: string, options: Option<string>, content: Option<string>,
                   answer: string) returns (id: nat)
      requires Valid()
      modifies this`tasks, this`nextTaskId
      ensures Valid()
      ensures id == old(nextTaskId) && nextTaskId == id + 1
      ensures tasks == old(tasks) + [Task(id, line, question, options, content, answer, true)]
    {
      id := nextTaskId;
      tasks := tasks + [Task(id, line, question, options, content, answer, true)];
      nextTaskId := nextTaskId + 1;
      forall k | 0 <= k < |results| ensures HasTask(tasks, results[k].taskId) {
        assert HasTask(old(tasks), results[k].taskId);
        var m :| 0 <= m < |old(tasks)| && old(tasks)[m].id == results[k].taskId;
        assert tasks[m] == old(tasks)[m];
      }
    }

    /** `check_today_completed`: five or more of the user's rows are dated today, whatever their status. */
    function CheckTodayCompleted(userId: int, today: Date): (done: bool)
      reads this
      ensures done <==> |TodayPositions(results, userId, today)| >= 5
    {
      CountToday(results, userId, today) >= 5
    }

    /** `get_correct_answer`: the accepted-answer spec of an existing task (the source fails on
        a missing one). */
    function GetCorrectAnswer(taskId: nat): (answer: string)
      reads this
      requires HasTask(tasks, taskId)
      ensures exists k :: 0 <= k < |tasks| && tasks[k].id == taskId && answer == tasks[k].answer
    {
      match FindTask(tasks, taskId)
      case Some(t) => t.answer
    }

    /** `get_daily_stats`: one entry per row of the user dated today (the join loses none, since
        every row's task exists), in row order. */
    function GetDailyStats(userId: int, today: Date): (stats: seq<StatRow>)
      reads this
      requires Valid()
      ensures |stats| == CountToday(results, userId, today)
      ensures |stats| == |TodayIndices(results, userId, today)|
      ensures forall i :: 0 <= i < |stats| ==>
        var r := results[TodayIndices(results, userId, today)[i]];
        FindTask(tasks, r.taskId).Some? && stats[i] == StatOf(r, FindTask(tasks, r.taskId).value)
    {
      RowTasksFound(results, nextResultId, tasks);
      StatsMatchQuota(results, tasks, userId, today);
      StatsListTodaysRows(results, tasks, userId, today);
      DailyStats(results, tasks, userId, today)
    }

    /** `get_task_text_by_result_id`: the passage of the task behind a result row, if the row,
        its task and a passage all exist. */
    function GetTaskTextByResultId(resultId: nat): (text: Option<string>)
      reads this
      ensures FindResult(results, resultId).None? ==> text.None?
      ensures text.Some? ==>
        (exists r, t :: r in results && t in tasks && r.id == resultId && t.id == r.taskId && t.content == text)
      ensures FindResult(results, resultId).Some? && FindTask(tasks, FindResult(results, resultId).value.taskId).Some? ==>
        text == FindTask(tasks, FindResult(results, resultId).value.taskId).value.content
    {
      match FindResult(results, resultId)
      case None => None
      case Some(r) =>
        match FindTask(tasks, r.taskId)
        case None => None
        case Some(t) => t.content
    }

    /** `get_new_tasks_for_user`: for each of the first five lines of the day, draw one
        eligible task at random, record it as a Pending row dated today and queue it; then
        queue every debt. `chosen` records what each slot drew. */
    method GetNewTasksForUser(userId: int, dayOfYear: int, today: Date)
      returns (queue: seq<Item>, ghost chosen: seq<Option<Task>>)
      requires Valid()
      modifies this`results, this`nextResultId
      ensures Valid()
      ensures nextResultId == old(nextResultId) + |Picks(chosen)|
      ensures Selected(chosen, Schedule.TodaysLines(dayOfYear)[..5], userId, today,
                       tasks, old(results), results, old(nextResultId), queue)
    {
      var lines := Schedule.TodaysLines(dayOfYear)[..5];
      var drawn: seq<Item>;
      drawn, chosen := DrawFresh(userId, lines, today);
      var debts := Debts(userId, today);
      queue := drawn + debts;
      SelectionKeepsPairsUnique(chosen, lines, userId, today, tasks, old(results), results, old(nextResultId), queue);
    }

    /** The first block of `get_new_tasks_for_user`: one random eligible task per line, each
        recorded as a Pending row dated today. Eligibility is judged against the rows as they
        grow, which, the lines being distinct, is the same as against the rows before. */
    method DrawFresh(userId: int, lines: seq<int>, today: Date)
      returns (drawn: seq<Item>, ghost chosen: seq<Option<Task>>)
      requires KeysValid() && Distinct(lines)
      modifies this`results, this`nextResultId
      ensures KeysValid()
      ensures |chosen| == |lines|
      ensures forall j :: 0 <= j < |lines| ==> SlotOk(chosen[j], lines[j], userId, tasks, old(results))
      ensures results == old(results) + PendingRows(Picks(chosen), userId, today, old(nextResultId))
      ensures nextResultId == old(nextResultId) + |Picks(chosen)|
      ensures drawn == FreshItems(Picks(chosen))
    {
      ghost var before := results;
      ghost var firstId := nextResultId;
      drawn, chosen := [], [];
      for j := 0 to |lines|
        invariant |chosen| == j
        invariant forall k :: 0 <= k < j ==> SlotOk(chosen[k], lines[k], userId, tasks, before)
        invariant results == before + PendingRows(Picks(chosen), userId, today, firstId)
        invariant nextResultId == firstId + |Picks(chosen)|
        invariant drawn == FreshItems(Picks(chosen))
        invariant KeysValid()
      {
        var c := DrawSlot(userId, lines[j], today);
        SlotOkDuringSelection(chosen, lines, userId, today, tasks, before, firstId, c);
        SlotsAppend(chosen, c, lines, userId, tasks, before);
        SelectionAppend(before, chosen, c, userId, today, firstId);
        if c.Some? {
          drawn := drawn + [ItemOf(c.value, false)];
        }
        chosen := chosen + [c];
      }
    }

    /** One slot of the first block: a random active task of `line` the user has no row for,
        recorded as a Pending row dated today; nothing when there is none. */
    method DrawSlot(userId: int, line: int, today: Date) returns (c: Option<Task>)
      requires KeysValid()
      modifies this`results, this`nextResultId
      ensures KeysValid()
      ensures SlotOk(c, line, userId, tasks, old(results))
      ensures results == old(results) + NewRow(c, userId, today, old(nextResultId))
      ensures nextResultId == old(nextResultId) + |NewRow(c, userId, today, old(nextResultId))|
    {
      if exists k :: 0 <= k < |tasks| && Eligible(tasks[k], line, userId, results) {
        var k :| 0 <= k < |tasks| && Eligible(tasks[k], line, userId, results);
        var t := tasks[k];
        var row := ResultRow(nextResultId, userId, t.id, Pending, None, today);
        RowsKeyedAppend(results, nextResultId, tasks, row);
        results := results + [row];
        nextResultId := nextResultId + 1;
        c := Some(t);
      } else {
        forall t | t in tasks ensures !Eligible(t, line, userId, results) {
          var m :| 0 <= m < |tasks| && tasks[m] == t;
        }
        c := None;
      }
    }

    /** The second block of `get_new_tasks_for_user`: the task of every debt row of the user
        whose task is still active, in row order. */
    method Debts(userId: int, today: Date) returns (debts: seq<Item>)
      ensures debts == DebtItems(results, tasks, userId, today)
    {
      debts := [];
      for i := 0 to |results|
        invariant debts == DebtItems(results[..i], tasks, userId, today)
      {
        assert results[..i + 1][..i] == results[..i];
        debts := debts + DebtStep(results[i], tasks, userId, today);
      }
      assert results[..|results|] == results;
    }

    /** `update_task_status`: the verdict, the answer as sent and today's date on the user's
        row(s) for the task. */
    method UpdateTaskStatus(userId: int, taskId: nat, isCorrect: bool, answer: string, today: Date)
      requires Valid()
      modifies this`results
      ensures Valid()
      ensures results == Graded(old(results), userId, taskId, isCorrect, answer, today)
    {
      GradeKeepsPairsUnique(results, userId, taskId, isCorrect, answer, today);
      results := Graded(results, userId, taskId, isCorrect, answer, today);
    }

    /** `toggle_result_status`: a new status for one result row. */
    method ToggleResultStatus(resultId: nat, status: Status)
      requires Valid()
      modifies this`results
      ensures Valid()
      ensures results == WithStatus(old(results), resultId, status)
    {
      results := WithStatus(results, resultId, status);
    }

    /** `toggle_task_active_status`: retire (false) or restore (true) a task. */
    method ToggleTaskActiveStatus(taskId: nat, active: bool)
      requires Valid()
      modifies this`tasks
      ensures Valid()
      ensures tasks == WithActive(old(tasks), taskId, active)
    {
      ghost var before := tasks;
      tasks := WithActive(tasks, taskId, active);
      forall k | 0 <= k < |results| ensures HasTask(tasks, results[k].taskId) {
        assert HasTask(before, results[k].taskId);
        var m :| 0 <= m < |before| && before[m].id == results[k].taskId;
        assert tasks[m].id == before[m].id;
      }
    }
  }

  /** During the selection, a task for the current slot is eligible against the rows inserted
      so far exactly when it was eligible against the rows before the selection: every
      earlier pick is on another line, hence another task. */
  /** Every row's task is found by the lookup on `tasks`. */
  lemma RowTasksFound(rows: seq<ResultRow>, next: nat, tasks: seq<Task>)
    requires RowsKeyed(rows, next, tasks)
    ensures forall k :: 0 <= k < |rows| ==> FindTask(tasks, rows[k].taskId).Some?
  {
    forall k | 0 <= k < |rows| ensures FindTask(tasks, rows[k].taskId).Some? {
      assert HasTask(tasks, rows[k].taskId);
    }
  }

  /** The report's passage for a stored result row is the passage of the task that row was
      created for: the lookup by result id finds that row, and the row's task exists. */
  lemma TextOfRow(db: Database, k: int)
    requires db.Valid() && 0 <= k < |db.results|
    ensures var r := db.results[k];
      FindTask(db.tasks, r.taskId).Some? &&
      db.GetTaskTextByResultId(r.id) == FindTask(db.tasks, r.taskId).value.content
  {
    FindResultAt(db.results, k);
    assert HasTask(db.tasks, db.results[k].taskId);
  }

  /** With strictly increasing ids, looking a row up by its own id finds that row. */
  lemma {:induction false} FindResultAt(rows: seq<ResultRow>, k: int)
    requires 0 <= k < |rows|
    requires forall i, j :: 0 <= i < j < |rows| ==> rows[i].id < rows[j].id
    ensures FindResult(rows, rows[k].id) == Some(rows[k])
    decreases |rows|
  {
    if k > 0 {
      assert rows[0].id < rows[k].id;
      FindResultAt(rows[1..], k - 1);
    }
  }

  lemma EligibleDuringSelection(chosen: seq<Option<Task>>, lines: seq<int>, userId: int, today: Date,
      tasks: seq<Task>, before: seq<ResultRow>, firstId: nat, t: Task)
    requires |chosen| < |lines| && Distinct(lines) && TaskIdsUnique(tasks)
    requires forall k :: 0 <= k < |chosen| ==> SlotOk(chosen[k], lines[k], userId, tasks, before)
    requires t in tasks
    ensures Eligible(t, lines[|chosen|], userId, before + PendingRows(Picks(chosen), userId, today, firstId))
        <==> Eligible(t, lines[|chosen|], userId, before)
  {
    if t.line == lines[|chosen|] {
      PickIdsAvoid(chosen, lines, userId, tasks, before, t);
      var inserted := PendingRows(Picks(chosen), userId, today, firstId);
      HasRowAppendOther(before, inserted, userId, t.id);
    }
  }

  /** No earlier pick is the task considered for the current slot. */
  lemma PickIdsAvoid(chosen: seq<Option<Task>>, lines: seq<int>, userId: int,
      tasks: seq<Task>, before: seq<ResultRow>, t: Task)
    requires |chosen| < |lines| && Distinct(lines) && TaskIdsUnique(tasks)
    requires forall k :: 0 <= k < |chosen| ==> SlotOk(chosen[k], lines[k], userId, tasks, before)
    requires t in tasks && t.line == lines[|chosen|]
    ensures forall k :: 0 <= k < |Picks(chosen)| ==> Picks(chosen)[k].id != t.id
  {
    var picks := Picks(chosen);
    forall k | 0 <= k < |picks| ensures picks[k].id != t.id {
      PicksInSlots(chosen, k);
      var j :| 0 <= j < |chosen| && chosen[j] == Some(picks[k]);
      assert SlotOk(chosen[j], lines[j], userId, tasks, before);
      assert picks[k].line == lines[j] != lines[|chosen|];
      DistinctTasksDistinctIds(tasks, picks[k], t);
    }
  }

  /** Rows for other tasks do not change whether the user has a row for this one. */
  lemma HasRowAppendOther(before: seq<ResultRow>, extra: seq<ResultRow>, userId: int, taskId: nat)
    requires forall k :: 0 <= k < |extra| ==> extra[k].taskId != taskId
    ensures HasRow(before + extra, userId, taskId) <==> HasRow(before, userId, taskId)
  {
    var rows := before + extra;
    forall m | |before| <= m < |rows| ensures rows[m].taskId != taskId {
      assert rows[m] == extra[m - |before|];
    }
    if HasRow(rows, userId, taskId) {
      var k :| 0 <= k < |rows| && rows[k].userId == userId && rows[k].taskId == taskId;
      assert before[k] == rows[k];
    }
    if HasRow(before, userId, taskId) {
      var k :| 0 <= k < |before| && before[k].userId == userId && before[k].taskId == taskId;
      assert rows[k] == before[k];
    }
  }
}
