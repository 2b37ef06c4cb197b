/**
 * The three tables of the bot's store (`users`, `tasks`, `user_results`) as
 * records, and the queries and updates of `Database` as functions of table
 * contents. Dates are day numbers; "today" is always a parameter.
 *
 * The `user_results` table has no uniqueness constraint on
 * (user_id, task_id); `UniquePairs` states the invariant that only the
 * selection's `NOT IN` filter maintains.
 */
module Tables {
  import opened Wrappers

  /** A calendar day, as stored in `assigned_date`. */
  type Date = int

  /** `user_results.status`: 0 pending, 1 correct, 2 wrong. */
  datatype Status = Pending | Correct | Incorrect {
    function Code(): int {
      match this
      case Pending => 0
      case Correct => 1
      case Incorrect => 2
    }
  }

  /** A row of `users`. */
  datatype User = User(userId: int, username: Option<string>, fullName: string)

  /** A row of `tasks`. */
  datatype Task = Task(id: nat, line: int, question: string, options: Option<string>,
                       content: Option<string>, answer: string, active: bool)

  /** A row of `user_results`. */
  datatype ResultRow = ResultRow(id: nat, userId: int, taskId: nat, status: Status,
                                 userAnswer: Option<string>, assignedDate: Date)

  /** An entry of a learner's work queue, as `get_new_tasks_for_user` builds it. */
  datatype Item = Item(id: nat, line: int, question: string, options: Option<string>,
                       text: Option<string>, isDebt: bool)

  /** A row of the `get_daily_stats` join: result id, task id, line, status, the learner's
      answer, the accepted answer and the question. */
  datatype StatRow = StatRow(resultId: nat, taskId: nat, line: int, status: Status,
                             userAnswer: Option<string>, correctAnswer: string, question: string)

  function ItemOf(t: Task, isDebt: bool): Item {
    Item(t.id, t.line, t.question, t.options, t.content, isDebt)
  }

  // ---------------------------------------------------------------------------
  // Lookups

  /** `SELECT ... FROM tasks WHERE id = ?`: the first task with that id. */
  function FindTask(tasks: seq<Task>, id: nat): (r: Option<Task>)
    ensures r.Some? ==> r.value in tasks && r.value.id == id
    ensures r.None? ==> forall k :: 0 <= k < |tasks| ==> tasks[k].id != id
  {
    if tasks == [] then None
    else if tasks[0].id == id then Some(tasks[0])
    else FindTask(tasks[1..], id)
  }

  /** `get_user_name`: the registered full name, or the placeholder "Ученик" for an unknown id. */
  function UserName(users: seq<User>, userId: int): (name: string)
    ensures (exists k :: 0 <= k < |users| && users[k].userId == userId) ==>
      exists k :: 0 <= k < |users| && users[k].userId == userId && name == users[k].fullName
    ensures (forall k :: 0 <= k < |users| ==> users[k].userId != userId) ==> name == "Ученик"
  {
    if users == [] then "Ученик"
    else if users[0].userId == userId then users[0].fullName
    else
      var name := UserName(users[1..], userId);
      assert forall k :: 1 <= k < |users| ==> users[1..][k - 1] == users[k];
      name
  }

  /** `user_exists`. */
  predicate UserKnown(users: seq<User>, userId: int) {
    exists k :: 0 <= k < |users| && users[k].userId == userId
  }

  /** No two users share an id (`users.user_id` is the primary key). */
  ghost predicate UserIdsUnique(users: seq<User>) {
    forall i, j :: 0 <= i < j < |users| ==> users[i].userId != users[j].userId
  }

  /** No two tasks share an id (`tasks.id` is the primary key). */
  ghost predicate TaskIdsUnique(tasks: seq<Task>) {
    forall i, j :: 0 <= i < j < |tasks| ==> tasks[i].id != tasks[j].id
  }

  /** The user has some row for the task: `task_id IN (SELECT task_id ... WHERE user_id = ?)`. */
  predicate HasRow(rows: seq<ResultRow>, userId: int, taskId: nat) {
    exists k :: 0 <= k < |rows| && rows[k].userId == userId && rows[k].taskId == taskId
  }

  /** At most one row per (user, task) pair. */
  ghost predicate UniquePairs(rows: seq<ResultRow>) {
    forall i, j :: 0 <= i < j < |rows| ==>
      rows[i].userId != rows[j].userId || rows[i].taskId != rows[j].taskId
  }

  // ---------------------------------------------------------------------------
  // The quota gate: COUNT(*) of the user's rows dated today

  /** Positions of the user's rows dated today, whatever their status. */
  ghost function TodayPositions(rows: seq<ResultRow>, userId: int, today: Date): set<int> {
    set k | 0 <= k < |rows| && rows[k].userId == userId && rows[k].assignedDate == today
  }

  /** `SELECT COUNT(*) FROM user_results WHERE user_id = ? AND assigned_date = today`. */
  function CountToday(rows: seq<ResultRow>, userId: int, today: Date): (n: nat)
    ensures n == |TodayPositions(rows, userId, today)|
  {
    if rows == [] then 0
    else
      var init := rows[..|rows| - 1];
      var last := rows[|rows| - 1];
      var n := CountToday(init, userId, today);
      var add := if last.userId == userId && last.assignedDate == today then 1 else 0;
      assert TodayPositions(rows, userId, today) ==
        TodayPositions(init, userId, today) + (if add == 1 then {|rows| - 1} else {});
      n + add
  }

  // ---------------------------------------------------------------------------
  // Selection: eligibility, fresh rows, debts

  /** A task the selection may draw for `line`: on that line, active, and never given to the user. */
  predicate Eligible(t: Task, line: int, userId: int, rows: seq<ResultRow>) {
    t.line == line && t.active && !HasRow(rows, userId, t.id)
  }

  /** The Pending rows inserted for the fresh picks, with consecutive AUTOINCREMENT ids. */
  function PendingRows(picks: seq<Task>, userId: int, today: Date, firstId: nat): (rows: seq<ResultRow>)
    ensures |rows| == |picks|
    ensures forall k :: 0 <= k < |picks| ==>
      rows[k] == ResultRow(firstId + k, userId, picks[k].id, Pending, None, today)
  {
    seq(|picks|, k requires 0 <= k < |picks| => ResultRow(firstId + k, userId, picks[k].id, Pending, None, today))
  }

  /** Queue entries for the fresh picks, `is_debt = False`. */
  function FreshItems(picks: seq<Task>): (items: seq<Item>)
    ensures |items| == |picks|
    ensures forall k :: 0 <= k < |picks| ==> items[k] == ItemOf(picks[k], false)
  {
    seq(|picks|, k requires 0 <= k < |picks| => ItemOf(picks[k], false))
  }

  /** The tasks picked, one per slot that found one, in slot order. */
  function Picks(chosen: seq<Option<Task>>): (picks: seq<Task>)
    ensures |picks| <= |chosen|
  {
    if chosen == [] then []
    else
      Picks(chosen[..|chosen| - 1]) +
      (match chosen[|chosen| - 1] case Some(t) => [t] case None => [])
  }

  /** A row that is a debt today: wrong, and graded on another day. */
  predicate IsDebtRow(r: ResultRow, userId: int, today: Date) {
    r.userId == userId && r.status == Incorrect && r.assignedDate != today
  }

  /** The debts query joined with `tasks`: the task of every debt row whose task is active, in row order. */
  function DebtItems(rows: seq<ResultRow>, tasks: seq<Task>, userId: int, today: Date): seq<Item> {
    if rows == [] then []
    else
      DebtItems(rows[..|rows| - 1], tasks, userId, today) + DebtStep(rows[|rows| - 1], tasks, userId, today)
  }

  /** What one row contributes to the debts. */
  function DebtStep(r: ResultRow, tasks: seq<Task>, userId: int, today: Date): seq<Item> {
    if IsDebtRow(r, userId, today) then
      match FindTask(tasks, r.taskId)
      case Some(t) => if t.active then [ItemOf(t, true)] else []
      case None => []
    else []
  }

  /** The assumed `get_pending_tasks`: the user's Pending rows dated today, joined with
      `tasks`, in row order, as queue entries that are not debts. */
  function PendingToday(rows: seq<ResultRow>, tasks: seq<Task>, userId: int, today: Date): seq<Item> {
    if rows == [] then []
    else
      var r := rows[|rows| - 1];
      PendingToday(rows[..|rows| - 1], tasks, userId, today) +
      (if r.userId == userId && r.status == Pending && r.assignedDate == today then
         match FindTask(tasks, r.taskId)
         case Some(t) => [ItemOf(t, false)]
         case None => []
       else [])
  }

  // ---------------------------------------------------------------------------
  // Daily statistics

  /** One entry of the join: the row's id, status and answer with its task's id, line,
      accepted answer and question. */
  function StatOf(r: ResultRow, t: Task): StatRow {
    StatRow(r.id, t.id, t.line, r.status, r.userAnswer, t.answer, t.question)
  }

  /** `get_daily_stats`: the user's rows dated today joined with their tasks, in row order. */
  function DailyStats(rows: seq<ResultRow>, tasks: seq<Task>, userId: int, today: Date): seq<StatRow> {
    if rows == [] then []
    else
      var r := rows[|rows| - 1];
      DailyStats(rows[..|rows| - 1], tasks, userId, today) +
      (if r.userId == userId && r.assignedDate == today then
         match FindTask(tasks, r.taskId)
         case Some(t) => [StatOf(r, t)]
         case None => []
       else [])
  }

  /** The positions of the user's rows dated today, in increasing order. */
  function TodayIndices(rows: seq<ResultRow>, userId: int, today: Date): (idx: seq<nat>)
    ensures forall i :: 0 <= i < |idx| ==>
      idx[i] < |rows| && rows[idx[i]].userId == userId && rows[idx[i]].assignedDate == today
    ensures forall i, j :: 0 <= i < j < |idx| ==> idx[i] < idx[j]
    ensures forall k :: 0 <= k < |rows| && rows[k].userId == userId && rows[k].assignedDate == today ==> k in idx
  {
    if rows == [] then []
    else
      var n := |rows| - 1;
      var init := rows[..n];
      var idx := TodayIndices(init, userId, today);
      assert forall k :: 0 <= k < n ==> init[k] == rows[k];
      idx + (if rows[n].userId == userId && rows[n].assignedDate == today then [n] else [])
  }

  // ---------------------------------------------------------------------------
  // Updates

  /** `update_task_status`: every row of (user, task) gets the verdict, the answer as sent and today's date. */
  function Graded(rows: seq<ResultRow>, userId: int, taskId: nat, isCorrect: bool,
                  answer: string, today: Date): (r: seq<ResultRow>)
    ensures |r| == |rows|
  {
    seq(|rows|, k requires 0 <= k < |rows| =>
      if rows[k].userId == userId && rows[k].taskId == taskId
      then rows[k].(status := if isCorrect then Correct else Incorrect, userAnswer := Some(answer), assignedDate := today)
      else rows[k])
  }

  /** `toggle_result_status`: `UPDATE user_results SET status = ? WHERE id = ?`. */
  function WithStatus(rows: seq<ResultRow>, resultId: nat, status: Status): (r: seq<ResultRow>)
    ensures |r| == |rows|
  {
    seq(|rows|, k requires 0 <= k < |rows| =>
      if rows[k].id == resultId then rows[k].(status := status) else rows[k])
  }

  /** `toggle_task_active_status`: `UPDATE tasks SET is_active = ? WHERE id = ?`. */
  function WithActive(tasks: seq<Task>, taskId: nat, active: bool): (r: seq<Task>)
    ensures |r| == |tasks|
  {
    seq(|tasks|, k requires 0 <= k < |tasks| =>
      if tasks[k].id == taskId then tasks[k].(active := active) else tasks[k])
  }

  // ---------------------------------------------------------------------------
  // The outcome of `get_new_tasks_for_user`

  /** What one slot of the fresh block may end with: a task eligible for the slot's line
      (judged against the rows before the selection), or nothing when no task is eligible. */
  ghost predicate SlotOk(c: Option<Task>, line: int, userId: int, tasks: seq<Task>, before: seq<ResultRow>) {
    match c
    case Some(t) => t in tasks && Eligible(t, line, userId, before)
    case None => forall t :: t in tasks ==> !Eligible(t, line, userId, before)
  }

  /** `chosen[j]` is what slot `j` (line `lines[j]`) drew; the selection inserted one Pending
      row per pick, dated today, and returned the fresh entries followed by every debt. */
  ghost predicate Selected(chosen: seq<Option<Task>>, lines: seq<int>, userId: int, today: Date,
                           tasks: seq<Task>, before: seq<ResultRow>, after: seq<ResultRow>,
                           firstId: nat, queue: seq<Item>) {
    |chosen| == |lines| &&
    (forall j :: 0 <= j < |lines| ==> SlotOk(chosen[j], lines[j], userId, tasks, before)) &&
    after == before + PendingRows(Picks(chosen), userId, today, firstId) &&
    queue == FreshItems(Picks(chosen)) + DebtItems(after, tasks, userId, today)
  }

  ghost predicate Distinct(lines: seq<int>) {
    forall i, j :: 0 <= i < j < |lines| ==> lines[i] != lines[j]
  }

  lemma PicksAppend(chosen: seq<Option<Task>>, c: Option<Task>)
    ensures Picks(chosen + [c]) == Picks(chosen) + (match c case Some(t) => [t] case None => [])
  {
    assert (chosen + [c])[..|chosen|] == chosen;
  }

  /** Picks from different slots are on different lines when the slots' lines are distinct. */
  lemma {:induction false} PicksFromSlots(chosen: seq<Option<Task>>, lines: seq<int>)
    requires |chosen| <= |lines| && Distinct(lines)
    requires forall j :: 0 <= j < |chosen| && chosen[j].Some? ==> chosen[j].value.line == lines[j]
    ensures forall k :: 0 <= k < |Picks(chosen)| ==> Picks(chosen)[k].line in lines[..|chosen|]
    ensures forall i, k :: 0 <= i < k < |Picks(chosen)| ==> Picks(chosen)[i].line != Picks(chosen)[k].line
    decreases |chosen|
  {
    if chosen != [] {
      var init := chosen[..|chosen| - 1];
      var last := chosen[|chosen| - 1];
      PicksFromSlots(init, lines);
      assert init + [last] == chosen;
      PicksAppend(init, last);
      var p := Picks(init);
      assert forall k :: 0 <= k < |p| ==> p[k].line in lines[..|chosen|] by {
        assert lines[..|init|] <= lines[..|chosen|];
      }
      if last.Some? {
        var t := last.value;
        assert Picks(chosen) == p + [t];
        forall i | 0 <= i < |p| ensures p[i].line != t.line {
          var li := p[i].line;
          assert li in lines[..|init|];
          var m :| 0 <= m < |init| && lines[..|init|][m] == li;
          assert lines[m] == li && t.line == lines[|init|];
        }
      }
    }
  }

  lemma DistinctTasksDistinctIds(tasks: seq<Task>, t: Task, u: Task)
    requires TaskIdsUnique(tasks) && t in tasks && u in tasks && t != u
    ensures t.id != u.id
  {
  }

  /** If the user had at most one row per task before the selection, that still holds after it:
      the lines are distinct and each pick had no row for the user. */
  lemma {:induction false} SelectionKeepsPairsUnique(chosen: seq<Option<Task>>, lines: seq<int>, userId: int,
      today: Date, tasks: seq<Task>, before: seq<ResultRow>, after: seq<ResultRow>, firstId: nat, queue: seq<Item>)
    requires Selected(chosen, lines, userId, today, tasks, before, after, firstId, queue)
    requires Distinct(lines) && TaskIdsUnique(tasks) && UniquePairs(before)
    ensures UniquePairs(after)
  {
    var picks := Picks(chosen);
    PicksFresh(chosen, lines, userId, tasks, before);
    FreshRowsKeepPairsUnique(before, picks, userId, today, firstId, tasks);
  }

  /** Each pick is a task no row of the user's names, and no two picks share a line. */
  lemma PicksFresh(chosen: seq<Option<Task>>, lines: seq<int>, userId: int, tasks: seq<Task>, before: seq<ResultRow>)
    requires |chosen| == |lines| && Distinct(lines)
    requires forall j :: 0 <= j < |lines| ==> SlotOk(chosen[j], lines[j], userId, tasks, before)
    ensures forall k :: 0 <= k < |Picks(chosen)| ==> Picks(chosen)[k] in tasks && !HasRow(before, userId, Picks(chosen)[k].id)
    ensures forall i, k :: 0 <= i < k < |Picks(chosen)| ==> Picks(chosen)[i].line != Picks(chosen)[k].line
  {
    var picks := Picks(chosen);
    assert forall j :: 0 <= j < |chosen| && chosen[j].Some? ==> chosen[j].value.line == lines[j] by {
      forall j | 0 <= j < |chosen| && chosen[j].Some? ensures chosen[j].value.line == lines[j] {
        assert SlotOk(chosen[j], lines[j], userId, tasks, before);
      }
    }
    PicksFromSlots(chosen, lines);
    forall k | 0 <= k < |picks| ensures picks[k] in tasks && !HasRow(before, userId, picks[k].id) {
      PicksInSlots(chosen, k);
      var j :| 0 <= j < |chosen| && chosen[j] == Some(picks[k]);
      assert SlotOk(chosen[j], lines[j], userId, tasks, before);
    }
  }

  /** Appending one Pending row per fresh pick keeps every (user, task) pair unique. */
  lemma FreshRowsKeepPairsUnique(before: seq<ResultRow>, picks: seq<Task>, userId: int, today: Date, firstId: nat,
      tasks: seq<Task>)
    requires UniquePairs(before) && TaskIdsUnique(tasks)
    requires forall k :: 0 <= k < |picks| ==> picks[k] in tasks && !HasRow(before, userId, picks[k].id)
    requires forall i, k :: 0 <= i < k < |picks| ==> picks[i].line != picks[k].line
    ensures UniquePairs(before + PendingRows(picks, userId, today, firstId))
  {
    var inserted := PendingRows(picks, userId, today, firstId);
    var after := before + inserted;
    forall i, j | 0 <= i < j < |after|
      ensures after[i].userId != after[j].userId || after[i].taskId != after[j].taskId
    {
      if j >= |before| {
        var kj := j - |before|;
        assert after[j] == inserted[kj];
        if i < |before| {
          assert after[i] == before[i];
          assert !HasRow(before, userId, picks[kj].id);
        } else {
          var ki := i - |before|;
          assert after[i] == inserted[ki];
          assert picks[ki].line != picks[kj].line;
          DistinctTasksDistinctIds(tasks, picks[ki], picks[kj]);
        }
      }
    }
  }

  lemma {:induction false} CountTodayAppend(a: seq<ResultRow>, b: seq<ResultRow>, userId: int, today: Date)
    ensures CountToday(a + b, userId, today) == CountToday(a, userId, today) + CountToday(b, userId, today)
    decreases |b|
  {
    if b != [] {
      var b' := b[..|b| - 1];
      CountTodayAppend(a, b', userId, today);
      assert (a + b)[..|a + b| - 1] == a + b';
      assert (a + b)[|a + b| - 1] == b[|b| - 1];
      CountTodayUnfold(a + b, userId, today);
      CountTodayUnfold(b, userId, today);
      assert CountToday(a + b, userId, today) == CountToday(a + b', userId, today)
        + (if b[|b| - 1].userId == userId && b[|b| - 1].assignedDate == today then 1 else 0);
    } else {
      assert a + b == a;
    }
  }

  lemma CountTodayUnfold(rows: seq<ResultRow>, userId: int, today: Date)
    requires rows != []
    ensures CountToday(rows, userId, today) == CountToday(rows[..|rows| - 1], userId, today)
      + (if rows[|rows| - 1].userId == userId && rows[|rows| - 1].assignedDate == today then 1 else 0)
  {
  }

  lemma {:induction false} CountPending(picks: seq<Task>, userId: int, today: Date, firstId: nat)
    ensures CountToday(PendingRows(picks, userId, today, firstId), userId, today) == |picks|
    decreases |picks|
  {
    var rows := PendingRows(picks, userId, today, firstId);
    if picks != [] {
      var init := picks[..|picks| - 1];
      CountPending(init, userId, today, firstId);
      assert rows[..|rows| - 1] == PendingRows(init, userId, today, firstId);
      CountTodayUnfold(rows, userId, today);
    }
  }

  /** The selection dates one new row today per pick: the day's count grows by exactly the
      number of fresh picks. */
  lemma SelectionCountsToday(chosen: seq<Option<Task>>, lines: seq<int>, userId: int, today: Date,
      tasks: seq<Task>, before: seq<ResultRow>, after: seq<ResultRow>, firstId: nat, queue: seq<Item>)
    requires Selected(chosen, lines, userId, today, tasks, before, after, firstId, queue)
    ensures CountToday(after, userId, today) == CountToday(before, userId, today) + |Picks(chosen)|
  {
    CountTodayAppend(before, PendingRows(Picks(chosen), userId, today, firstId), userId, today);
    CountPending(Picks(chosen), userId, today, firstId);
  }

  lemma {:induction false} DebtItemsAppend(a: seq<ResultRow>, b: seq<ResultRow>, tasks: seq<Task>, userId: int, today: Date)
    requires forall k :: 0 <= k < |b| ==> b[k].status == Pending
    ensures DebtItems(a + b, tasks, userId, today) == DebtItems(a, tasks, userId, today)
    decreases |b|
  {
    if b != [] {
      DebtItemsAppend(a, b[..|b| - 1], tasks, userId, today);
      assert (a + b)[..|a + b| - 1] == a + b[..|b| - 1];
      assert (a + b)[|a + b| - 1] == b[|b| - 1];
      assert b[|b| - 1].status == Pending;
    } else {
      assert a + b == a;
    }
  }

  /** The fresh block comes first, one entry per pick and none a debt; then come exactly the
      debts of the rows as they were before the selection, each marked as a debt. At most one
      pick per line, so never more picks than lines. */
  lemma SelectionShape(chosen: seq<Option<Task>>, lines: seq<int>, userId: int, today: Date,
      tasks: seq<Task>, before: seq<ResultRow>, after: seq<ResultRow>, firstId: nat, queue: seq<Item>)
    requires Selected(chosen, lines, userId, today, tasks, before, after, firstId, queue)
    ensures |Picks(chosen)| <= |lines|
    ensures queue == FreshItems(Picks(chosen)) + DebtItems(before, tasks, userId, today)
    ensures forall k :: 0 <= k < |Picks(chosen)| ==> !queue[k].isDebt
    ensures forall k :: |Picks(chosen)| <= k < |queue| ==> queue[k].isDebt
  {
    DebtItemsAppend(before, PendingRows(Picks(chosen), userId, today, firstId), tasks, userId, today);
    DebtsAreDebts(before, tasks, userId, today);
  }

  lemma {:induction false} DebtsAreDebts(rows: seq<ResultRow>, tasks: seq<Task>, userId: int, today: Date)
    ensures forall k :: 0 <= k < |DebtItems(rows, tasks, userId, today)| ==>
      DebtItems(rows, tasks, userId, today)[k].isDebt
    decreases |rows|
  {
    if rows != [] {
      DebtsAreDebts(rows[..|rows| - 1], tasks, userId, today);
    }
  }

  /** A retired task (`is_active = 0`) is never drawn as a fresh pick and never comes back as a debt. */
  lemma {:induction false} RetiredNeverQueued(chosen: seq<Option<Task>>, lines: seq<int>, userId: int, today: Date,
      tasks: seq<Task>, before: seq<ResultRow>, after: seq<ResultRow>, firstId: nat, queue: seq<Item>, retired: Task)
    requires Selected(chosen, lines, userId, today, tasks, before, after, firstId, queue)
    requires TaskIdsUnique(tasks) && retired in tasks && !retired.active
    ensures forall k :: 0 <= k < |queue| ==> queue[k].id != retired.id
  {
    var picks := Picks(chosen);
    forall k | 0 <= k < |picks| ensures picks[k].id != retired.id {
      PicksInSlots(chosen, k);
      var j :| 0 <= j < |chosen| && chosen[j] == Some(picks[k]);
      assert SlotOk(chosen[j], lines[j], userId, tasks, before);
      DistinctTasksDistinctIds(tasks, picks[k], retired);
    }
    DebtsSkipRetired(after, tasks, userId, today, retired);
  }

  lemma {:induction false} PicksInSlots(chosen: seq<Option<Task>>, k: nat)
    requires k < |Picks(chosen)|
    ensures exists j :: 0 <= j < |chosen| && chosen[j] == Some(Picks(chosen)[k])
    decreases |chosen|
  {
    var init := chosen[..|chosen| - 1];
    var last := chosen[|chosen| - 1];
    assert init + [last] == chosen;
    PicksAppend(init, last);
    if k < |Picks(init)| {
      PicksInSlots(init, k);
      var j :| 0 <= j < |init| && init[j] == Some(Picks(init)[k]);
      assert chosen[j] == init[j];
    } else {
      assert chosen[|chosen| - 1] == Some(Picks(chosen)[k]);
    }
  }

  lemma {:induction false} DebtsSkipRetired(rows: seq<ResultRow>, tasks: seq<Task>, userId: int, today: Date, retired: Task)
    requires TaskIdsUnique(tasks) && retired in tasks && !retired.active
    ensures forall k :: 0 <= k < |DebtItems(rows, tasks, userId, today)| ==>
      DebtItems(rows, tasks, userId, today)[k].id != retired.id
    decreases |rows|
  {
    if rows != [] {
      DebtsSkipRetired(rows[..|rows| - 1], tasks, userId, today, retired);
      var r := rows[|rows| - 1];
      match FindTask(tasks, r.taskId)
      case Some(t) =>
        if t.active {
          DistinctTasksDistinctIds(tasks, t, retired);
        }
      case None =>
    }
  }

  /** Day 10 with an empty history and every line stocked: all five slots draw a task and
      the queue is exactly five fresh entries. */
  lemma {:induction false} FullQueueWhenStocked(chosen: seq<Option<Task>>, lines: seq<int>, userId: int, today: Date,
      tasks: seq<Task>, before: seq<ResultRow>, after: seq<ResultRow>, firstId: nat, queue: seq<Item>)
    requires Selected(chosen, lines, userId, today, tasks, before, after, firstId, queue)
    requires forall k :: 0 <= k < |before| ==> before[k].userId != userId
    requires forall j :: 0 <= j < |lines| ==> exists t :: t in tasks && t.line == lines[j] && t.active
    ensures |Picks(chosen)| == |lines| && |queue| == |lines|
    ensures forall k :: 0 <= k < |queue| ==> !queue[k].isDebt
  {
    forall j | 0 <= j < |chosen| ensures chosen[j].Some? {
      var t :| t in tasks && t.line == lines[j] && t.active;
      assert !HasRow(before, userId, t.id);
      assert Eligible(t, lines[j], userId, before);
      assert SlotOk(chosen[j], lines[j], userId, tasks, before);
    }
    AllSomePicks(chosen);
    NoRowsNoDebts(before, tasks, userId, today);
    SelectionShape(chosen, lines, userId, today, tasks, before, after, firstId, queue);
  }

  lemma {:induction false} AllSomePicks(chosen: seq<Option<Task>>)
    requires forall j :: 0 <= j < |chosen| ==> chosen[j].Some?
    ensures |Picks(chosen)| == |chosen|
    decreases |chosen|
  {
    if chosen != [] {
      AllSomePicks(chosen[..|chosen| - 1]);
    }
  }

  lemma {:induction false} NoRowsNoDebts(rows: seq<ResultRow>, tasks: seq<Task>, userId: int, today: Date)
    requires forall k :: 0 <= k < |rows| ==> rows[k].userId != userId
    ensures DebtItems(rows, tasks, userId, today) == []
    decreases |rows|
  {
    if rows != [] {
      NoRowsNoDebts(rows[..|rows| - 1], tasks, userId, today);
    }
  }

  // ---------------------------------------------------------------------------
  // Grading and moderation

  /** Grading writes the verdict (1 correct, 2 wrong), the answer as sent and today's date
      into the (user, task) rows; every other row and every key field stays as it was. */
  lemma GradeRecordsVerdict(rows: seq<ResultRow>, userId: int, taskId: nat, isCorrect: bool, answer: string, today: Date)
    ensures var r := Graded(rows, userId, taskId, isCorrect, answer, today);
      forall k :: 0 <= k < |rows| ==>
        r[k].id == rows[k].id && r[k].userId == rows[k].userId && r[k].taskId == rows[k].taskId &&
        (rows[k].userId == userId && rows[k].taskId == taskId ==>
          r[k].status.Code() == (if isCorrect then 1 else 2) && r[k].userAnswer == Some(answer) && r[k].assignedDate == today) &&
        (rows[k].userId != userId || rows[k].taskId != taskId ==> r[k] == rows[k])
  {
  }

  /** Grading never breaks "one row per (user, task)". */
  lemma GradeKeepsPairsUnique(rows: seq<ResultRow>, userId: int, taskId: nat, isCorrect: bool, answer: string, today: Date)
    requires UniquePairs(rows)
    ensures UniquePairs(Graded(rows, userId, taskId, isCorrect, answer, today))
  {
    var r := Graded(rows, userId, taskId, isCorrect, answer, today);
    assert forall k :: 0 <= k < |rows| ==> r[k].userId == rows[k].userId && r[k].taskId == rows[k].taskId;
  }

  /** A wrong answer is not a debt on the day it was given, and is one on every other day,
      for as long as nobody re-grades it. */
  lemma WrongAnswerBecomesDebt(rows: seq<ResultRow>, userId: int, taskId: nat, answer: string, today: Date, later: Date)
    requires later != today
    ensures var r := Graded(rows, userId, taskId, false, answer, today);
      forall k :: 0 <= k < |rows| && rows[k].userId == userId && rows[k].taskId == taskId ==>
        !IsDebtRow(r[k], userId, today) && IsDebtRow(r[k], userId, later)
  {
  }

  /** Re-grading by the operator changes only the status of the rows with that id. */
  lemma StatusToggleTouchesOnlyStatus(rows: seq<ResultRow>, resultId: nat, status: Status)
    ensures var r := WithStatus(rows, resultId, status);
      forall k :: 0 <= k < |rows| ==>
        r[k].id == rows[k].id && r[k].userId == rows[k].userId && r[k].taskId == rows[k].taskId &&
        r[k].userAnswer == rows[k].userAnswer && r[k].assignedDate == rows[k].assignedDate &&
        r[k].status == (if rows[k].id == resultId then status else rows[k].status)
  {
  }

  /** Setting the same status twice is the same as setting it once. */
  lemma StatusToggleIdempotent(rows: seq<ResultRow>, resultId: nat, status: Status)
    ensures WithStatus(WithStatus(rows, resultId, status), resultId, status) == WithStatus(rows, resultId, status)
  {
  }

  /** Marking a wrong row correct and then wrong again gives back the original rows. */
  lemma StatusToggleRestores(rows: seq<ResultRow>, resultId: nat)
    requires forall k :: 0 <= k < |rows| && rows[k].id == resultId ==> rows[k].status == Incorrect
    ensures WithStatus(WithStatus(rows, resultId, Correct), resultId, Incorrect) == rows
  {
    var r := WithStatus(WithStatus(rows, resultId, Correct), resultId, Incorrect);
    assert forall k :: 0 <= k < |rows| ==> r[k] == rows[k];
  }

  /** The daily quota counts rows whatever their status, so re-grading never changes it. */
  lemma QuotaIgnoresStatus(rows: seq<ResultRow>, resultId: nat, status: Status, userId: int, today: Date)
    ensures CountToday(WithStatus(rows, resultId, status), userId, today) == CountToday(rows, userId, today)
  {
    assert TodayPositions(WithStatus(rows, resultId, status), userId, today) == TodayPositions(rows, userId, today);
  }

  lemma {:induction false} FindTaskWithActive(tasks: seq<Task>, taskId: nat, active: bool, id: nat)
    ensures var r, r0 := FindTask(WithActive(tasks, taskId, active), id), FindTask(tasks, id);
      r.Some? == r0.Some? && (r.Some? ==> r.value == r0.value.(active := r.value.active))
    decreases |tasks|
  {
    if tasks != [] {
      assert WithActive(tasks, taskId, active)[1..] == WithActive(tasks[1..], taskId, active);
      FindTaskWithActive(tasks[1..], taskId, active, id);
    }
  }

  /** Retiring or restoring a task leaves the daily statistics exactly as they were:
      the history of a retired task stays readable. */
  lemma {:induction false} ActiveToggleKeepsStats(rows: seq<ResultRow>, tasks: seq<Task>, taskId: nat, active: bool,
      userId: int, today: Date)
    ensures DailyStats(rows, WithActive(tasks, taskId, active), userId, today) == DailyStats(rows, tasks, userId, today)
    decreases |rows|
  {
    if rows != [] {
      ActiveToggleKeepsStats(rows[..|rows| - 1], tasks, taskId, active, userId, today);
      FindTaskWithActive(tasks, taskId, active, rows[|rows| - 1].taskId);
    }
  }

  /** Toggling a task's flag changes that flag only, and only for that id. */
  lemma ActiveToggleTouchesOnlyFlag(tasks: seq<Task>, taskId: nat, active: bool)
    ensures var r := WithActive(tasks, taskId, active);
      forall k :: 0 <= k < |tasks| ==>
        r[k] == tasks[k].(active := r[k].active) &&
        r[k].active == (if tasks[k].id == taskId then active else tasks[k].active)
  {
  }

  /** After a retirement no task with that id is eligible for any line. */
  lemma RetiredNotEligible(tasks: seq<Task>, taskId: nat, line: int, userId: int, rows: seq<ResultRow>)
    ensures var r := WithActive(tasks, taskId, false);
      forall k :: 0 <= k < |r| && r[k].id == taskId ==> !Eligible(r[k], line, userId, rows)
  {
  }

  /** The join with `tasks` drops no row when every row's task exists, so the day's
      statistics list exactly as many rows as the quota counts. */
  lemma {:induction false} StatsMatchQuota(rows: seq<ResultRow>, tasks: seq<Task>, userId: int, today: Date)
    requires forall k :: 0 <= k < |rows| ==> FindTask(tasks, rows[k].taskId).Some?
    ensures |DailyStats(rows, tasks, userId, today)| == CountToday(rows, userId, today)
    decreases |rows|
  {
    if rows != [] {
      StatsMatchQuota(rows[..|rows| - 1], tasks, userId, today);
      CountTodayUnfold(rows, userId, today);
    }
  }

  /** The day's statistics list the user's rows dated today, each once and in row order,
      every entry carrying its row's id, status and answer and its task's line, accepted
      answer and question. */
  lemma {:induction false} StatsListTodaysRows(rows: seq<ResultRow>, tasks: seq<Task>, userId: int, today: Date)
    requires forall k :: 0 <= k < |rows| ==> FindTask(tasks, rows[k].taskId).Some?
    ensures var stats, idx := DailyStats(rows, tasks, userId, today), TodayIndices(rows, userId, today);
      |stats| == |idx| &&
      forall i :: 0 <= i < |stats| ==>
        stats[i] == StatOf(rows[idx[i]], FindTask(tasks, rows[idx[i]].taskId).value)
    decreases |rows|
  {
    if rows != [] {
      var n := |rows| - 1;
      var init := rows[..n];
      StatsListTodaysRows(init, tasks, userId, today);
      var stats0, idx0 := DailyStats(init, tasks, userId, today), TodayIndices(init, userId, today);
      var stats, idx := DailyStats(rows, tasks, userId, today), TodayIndices(rows, userId, today);
      assert FindTask(tasks, rows[n].taskId).Some?;
      if rows[n].userId == userId && rows[n].assignedDate == today {
        assert stats == stats0 + [StatOf(rows[n], FindTask(tasks, rows[n].taskId).value)];
        assert idx == idx0 + [n];
      } else {
        assert stats == stats0 && idx == idx0;
      }
      forall i | 0 <= i < |stats0|
        ensures stats[i] == StatOf(rows[idx[i]], FindTask(tasks, rows[idx[i]].taskId).value)
      {
        assert stats[i] == stats0[i] && idx[i] == idx0[i];
        assert init[idx0[i]] == rows[idx0[i]];
      }
    }
  }

  /** A registered name is what `get_user_name` gives back. */
  lemma NameAfterRegistration(users: seq<User>, u: User)
    requires !UserKnown(users, u.userId)
    ensures UserName(users + [u], u.userId) == u.fullName
  {
    var all := users + [u];
    assert all[|users|].userId == u.userId;
    var k :| 0 <= k < |all| && all[k].userId == u.userId && UserName(all, u.userId) == all[k].fullName;
    assert k == |users|;
  }

  /** The user has a Pending row for the task dated today. */
  ghost predicate PendingRowToday(rows: seq<ResultRow>, userId: int, today: Date, taskId: nat) {
    exists m :: 0 <= m < |rows| && rows[m].userId == userId && rows[m].taskId == taskId &&
      rows[m].status == Pending && rows[m].assignedDate == today
  }

  /** The resumed queue holds only entries that are not debts, each for a task that has a
      Pending row of the user dated today. */
  lemma {:induction false} PendingTodayFacts(rows: seq<ResultRow>, tasks: seq<Task>, userId: int, today: Date)
    ensures forall k :: 0 <= k < |PendingToday(rows, tasks, userId, today)| ==>
      !PendingToday(rows, tasks, userId, today)[k].isDebt &&
      PendingRowToday(rows, userId, today, PendingToday(rows, tasks, userId, today)[k].id)
    decreases |rows|
  {
    if rows != [] {
      var init := rows[..|rows| - 1];
      PendingTodayFacts(init, tasks, userId, today);
      var items := PendingToday(rows, tasks, userId, today);
      var before := PendingToday(init, tasks, userId, today);
      forall k | 0 <= k < |items|
        ensures !items[k].isDebt && PendingRowToday(rows, userId, today, items[k].id)
      {
        if k < |before| {
          assert items[k] == before[k];
          assert PendingRowToday(init, userId, today, before[k].id);
          var m :| 0 <= m < |init| && init[m].userId == userId && init[m].taskId == before[k].id &&
            init[m].status == Pending && init[m].assignedDate == today;
          assert rows[m] == init[m];
        } else {
          assert rows[|rows| - 1].taskId == items[k].id;
        }
      }
    }
  }
}
