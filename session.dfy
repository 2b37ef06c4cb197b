/**
 * One learner's conversation with the bot: the message handlers of the
 * dispatcher, the per-user state machine (waiting for a name, waiting for an
 * answer) with its stored queue, and the end-of-day report to the operator.
 * Messages the bot sends are recorded in `sent` (to the learner) and
 * `reports` (to the operator); the clock is passed in as `dayOfYear` and
 * `today`.
 */
module Session {
  import opened Wrappers
  import opened Text
  import opened Tables
  import Store
  import Grading
  import Schedule
  import Moderation

  /** The reply-keyboard button that asks for today's tasks. */
  const DailyButton: string := "\U{1F525} Получить задания на сегодня"

  /** The registered FSM states; `Idle` is the cleared state. */
  datatype FsmState = Idle | WaitingForName | WaitingForAnswer

  /** The FSM data of a session: `tasks_queue` and `current_index`. */
  datatype Progress = Progress(queue: seq<Item>, index: nat)

  /** What the bot sends the learner. `Crashed` stands for a handler that raised. */
  datatype Reply =
    | AskFullName
    | WelcomeBack(name: string)
    | AskTwoWords
    | Registered(name: string)
    | Resuming
    | PlanDone
    | NoTasksLeft
    | Prompt(number: nat, item: Item, showText: Option<string>)
    | Verdict(accepted: bool)
    | AskForText
    | StateLost
    | Forgotten
    | Finished(score: nat, total: nat)
    | Crashed

  /** An inline button: its caption and its callback data. */
  datatype ButtonSpec = ButtonSpec(caption: string, callback: string)

  /** What the bot sends the operator: the day's header, and one report per wrong answer. */
  datatype OperatorMessage =
    | Header(learner: string, score: nat, count: nat)
    | Mistake(line: int, question: string, learnerAnswer: string, correctAnswer: string,
              buttons: seq<ButtonSpec>)

  // ---------------------------------------------------------------------------
  // Dispatch

  /** An incoming update: the `/start` command or any other message (`None` when it has no text). */
  datatype Incoming = StartCommand | Message(text: Option<string>)

  datatype Handler = OnStart | OnName | OnDaily | OnAnswer | OnUnknown

  /** The handler aiogram runs: the first registered filter that matches, in registration order. */
  function Dispatch(state: FsmState, m: Incoming): Handler {
    match m
    case StartCommand => OnStart
    case Message(text) =>
      if state == WaitingForName then OnName
      else if text == Some(DailyButton) then OnDaily
      else if state == WaitingForAnswer then OnAnswer
      else OnUnknown
  }

  /** Which handler a message reaches: the daily button restarts the day even in the middle of
      a session, an answer is only ever graded while one is awaited, and while a name is
      awaited every message is taken as the name. */
  lemma DispatchPriorities(state: FsmState, m: Incoming)
    ensures Dispatch(state, m) == OnAnswer <==>
      state == WaitingForAnswer && m.Message? && m.text != Some(DailyButton)
    ensures Dispatch(state, m) == OnDaily <==>
      state != WaitingForName && m == Message(Some(DailyButton))
    ensures Dispatch(state, m) == OnName <==> state == WaitingForName && m.Message?
    ensures Dispatch(state, m) == OnUnknown <==>
      state == Idle && m.Message? && m.text != Some(DailyButton)
  {
  }

  // ---------------------------------------------------------------------------
  // The end-of-day summary

  /** `sum(1 for s in stats if s[3] == 1)`. */
  function CountCorrect(stats: seq<StatRow>): (n: nat)
    ensures n <= |stats|
  {
    if stats == [] then 0
    else CountCorrect(stats[..|stats| - 1]) + (if stats[|stats| - 1].status == Correct then 1 else 0)
  }

  /** The positions of the user's rows dated today that are marked correct. */
  ghost function CorrectToday(rows: seq<ResultRow>, userId: int, today: Date): set<int> {
    set k | 0 <= k < |rows| && rows[k].userId == userId && rows[k].assignedDate == today && rows[k].status == Correct
  }

  /** The score of the day is the number of the user's rows dated today that are marked correct. */
  lemma {:induction false} ScoreCountsCorrectToday(rows: seq<ResultRow>, tasks: seq<Task>, userId: int, today: Date)
    requires forall k :: 0 <= k < |rows| ==> FindTask(tasks, rows[k].taskId).Some?
    ensures CountCorrect(DailyStats(rows, tasks, userId, today)) == |CorrectToday(rows, userId, today)|
    decreases |rows|
  {
    if rows != [] {
      var n := |rows| - 1;
      ScoreCountsCorrectToday(rows[..n], tasks, userId, today);
      ScoreStep(rows, tasks, userId, today);
      CorrectTodayStep(rows, userId, today);
    }
  }

  lemma ScoreStep(rows: seq<ResultRow>, tasks: seq<Task>, userId: int, today: Date)
    requires rows != [] && FindTask(tasks, rows[|rows| - 1].taskId).Some?
    ensures var r := rows[|rows| - 1];
      CountCorrect(DailyStats(rows, tasks, userId, today)) ==
      CountCorrect(DailyStats(rows[..|rows| - 1], tasks, userId, today)) +
      (if r.userId == userId && r.assignedDate == today && r.status == Correct then 1 else 0)
  {
    var n := |rows| - 1;
    var stats0, stats := DailyStats(rows[..n], tasks, userId, today), DailyStats(rows, tasks, userId, today);
    if rows[n].userId == userId && rows[n].assignedDate == today {
      var e := StatOf(rows[n], FindTask(tasks, rows[n].taskId).value);
      assert stats == stats0 + [e];
      assert stats[..|stats| - 1] == stats0;
    } else {
      assert stats == stats0;
    }
  }

  lemma CorrectTodayStep(rows: seq<ResultRow>, userId: int, today: Date)
    requires rows != []
    ensures var n := |rows| - 1; var r := rows[n];
      |CorrectToday(rows, userId, today)| == |CorrectToday(rows[..n], userId, today)| +
      (if r.userId == userId && r.assignedDate == today && r.status == Correct then 1 else 0)
  {
    var n := |rows| - 1;
    var init := rows[..n];
    var hit := rows[n].userId == userId && rows[n].assignedDate == today && rows[n].status == Correct;
    assert forall k :: 0 <= k < n ==> init[k] == rows[k];
    var a := CorrectToday(init, userId, today);
    assert n !in a;
    assert CorrectToday(rows, userId, today) == a + (if hit then {n} else {});
  }

  /** The score is full exactly when every entry of the day is correct. */
  lemma {:induction false} FullScoreIff(stats: seq<StatRow>)
    ensures CountCorrect(stats) == |stats| <==> forall k :: 0 <= k < |stats| ==> stats[k].status == Correct
  {
    if stats != [] {
      var init := stats[..|stats| - 1];
      FullScoreIff(init);
      assert forall k :: 0 <= k < |init| ==> init[k] == stats[k];
    }
  }

  /** A question longer than 150 characters is cut to 150 and marked with an ellipsis. */
  function Shorten(question: string): (r: string)
    ensures |question| <= 150 ==> r == question
    ensures |question| > 150 ==> |r| == 153 && r[..150] == question[..150] && r[150..] == "..."
  {
    if |question| > 150 then question[..150] + "..." else question
  }

  /** The learner's answer as the report shows it: "Нет ответа" when there is none. */
  function AnswerShown(answer: Option<string>): (r: string)
    ensures answer.Some? && answer.value != [] ==> r == answer.value
    ensures answer.None? || answer.value == [] ==> r == "Нет ответа"
    ensures |r| > 0
  {
    if answer.Some? && answer.value != [] then answer.value else "Нет ответа"
  }

  /** The report on one wrong answer and its three moderation buttons. */
  function MistakeFor(s: StatRow): OperatorMessage {
    Mistake(s.line, Shorten(s.question), AnswerShown(s.userAnswer), s.correctAnswer,
            [ButtonSpec(Moderation.ShowLabel, Moderation.Token("adm", "text", "show", s.resultId)),
             ButtonSpec(Moderation.MarkCorrectLabel, Moderation.Token("adm", "mark", "correct", s.resultId)),
             ButtonSpec(Moderation.DeleteLabel, Moderation.Token("adm", "task", "del", s.taskId))])
  }

  /** One report per entry with status 2, in order; pending entries are not reported. */
  function Mistakes(stats: seq<StatRow>): (m: seq<OperatorMessage>)
    ensures |m| <= |stats|
  {
    if stats == [] then []
    else
      var s := stats[|stats| - 1];
      Mistakes(stats[..|stats| - 1]) + (if s.status == Incorrect then [MistakeFor(s)] else [])
  }

  /** Everything the operator receives at the end of a learner's day. */
  function Summary(name: string, stats: seq<StatRow>): seq<OperatorMessage> {
    [Header(name, CountCorrect(stats), |stats|)] +
    (if CountCorrect(stats) != |stats| then Mistakes(stats) else [])
  }

  /** Every report comes from an entry with status 2. */
  lemma {:induction false} MistakesFromWrongAnswers(stats: seq<StatRow>, k: nat)
    requires k < |Mistakes(stats)|
    ensures exists j :: 0 <= j < |stats| && stats[j].status == Incorrect && Mistakes(stats)[k] == MistakeFor(stats[j])
  {
    var init := stats[..|stats| - 1];
    var s := stats[|stats| - 1];
    if k < |Mistakes(init)| {
      MistakesFromWrongAnswers(init, k);
      var j :| 0 <= j < |init| && init[j].status == Incorrect && Mistakes(init)[k] == MistakeFor(init[j]);
      assert stats[j] == init[j];
    } else {
      assert s.status == Incorrect && Mistakes(stats)[k] == MistakeFor(s);
    }
  }

  /** Every entry with status 2 is reported. */
  lemma {:induction false} WrongAnswersReported(stats: seq<StatRow>, j: nat)
    requires j < |stats| && stats[j].status == Incorrect
    ensures MistakeFor(stats[j]) in Mistakes(stats)
  {
    var init := stats[..|stats| - 1];
    if j < |init| {
      WrongAnswersReported(init, j);
      assert init[j] == stats[j];
    }
  }

  /** A full score sends the header alone; the `correct != total` guard only skips a loop that
      would find nothing. */
  lemma {:induction false} FullScoreNoMistakes(stats: seq<StatRow>)
    requires CountCorrect(stats) == |stats|
    ensures Mistakes(stats) == []
  {
    FullScoreIff(stats);
    if stats != [] {
      var init := stats[..|stats| - 1];
      assert forall k :: 0 <= k < |init| ==> init[k] == stats[k];
      FullScoreIff(init);
      FullScoreNoMistakes(init);
    }
  }

  /** The buttons of a report reach the moderation handlers with the report's own ids, in the
      rows those handlers relabel: passage on row 0, verdict on row 1, task on row 2. */
  lemma MistakeButtonsRoute(s: StatRow)
    ensures var b := MistakeFor(s).buttons;
      |b| == 3 &&
      Moderation.Route(b[0].callback) == Moderation.OperatorText &&
      Moderation.ParseToken(b[0].callback) == Some(Moderation.Parsed("show", s.resultId)) &&
      Moderation.Route(b[1].callback) == Moderation.OperatorMark &&
      Moderation.ParseToken(b[1].callback) == Some(Moderation.Parsed("correct", s.resultId)) &&
      Moderation.Route(b[2].callback) == Moderation.OperatorTask &&
      Moderation.ParseToken(b[2].callback) == Some(Moderation.Parsed("del", s.taskId))
  {
    assert "adm" == ['a', 'd', 'm'] && "text" == ['t', 'e', 'x', 't'];
    assert "mark" == ['m', 'a', 'r', 'k'] && "task" == ['t', 'a', 's', 'k'];
    assert "show" == ['s', 'h', 'o', 'w'] && "correct" == ['c', 'o', 'r', 'r', 'e', 'c', 't'];
    assert "del" == ['d', 'e', 'l'];
    Moderation.TokenRoundTrip("adm", "text", "show", s.resultId);
    Moderation.TokenRoundTrip("adm", "mark", "correct", s.resultId);
    Moderation.TokenRoundTrip("adm", "task", "del", s.taskId);
    Moderation.ReportTokensRouted("show", s.resultId);
    Moderation.ReportTokensRouted("correct", s.resultId);
    Moderation.ReportTokensRouted("del", s.taskId);
  }

  /** The learner's "show text" button on a queued task, when it has a passage. */
  function ShowButton(item: Item): (callback: Option<string>)
    ensures callback.Some? <==> item.text.Some? && item.text.value != []
    ensures callback.Some? ==> Moderation.ParseToken(callback.value) == Some(Moderation.Parsed("text", item.id))
  {
    Moderation.TokenRoundTrip("user", "show", "text", item.id);
    if item.text.Some? && item.text.value != [] then Some(Moderation.Token("user", "show", "text", item.id))
    else None
  }

  // ---------------------------------------------------------------------------
  // A learner's conversation

  class Chat {
    const userId: int
    const username: Option<string>
    /** Whether an operator id is configured (`ADMIN_ID`). */
    const adminConfigured: bool
    const db: Store.Database
    var state: FsmState
    var progress: Option<Progress>
    var sent: seq<Reply>
    var reports: seq<OperatorMessage>

    /** The store keeps its keys, and a stored queue position always points into the queue. */
    ghost predicate Valid()
      reads this, db
    {
      db.Valid() && (progress.Some? ==> progress.value.index < |progress.value.queue|)
    }

    constructor (userId: int, username: Option<string>, adminConfigured: bool, db: Store.Database)
      requires db.Valid()
      ensures Valid()
      ensures this.userId == userId && this.username == username && this.adminConfigured == adminConfigured
      ensures this.db == db && state == Idle && progress == None && sent == [] && reports == []
    {
      this.userId := userId;
      this.username := username;
      this.adminConfigured := adminConfigured;
      this.db := db;
      state := Idle;
      progress := None;
      sent := [];
      reports := [];
    }

    /** The day is closed: the learner got the score, the state is cleared, and the operator
        (when configured) got the summary. */
    ghost predicate Closed(today: Date, sent0: seq<Reply>, reports0: seq<OperatorMessage>)
      reads this, db
    {
      var stats := DailyStats(db.results, db.tasks, userId, today);
      state == Idle && progress.None? &&
      sent == sent0 + [Finished(CountCorrect(stats), |stats|)] &&
      reports == reports0 + (if adminConfigured then Summary(UserName(db.users, userId), stats) else [])
    }

    /** The queue has moved on to position `p.index`: the next task was sent and is awaited,
        or the queue is done and the day was closed. */
    ghost predicate Advanced(p: Progress, today: Date, sent0: seq<Reply>, reports0: seq<OperatorMessage>)
      reads this, db
    {
      if p.index < |p.queue| then
        var item := p.queue[p.index];
        progress == Some(p) && state == WaitingForAnswer && reports == reports0 &&
        sent == sent0 + [Prompt(p.index + 1, item, ShowButton(item))]
      else Closed(today, sent0, reports0)
    }

    /** `cmd_start`: a newcomer is asked for a name; a registered learner is greeted by name. */
    method Start()
      requires Valid()
      modifies this`state, this`sent
      ensures Valid()
      ensures !UserKnown(db.users, userId) ==> state == WaitingForName && sent == old(sent) + [AskFullName]
      ensures UserKnown(db.users, userId) ==>
        state == old(state) && sent == old(sent) + [WelcomeBack(UserName(db.users, userId))]
    {
      if !UserKnown(db.users, userId) {
        sent := sent + [AskFullName];
        state := WaitingForName;
      } else {
        sent := sent + [WelcomeBack(UserName(db.users, userId))];
      }
    }

    /** `process_name`: a stripped text of at least two words registers the learner and clears
        the state; a shorter one is asked for again. A message without text, or a second
        registration of the same id, raises. */
    method ProcessName(text: Option<string>)
      requires Valid()
      modifies this`state, this`progress, this`sent, db`users
      ensures Valid()
      ensures text.None? || (|Words(Strip(text.value))| >= 2 && UserKnown(old(db.users), userId)) ==>
        sent == old(sent) + [Crashed] && state == old(state) && progress == old(progress) &&
        db.users == old(db.users)
      ensures text.Some? && |Words(Strip(text.value))| < 2 ==>
        sent == old(sent) + [AskTwoWords] && state == old(state) && progress == old(progress) &&
        db.users == old(db.users)
      ensures text.Some? && |Words(Strip(text.value))| >= 2 && !UserKnown(old(db.users), userId) ==>
        db.users == old(db.users) + [User(userId, username, Strip(text.value))] &&
        state == Idle && progress.None? && sent == old(sent) + [Registered(Strip(text.value))]
    {
      if text.None? {
        sent := sent + [Crashed];
        return;
      }
      var fullName := Strip(text.value);
      if |Words(fullName)| < 2 {
        sent := sent + [AskTwoWords];
        return;
      }
      var ok := db.AddUser(userId, username, fullName);
      if !ok {
        sent := sent + [Crashed];
        return;
      }
      state := Idle;
      progress := None;
      sent := sent + [Registered(fullName)];
    }

    /** `finish_daily_session`. */
    method Finish(today: Date)
      requires Valid()
      modifies this`state, this`progress, this`sent, this`reports
      ensures Valid() && Closed(today, old(sent), old(reports))
    {
      var name := UserName(db.users, userId);
      var stats := db.GetDailyStats(userId, today);
      sent := sent + [Finished(CountCorrect(stats), |stats|)];
      state := Idle;
      progress := None;
      NotifyOperator(name, stats);
    }

    /** The operator's part of `finish_daily_session`: nothing without an operator id; else the
        header, then the wrong answers unless the score is full. */
    method NotifyOperator(name: string, stats: seq<StatRow>)
      modifies this`reports
      ensures reports == old(reports) + (if adminConfigured then Summary(name, stats) else [])
    {
      if adminConfigured {
        var correct := CountCorrect(stats);
        reports := reports + [Header(name, correct, |stats|)];
        if correct != |stats| {
          ReportMistakes(stats);
        }
      }
    }

    /** The loop over the day's entries that sends one report per wrong answer. */
    method ReportMistakes(stats: seq<StatRow>)
      modifies this`reports
      ensures reports == old(reports) + Mistakes(stats)
    {
      for i := 0 to |stats|
        invariant reports == old(reports) + Mistakes(stats[..i])
      {
        assert stats[..i + 1][..i] == stats[..i];
        if stats[i].status == Incorrect {
          reports := reports + [MistakeFor(stats[i])];
        }
      }
      assert stats[..|stats|] == stats;
    }

    /** `send_next_task`: present the task at the current position, or close the day when the
        queue is done. */
    method SendNext(p: Progress, today: Date)
      requires Valid() && p.index <= |p.queue|
      modifies this`state, this`progress, this`sent, this`reports
      ensures Valid() && Advanced(p, today, old(sent), old(reports))
    {
      if p.index >= |p.queue| {
        Finish(today);
        return;
      }
      var item := p.queue[p.index];
      sent := sent + [Prompt(p.index + 1, item, ShowButton(item))];
      progress := Some(p);
      state := WaitingForAnswer;
    }

    /** `start_daily_tasks` as written: its first call, `db.get_pending_tasks`, names a method
        the store does not define, so every press of the button raises before anything else
        happens. */
    method StartDailyTasksAsWritten()
      modifies this`sent
      ensures sent == old(sent) + [Crashed]
    {
      sent := sent + [Crashed];
    }

    /** `start_daily_tasks` with the missing lookup read as today's pending entries: resume
        those if there are any; otherwise stop at the daily quota; otherwise draw a fresh
        selection and start it, or say there is nothing left. */
    method StartDailyTasks(dayOfYear: int, today: Date) returns (queue: seq<Item>, ghost chosen: seq<Option<Task>>)
      requires Valid()
      modifies this`state, this`progress, this`sent, this`reports, db`results, db`nextResultId
      ensures Valid()
      ensures var pending := PendingToday(old(db.results), db.tasks, userId, today);
        |pending| > 0 ==>
          queue == pending && db.results == old(db.results) &&
          Advanced(Progress(pending, 0), today, old(sent) + [Resuming], old(reports))
      ensures var pending := PendingToday(old(db.results), db.tasks, userId, today);
        |pending| == 0 && |TodayPositions(old(db.results), userId, today)| >= 5 ==>
          queue == [] && db.results == old(db.results) && sent == old(sent) + [PlanDone] &&
          state == old(state) && progress == old(progress) && reports == old(reports)
      ensures var pending := PendingToday(old(db.results), db.tasks, userId, today);
        |pending| == 0 && |TodayPositions(old(db.results), userId, today)| < 5 ==>
          Selected(chosen, Schedule.TodaysLines(dayOfYear)[..5], userId, today, db.tasks,
                   old(db.results), db.results, old(db.nextResultId), queue) &&
          (queue == [] ==>
             sent == old(sent) + [NoTasksLeft] && state == old(state) && progress == old(progress) &&
             reports == old(reports)) &&
          (queue != [] ==> Advanced(Progress(queue, 0), today, old(sent), old(reports)))
    {
      var pending := PendingToday(db.results, db.tasks, userId, today);
      chosen := [];
      if |pending| > 0 {
        queue := pending;
        sent := sent + [Resuming];
        SendNext(Progress(pending, 0), today);
        return;
      }
      if db.CheckTodayCompleted(userId, today) {
        queue := [];
        sent := sent + [PlanDone];
        return;
      }
      queue, chosen := db.GetNewTasksForUser(userId, dayOfYear, today);
      if queue == [] {
        sent := sent + [NoTasksLeft];
        return;
      }
      SendNext(Progress(queue, 0), today);
    }

    /** `check_answer`: grade the awaited task, record the verdict and the raw answer, and move
        on. A message without text is asked for again; lost state data is reported and cleared;
        a task that is no longer stored makes the answer lookup raise. */
    method CheckAnswer(text: Option<string>, today: Date)
      requires Valid()
      modifies this`state, this`progress, this`sent, this`reports, db`results
      ensures Valid()
      ensures text.None? || text.value == [] ==>
        sent == old(sent) + [AskForText] && state == old(state) && progress == old(progress) &&
        reports == old(reports) && db.results == old(db.results)
      ensures text.Some? && text.value != [] && old(progress).None? ==>
        sent == old(sent) + [StateLost] && state == Idle && progress.None? &&
        reports == old(reports) && db.results == old(db.results)
      ensures (text.Some? && text.value != [] && old(progress).Some? &&
               !Store.HasTask(db.tasks, old(progress).value.queue[old(progress).value.index].id)) ==>
        sent == old(sent) + [Crashed] && state == old(state) && progress == old(progress) &&
        reports == old(reports) && db.results == old(db.results)
      ensures (text.Some? && text.value != [] && old(progress).Some? &&
               Store.HasTask(db.tasks, old(progress).value.queue[old(progress).value.index].id)) ==>
        var p := old(progress).value;
        var item := p.queue[p.index];
        var ok := Grading.Accepts(item.line, db.GetCorrectAnswer(item.id), text.value);
        db.results == Graded(old(db.results), userId, item.id, ok, text.value, today) &&
        Advanced(Progress(p.queue, p.index + 1), today, old(sent) + [Verdict(ok)], old(reports))
    {
      if text.None? || text.value == [] {
        sent := sent + [AskForText];
        return;
      }
      if progress.None? {
        sent := sent + [StateLost];
        state := Idle;
        return;
      }
      var p := progress.value;
      var item := p.queue[p.index];
      if !Store.HasTask(db.tasks, item.id) {
        sent := sent + [Crashed];
        return;
      }
      var spec := db.GetCorrectAnswer(item.id);
      var ok := Grading.CheckAnswer(item.line, spec, text.value);
      db.UpdateTaskStatus(userId, item.id, ok, text.value, today);
      sent := sent + [Verdict(ok)];
      SendNext(Progress(p.queue, p.index + 1), today);
    }

    /** `handle_unknown_message`: the bot says it forgot the context. */
    method Unknown()
      modifies this`sent
      ensures sent == old(sent) + [Forgotten]
    {
      sent := sent + [Forgotten];
    }
  }
}
