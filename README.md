# Literature exam practice bot: a verified model of its task engine

This project models the core of a Telegram bot that trains learners for the
literature part of the Russian state exam. It covers three parts:

- **The store and the daily selection** (`database.py`):
  - three tables: users, tasks, and result rows that carry a status of
    0 pending, 1 correct or 2 wrong;
  - a daily rotation of five of the six exam lines;
  - a quota of five tasks assigned per day;
  - a selector that hands out one fresh task per line of the day, then
    every earlier wrong answer whose task is still active (a "debt");
  - grading, re-grading by the operator, and retiring or restoring a task.
- **The conversation** (`main.py`):
  - registration, which needs two words;
  - resuming, starting and advancing the day's queue;
  - the answer check: digits only on line 8, a trimmed lower-case exact
    match elsewhere, each against a `|`-separated list of accepted variants;
  - the end-of-day score and the operator's report on each wrong answer;
  - the operator's buttons, which edit a report by adding or removing
    fixed markers and relabel their own button in place.
- **Answer extraction** (`parser_firefox.py`): how the scraper extracts the
  accepted-answer spec from a task card's text, and the rule that inserts
  a scraped task only when it is new.

How the project is laid out:

| module | file | what it holds |
|---|---|---|
| `Wrappers` | `wrappers.dfy` | `Option` |
| `Text` | `text.dfy` | Python's string operations: `find`, `split`, `join`, `replace`, `strip`, `lower`, `split()`, `isdigit`, `str`/`int` |
| `Schedule` | `schedule.dfy` | the line rotation |
| `Tables` | `tables.dfy` | the table rows as datatypes, and queries and updates as functions on sequences of rows, with their lemmas |
| `Store` | `store.dfy` | class `Database` |
| `Grading` | `grading.dfy` | the answer check |
| `Ingest` | `ingest.dfy` | answer extraction and the insert rule |
| `Moderation` | `moderation.dfy` | the operator's report controls |
| `Session` | `session.dfy` | class `Chat`, one learner's conversation |

Modelling choices:

- The clock is a parameter: `dayOfYear` for the rotation, `today` for
  `CURRENT_DATE`.
- `ORDER BY RANDOM() LIMIT 1` is a nondeterministic choice among the
  eligible tasks. The ghost result `chosen` records what each slot drew.
- What the bot sends is recorded in two fields of `Chat`: `sent` for the
  learner and `reports` for the operator. A handler that raises appends
  `Crashed` and changes nothing else.

## Model

| member | source | states |
|---|---|---|
| Schedule.TodaysLines | database.py:32-46 | five pairwise distinct lines; a line is in the window exactly when it is in the rotation and is not the omitted line `available[(d%6+5)%6]` |
| Schedule.FiveOfEverySix | database.py:37-44 | every line of the rotation is scheduled on exactly five of any six consecutive days |
| Schedule.ScheduledUnlessOmitted | database.py:37-44 | over any run of days, a line of the rotation is scheduled on exactly the days whose omitted line is another one |
| Schedule.OmittedRotates | database.py:42-44 | the omitted line moves one position along the rotation from one day to the next |
| Schedule.DayTen | database.py:42-44 | on day 10 the lines are `[7, 8, 1, 2, 3]` and line 6 rests |
| Tables.FindTask | database.py:118 | the lookup by id gives a stored task with that id, or None when no task has it |
| Tables.UserName | database.py:25-28 | the registered full name of the id, or "Ученик" when the id is unknown |
| Tables.NameAfterRegistration | database.py:20-28 | after a learner is added, `get_user_name` gives back the name they registered |
| Store.Database.AddUser | database.py:20-23 | the insert succeeds exactly when the id is new, and then appends the user; a duplicate id changes nothing |
| Store.Database.CheckTodayCompleted | database.py:48-59 | true exactly when at least five of the user's rows are dated today, whatever their status |
| Tables.QuotaIgnoresStatus | database.py:54-57 | re-grading a row never changes the day's count |
| Store.Database.GetNewTasksForUser | database.py:61-114 | every slot drew an eligible task or none (only when none was eligible); one Pending row dated today was inserted per pick, with consecutive ids; the queue is the fresh entries followed by every debt; the store invariant still holds |
| Store.Database.DrawFresh | database.py:73-94 | the loop over the day's lines: each slot judged eligible against the rows as they grow is eligible against the rows before the selection; the rows grow by exactly the picks' Pending rows |
| Store.Database.DrawSlot | database.py:76-89 | one slot: an active task of the slot's line that the user has no row for, recorded as a Pending row dated today; no row when no task qualifies |
| Store.Database.Debts | database.py:96-112 | the debt loop returns exactly the debt entries of the current rows, in row order |
| Store.EligibleDuringSelection | database.py:75-84 | because the day's lines are distinct, the `NOT IN` filter sees the same answer before and during the selection |
| Tables.SelectionShape | database.py:91-112 | the fresh block comes first, and none of it is a debt; the rest are exactly the debts of the rows before the selection, each marked as a debt; there are never more picks than lines |
| Tables.SelectionKeepsPairsUnique | database.py:75-89 | if the user had at most one row per task before the selection, that still holds after it |
| Tables.SelectionCountsToday | database.py:86-89 | the day's count grows by exactly the number of fresh picks |
| Tables.RetiredNeverQueued | database.py:77-106 | a retired task is never drawn as a fresh pick and never returns as a debt |
| Tables.FullQueueWhenStocked | database.py:61-114 | on day 10, with an empty history and every line stocked, all five slots draw and the queue is exactly five fresh entries |
| Tables.PicksFromSlots | database.py:73-89 | picks from different slots are on different lines |
| Store.Database.UpdateTaskStatus | database.py:120-128 | the rows become `Graded` of the old rows, and the store invariant still holds |
| Tables.GradeRecordsVerdict | database.py:120-128 | the (user, task) rows get status 1 when correct and 2 when wrong, the answer as sent, and today's date; every other row and every key field is unchanged |
| Tables.GradeKeepsPairsUnique | database.py:120-128 | grading keeps at most one row per (user, task) |
| Tables.WrongAnswerBecomesDebt | database.py:97-128 | a wrong answer is not a debt on the day it is given, and is one on every other day until it is re-graded |
| Store.Database.GetDailyStats | database.py:130-139 | one entry per row of the user dated today, in row order, as many as the quota counts; each entry carries its row's id, status and answer and its task's id, line, accepted answer and question |
| Tables.StatsListTodaysRows | database.py:130-139 | when every row's task exists, the statistics list exactly the user's rows dated today, each once and in row order, each joined with its own task |
| Tables.StatsMatchQuota | database.py:130-139 | when every row's task exists, the join drops no row, so the statistics have the quota's length |
| Store.Database.ToggleResultStatus | database.py:141-146 | the rows become `WithStatus` of the old rows, and the store invariant still holds |
| Tables.StatusToggleTouchesOnlyStatus | database.py:141-146 | only the status of the row with that id changes; its answer, date and keys stay as they were |
| Tables.StatusToggleIdempotent | database.py:141-146 | setting the same status twice equals setting it once |
| Tables.StatusToggleRestores | database.py:141-146 | correct-then-wrong gives back a row that was originally wrong |
| Store.Database.GetTaskTextByResultId | database.py:148-158 | None when no result row has the id; when the row and its task exist, exactly that task's passage (None when it has none) |
| Store.TextOfRow | database.py:148-158 | for every stored result row, the lookup by its id gives the passage of the task the row was created for |
| Store.Database.ToggleTaskActiveStatus | database.py:160-165 | the tasks become `WithActive` of the old tasks, and the store invariant still holds |
| Tables.ActiveToggleTouchesOnlyFlag | database.py:160-165 | only the flag of the task with that id changes |
| Tables.ActiveToggleKeepsStats | database.py:160-165 | retiring or restoring a task leaves the daily statistics as they were |
| Tables.RetiredNotEligible | database.py:77-84 | after a retirement no task with that id is eligible for any line |
| Tables.PendingTodayFacts | main.py:74-76 | each resumed entry is not a debt, and its task has a Pending row of the user dated today |
| Store.Database.AddTask | create_db.py:19-29 | a fresh AUTOINCREMENT id, the task appended active, and the store invariant still holds |
| Grading.CheckAnswer | main.py:164-175 | the check's verdict is true exactly when `Accepts` holds |
| Grading.ScanVariants | main.py:171-172 | the scan over the variants stops with true exactly when the digits equal one of them |
| Grading.DigitLineIff | main.py:167-173 | on line 8 the answer is correct exactly when its digits, with everything else dropped, are one of the variants |
| Grading.OtherLinesIff | main.py:155-175 | on other lines the answer is correct exactly when its stripped, lower-cased text is one of the variants |
| Grading.CaseInsensitive | main.py:155 | the verdict does not depend on the case of the message |
| Grading.PaddingIgnored | main.py:155 | the verdict does not depend on whitespace around the message |
| Grading.TwoVariants | main.py:167 | a spec made of two bar-free parts joined by a bar holds exactly those two variants |
| Grading.SpacedDigitsAccepted | main.py:168-173 | on line 8, "1 4 6" matches "146" |
| Grading.PunctuatedDigitsAccepted | main.py:168-173 | on line 8, "1, 6, 4" matches the second of the variants "146" and "164" |
| Grading.MissingDigitRejected | main.py:168-173 | on line 8, "14" does not match "146" |
| Grading.CaseAndSpaceAccepted | main.py:155-175 | on other lines, "Онегин " matches the first of the variants "онегин" and "евгений онегин" |
| Grading.PartialRejected | main.py:174-175 | on other lines, a message that is only part of the sole variant is rejected |
| Grading.ShorterRejected | main.py:174-175 | off line 8, a message shorter than every variant is never accepted |
| Session.DispatchPriorities | main.py:47-149 | which handler a message reaches: an answer is graded only while one is awaited and the message is not the daily button; the button restarts the day in any state except waiting for a name; every message is taken as the name while one is awaited; the fallback runs only in the cleared state |
| Session.Chat.Start | main.py:47-56 | a newcomer is asked for a name and the state becomes waiting-for-name; a registered learner is greeted by name and the state is unchanged |
| Session.Chat.ProcessName | main.py:58-67 | fewer than two words after `strip()` re-prompts, adds no user and keeps the state; otherwise the stripped name is added and the state and data are cleared; a message without text raises and changes nothing |
| Text.TwoWordsIff | main.py:62 | `s.split()` has at least two words exactly when two non-blank characters are separated by whitespace |
| Session.Chat.StartDailyTasks | main.py:71-98 | checks in priority order: (1) today's pending entries resume first, with no store write; (2) otherwise a met quota stops with no selection; (3) otherwise the selection satisfies `Selected`, and an empty queue starts no session; a non-empty queue presents its first task |
| Session.Chat.StartDailyTasksAsWritten | main.py:76 | every press of the daily button raises before anything else happens |
| Session.Chat.SendNext | main.py:100-129 | below the end of the queue, the task at the position is presented and awaited, and the stored position stays inside the queue; at the end, the day is closed |
| Session.ShowButton | main.py:121-122 | a "show text" button exactly when the task has a non-empty passage; its token parses back to the task id |
| Session.Chat.CheckAnswer | main.py:148-181 | a message without text re-prompts with nothing else changed; lost data is reported and cleared with no store write; otherwise one `Graded` update with the verdict of `Accepts` and the raw text, then the position advances by one |
| Session.Chat.Finish | main.py:187-238 | the learner gets (correct, total) for today; the state is cleared; the operator, when configured, gets the header and, unless the score is full, one report per wrong answer |
| Session.Chat.NotifyOperator | main.py:198-238 | the operator gets nothing without an operator id; otherwise the header, then the wrong answers unless the score is full |
| Session.Chat.ReportMistakes | main.py:212-238 | the loop appends exactly `Mistakes(stats)` |
| Session.CountCorrect | main.py:192 | the score never exceeds the number of entries |
| Session.FullScoreIff | main.py:192-193 | the score is full exactly when every entry of the day is correct |
| Session.ScoreCountsCorrectToday | main.py:190-192 | the score of the day is the number of the user's rows dated today that are marked correct |
| Session.MistakesFromWrongAnswers | main.py:212-215 | every operator report comes from an entry with status 2 |
| Session.WrongAnswersReported | main.py:212-215 | every entry with status 2 is reported |
| Session.FullScoreNoMistakes | main.py:212-215 | with a full score there are no wrong answers, so the `correct != total` guard never hides a report |
| Session.Shorten | main.py:221 | a question of at most 150 characters is kept; a longer one becomes its first 150 characters followed by "..." |
| Session.AnswerShown | main.py:218 | the answer line of a report is never blank: a given answer is shown as sent, a missing or empty one as "Нет ответа" |
| Session.MistakeButtonsRoute | main.py:229-233 | a report's three buttons reach the text, status and task handlers with the report's own result and task ids |
| Session.Chat.Unknown | main.py:319-326 | the fallback sends the forgotten-context notice |
| Moderation.ParseToken | main.py:243 | a parsed token has at least four parts and carries the third as its action |
| Moderation.TokenRoundTrip | main.py:230-243 | a token built from underscore-free parts parses back to its action and id |
| Moderation.ReportTokensRouted | main.py:229-242 | every token the bot builds starts with the prefix of the handler that edits it |
| Moderation.HideAfterShow | main.py:254-261 | hiding the passage gives back the text it was shown under |
| Moderation.HideWithoutPassage | main.py:259-260 | with no passage heading in the text, hide does nothing |
| Moderation.UnmarkAfterMark | main.py:274-282 | wrong-after-correct gives back a text that lacked the marker |
| Moderation.RestoreAfterDelete | main.py:295-304 | restore-after-delete gives back a text that lacked the marker |
| Moderation.TextMarkerUnbordered | main.py:259 | the passage heading cannot overlap itself |
| Moderation.CorrectMarkerUnbordered | main.py:274 | the correct-marker cannot overlap itself |
| Moderation.DeletedMarkerUnbordered | main.py:295 | the deleted-marker cannot overlap itself |
| Moderation.ShowThenHide | main.py:244-264 | show, then press the relabelled button: the text and the first button are back as they were |
| Moderation.CorrectThenWrong | main.py:268-286 | mark correct, then press the relabelled button: the text and the second button are back as they were |
| Moderation.DeleteThenRestore | main.py:289-308 | delete, then press the relabelled button: the text and the third button are back as they were |
| Moderation.HideDropsLaterMarks | main.py:259-261 | hiding cuts the report at the passage heading, so a correct- or deleted-marker added after the passage disappears with it |
| Moderation.UpdateButton | main.py:310-315 | the same rows come back; only the first button of the given row is relabelled; a missing or empty row leaves every button as it was |
| Moderation.Apply | main.py:262-263 | an edit replaces the text and relabels its row's first button; any other outcome leaves the report alone |
| Moderation.AdminToggleText | main.py:241-264 | the outcome is `TextPlan` of the old text, the token and the stored passage, applied to the report; the store is not written |
| Moderation.AdminToggleStatus | main.py:268-286 | status 1 on "correct", 2 on "wrong", and no write for any other action or a bad token; the report is edited per `StatusPlan` |
| Moderation.StatusEffectScope | main.py:276-283 | the verdict reaches only the rows whose id is the token's and changes only their status, to 1 on "correct" and 2 on "wrong"; any other token writes nothing |
| Moderation.AdminToggleTaskActive | main.py:289-308 | inactive on "del", active on "res", and no write otherwise; the report is edited per `TaskPlan` |
| Moderation.TaskEffectScope | main.py:297-304 | retiring or restoring reaches only the task whose id is the token's and changes only its `is_active` flag, off on "del" and on on "res" |
| Moderation.ShowButtonNotFound | main.py:131-143 | the learner's button on a task that is gone or has no passage gets the "not found" alert |
| Moderation.ShowButtonFindsTask | main.py:122-141 | the learner's button on a task reaches that task's passage |
| Ingest.ParseSomeIff | parser_firefox.py:65-75 | a spec (possibly empty) is extracted exactly when the card mentions "Ответ:" |
| Ingest.AnswerAfterLastMarker | parser_firefox.py:67-70 | only the text after the last "Ответ:" matters |
| Ingest.AnswerLineShape | parser_firefox.py:70 | the answer line is the whole first line of the stripped remainder: it starts it, holds no newline, and runs up to the first newline or the end |
| Ingest.SourceCutAtFirst | parser_firefox.py:71-72 | with "Источник" on the line, the spec comes from the stripped text before its first occurrence |
| Ingest.CutSourceInside | parser_firefox.py:71-72 | cutting the source keeps a piece of the line, so no newline appears |
| Ingest.NoSeparatorsLeft | parser_firefox.py:73 | no " ИЛИ " or " или " survives; both became the bar |
| Ingest.JoinAlternativesNoNewline | parser_firefox.py:73 | joining the alternatives introduces no newline |
| Ingest.AnswerSingleLine | parser_firefox.py:68-74 | the spec is a single line |
| Ingest.AnswerLowercase | parser_firefox.py:74 | the spec is already lower-case |
| Ingest.StoreParsedTask | parser_firefox.py:181-189 | a task is inserted, active and with a fresh id, exactly when the spec is non-empty and the (question, spec) pair is new; otherwise the store is unchanged |
| Ingest.InsertKeepsQAUnique | parser_firefox.py:182-188 | the insert rule keeps (question, spec) pairs unique |
| Ingest.ActiveToggleKeepsQAUnique | parser_firefox.py:182-188 | retiring or restoring tasks keeps (question, spec) pairs unique |
| Text.Split | parser_firefox.py:68 | `split` always returns at least one part |
| Text.SplitManyIff | parser_firefox.py:67-69 | `s.split(sep)` has more than one part exactly when `sep in s` |
| Text.SplitJoin | main.py:261 | joining the parts of a split with the separator gives back the string |
| Text.SplitPartsFree | main.py:261 | no part of a split contains the separator |
| Text.SplitLast | parser_firefox.py:70 | the last part of a split is what follows the last occurrence |
| Text.SplitAfter | main.py:261 | `a + sep + b`, with `a` free of an unbordered `sep`, splits right after `a` |
| Text.ReplaceFree | parser_firefox.py:73 | after a replace with a one-character glue, the pattern does not survive |
| Text.RemoveAppended | main.py:282 | `replace(marker, "")` removes a trailing marker from a text that lacked it |
| Text.Strip | main.py:60 | the result sits inside the input with only whitespace around it, and neither starts nor ends with whitespace |
| Text.StripPadded | main.py:155 | `strip()` ignores whitespace added at either end |
| Text.StripLower | main.py:155 | lower-casing commutes with `strip()` |
| Text.LowerIdempotent | main.py:155 | lower-casing twice is lower-casing once |
| Text.LowerKeepsSpacesAndDigits | main.py:155 | lower-casing keeps whitespace exactly where it was and leaves every digit unchanged |
| Text.DigitsOfStrip | main.py:169 | the digit filter sees through `strip()` |
| Text.ParseNatToString | main.py:243 | `int(str(n)) == n` |

## Left out

- Telegram transport is not modelled: the dispatcher's polling, the message texts, the keyboards and the `Markdown`/HTML parse modes.
- HTML escaping is not modelled. The report text is treated as what `html_text` gives back, with no change.
- The 3800- and 3000-character cuts of a shown passage are not modelled.
- The plain-text fallback when an HTML send fails is not modelled.
- Send errors that the bot swallows, and `asyncio.sleep`, are not modelled: the model sends every report.
- `on_startup`, `main`, `.env` loading and logging are not part of this model.
- `datetime.now()` and `CURRENT_DATE` are parameters: `dayOfYear` and `today`.
- Concurrent handlers and the shared SQLite connection are not modelled. Each handler runs to completion.
- The SQLite connection setup and the WAL pragmas are not modelled.
- create_db.py is not run. Its columns only give the shape of the row datatypes.
- `join_date` and `username` are carried but nothing reads them.
- The Selenium crawler is not part of this model: scrolling, clicking, `clean_text` and the scrape loop. Only the answer parse and the insert rule are modelled.
- Row order stands in for SQL's unspecified order of `fetchall` in the debts and statistics queries.
- The `JOIN` with `tasks` is a lookup by id (`FindTask`). The store invariant guarantees that every row's task exists.
- `Text.Lower` covers ASCII and basic Cyrillic capitals only (U+0400–U+042F). Python's full Unicode case mapping is not modelled.
- `Text.IsDigit` covers ASCII digits only, whereas Python's `isdigit` also accepts other Unicode digits.
- `Text.ParseNat` accepts only non-empty ASCII digit strings. Python's `int` also accepts a sign, surrounding whitespace and underscores; none of them can appear in a token the bot builds.
- Moderation.UpdateButton: requires that no button object appears twice in a keyboard. Telegram builds a fresh object per button, so aliasing inside one keyboard does not arise.
- Session.Chat.StartDailyTasks: the lookup `get_pending_tasks` is missing from the store. It is read as "the user's status-0 rows dated today, joined with their tasks, not marked as debts" (`Tables.PendingToday`). This follows the comment above the call.
- Session.Chat.CheckAnswer: `get_correct_answer` on a task that is no longer stored raises. The model records `Crashed`, whereas the source's exception leaves the message unanswered.

## Findings

| source | as written | input that shows it | evidently intended | confidence | as-written member | corrected member |
|---|---|---|---|---|---|---|
| main.py:76 | `start_daily_tasks` calls `db.get_pending_tasks(user_id)`, but `Database` defines no such method, so the call raises `AttributeError` | any press of "🔥 Получить задания на сегодня" by any user, with any store contents | today's status-0 rows are resumed first (the comment at main.py:74), then the quota is checked, then a new selection starts | high; not executed | Session.Chat.StartDailyTasksAsWritten | Session.Chat.StartDailyTasks |
