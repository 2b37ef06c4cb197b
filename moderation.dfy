/**
 * Callback tokens and the operator's report controls. A report is a message
 * whose text the operator's buttons edit by appending or removing fixed
 * markers, and whose keyboard `update_button` relabels in place. The
 * handlers are split into a pure plan (what the new text and button are)
 * and the methods that carry it out on the store, the message and its
 * buttons.
 */
module Moderation {
  import opened Wrappers
  import opened Text
  import opened Tables
  import Store

  // ---------------------------------------------------------------------------
  // Callback tokens: "<scope>_<kind>_<action>_<id>"

  /** `f"{scope}_{kind}_{action}_{id}"`. */
  function Token(scope: string, kind: string, action: string, id: nat): string {
    scope + "_" + kind + "_" + action + "_" + NatToString(id)
  }

  datatype Parsed = Parsed(action: string, id: nat)

  /** `data.split("_")[2]` and `int(data.split("_")[3])`; a missing part or a non-numeric id
      raises, here `None`. */
  function ParseToken(data: string): (r: Option<Parsed>)
    ensures r.Some? ==> |Split(data, "_")| >= 4 && r.value.action == Split(data, "_")[2]
  {
    var parts := Split(data, "_");
    if |parts| < 4 then None
    else
      match ParseNat(parts[3])
      case None => None
      case Some(id) => Some(Parsed(parts[2], id))
  }

  /** Parsing a token recovers its action and id, whatever its scope and kind. */
  lemma TokenRoundTrip(scope: string, kind: string, action: string, id: nat)
    requires '_' !in scope && '_' !in kind && '_' !in action
    ensures ParseToken(Token(scope, kind, action, id)) == Some(Parsed(action, id))
  {
    var n := NatToString(id);
    forall k | 0 <= k < |n| ensures n[k] != '_' {
      assert IsDigit(n[k]);
    }
    SplitToken(scope, kind, action, n);
    ParseNatToString(id);
  }

  /** A token splits at its three underscores into its four parts. */
  lemma SplitToken(scope: string, kind: string, action: string, n: string)
    requires '_' !in scope && '_' !in kind && '_' !in action && '_' !in n
    ensures Split(scope + "_" + kind + "_" + action + "_" + n, "_") == [scope, kind, action, n]
  {
    var t2 := kind + "_" + (action + "_" + n);
    SplitLastThree(kind, action, n);
    SplitUnderscore(scope, t2, [kind, action, n]);
    Regroup(scope, kind, action, n, "_");
  }

  lemma SplitLastThree(kind: string, action: string, n: string)
    requires '_' !in kind && '_' !in action && '_' !in n
    ensures Split(kind + "_" + (action + "_" + n), "_") == [kind, action, n]
  {
    SplitUnderscoreFree(n);
    SplitUnderscore(action, n, [n]);
    SplitUnderscore(kind, action + "_" + n, [action, n]);
  }

  lemma Regroup(a: string, b: string, c: string, d: string, u: string)
    ensures a + u + b + u + c + u + d == a + u + (b + u + (c + u + d))
  {
    assert a + u + b + u + c + u + d == a + u + (b + u + c + u + d);
    assert b + u + c + u + d == b + u + (c + u + d);
  }

  lemma SplitUnderscoreFree(s: string)
    requires '_' !in s
    ensures Split(s, "_") == [s]
  {
    assert "_" == ['_'];
    ContainsChar(s, '_');
    SplitAbsent(s, "_");
  }

  /** An underscore-free head and an underscore split off the front of the parts. */
  lemma SplitUnderscore(head: string, rest: string, parts: seq<string>)
    requires '_' !in head && Split(rest, "_") == parts
    ensures Split(head + "_" + rest, "_") == [head] + parts
  {
    assert "_" == ['_'];
    ContainsChar(head, '_');
    SplitAfter(head, "_", rest);
  }

  /** Which handler a callback reaches: the first registered prefix it starts with. */
  datatype Handler = LearnerText | OperatorText | OperatorMark | OperatorTask | Unhandled

  function Route(data: string): Handler {
    if "user_show_text_" <= data then LearnerText
    else if "adm_text_" <= data then OperatorText
    else if "adm_mark_" <= data then OperatorMark
    else if "adm_task_" <= data then OperatorTask
    else Unhandled
  }

  /** The report's buttons reach the handlers that toggle them. */
  lemma ReportTokensRouted(action: string, id: nat)
    ensures Route(Token("adm", "text", action, id)) == OperatorText
    ensures Route(Token("adm", "mark", action, id)) == OperatorMark
    ensures Route(Token("adm", "task", action, id)) == OperatorTask
    ensures Route(Token("user", "show", "text", id)) == LearnerText
  {
    TextTokenRouted(action, id);
    MarkTokenRouted(action, id);
    TaskTokenRouted(action, id);
    ShowTokenRouted(id);
  }

  lemma TextTokenRouted(action: string, id: nat)
    ensures Route(Token("adm", "text", action, id)) == OperatorText
  {
    var t := Token("adm", "text", action, id);
    assert t == "adm_text_" + (action + "_" + NatToString(id));
    assert t[..9] == "adm_text_" && t[0] != 'u';
  }

  lemma MarkTokenRouted(action: string, id: nat)
    ensures Route(Token("adm", "mark", action, id)) == OperatorMark
  {
    var t := Token("adm", "mark", action, id);
    assert t == "adm_mark_" + (action + "_" + NatToString(id));
    assert t[..9] == "adm_mark_" && t[0] != 'u' && t[4] != 't';
  }

  lemma TaskTokenRouted(action: string, id: nat)
    ensures Route(Token("adm", "task", action, id)) == OperatorTask
  {
    var t := Token("adm", "task", action, id);
    assert t == "adm_task_" + (action + "_" + NatToString(id));
    assert t[..9] == "adm_task_" && t[0] != 'u' && t[5] != 'e' && t[4] != 'm';
  }

  lemma ShowTokenRouted(id: nat)
    ensures Route(Token("user", "show", "text", id)) == LearnerText
  {
    var t := Token("user", "show", "text", id);
    assert t == "user_show_text_" + NatToString(id);
    assert t[..15] == "user_show_text_";
  }

  // ---------------------------------------------------------------------------
  // Report markers and the text edits

  const TextMarker: string := "\n\n\U{1F4DC} <b>Текст произведения:</b>"
  const CorrectMarker: string := "\n\n" + "\U{2705} <b>ВЫ ИЗМЕНИЛИ" + " ЭТОТ ОТВЕТ НА ПРАВИЛЬНЫЙ</b>"
  const DeletedMarker: string := "\n\n" + "\U{1F5D1} <b>ЗАДАНИЕ УДАЛЕНО" + " ИЗ БАЗЫ (СКРЫТО)</b>"

  const ShowLabel: string := "\U{1F4D6} Показать текст"
  const HideLabel: string := "\U{1F4D6} Скрыть текст"
  const MarkWrongLabel: string := "\U{274C} Отметить как неправильное"
  const MarkCorrectLabel: string := "\U{2705} Отметить как правильное"
  const RestoreLabel: string := "\U{267B}\U{FE0F} Вернуть задание в базу"
  const DeleteLabel: string := "\U{1F5D1} Удалить задание из БД"

  /** The passage appended under its heading. */
  function ShowText(current: string, content: string): (r: string)
    ensures r == current + TextMarker + ("\n" + content)
  {
    current + TextMarker + "\n" + content
  }

  /** `current.split(marker)[0]` when the heading is present; otherwise no edit. */
  function HideText(current: string): Option<string> {
    if Contains(current, TextMarker) then Some(Split(current, TextMarker)[0]) else None
  }

  function MarkCorrect(current: string): string {
    current + CorrectMarker
  }

  function UnmarkCorrect(current: string): string {
    Replace(current, CorrectMarker, "")
  }

  function MarkDeleted(current: string): string {
    current + DeletedMarker
  }

  function UnmarkDeleted(current: string): string {
    Replace(current, DeletedMarker, "")
  }

  /** No line break in `s`. */
  predicate SingleLine(s: string) {
    forall k :: 0 <= k < |s| ==> s[k] != '\n'
  }

  lemma SingleLineAppend(a: string, b: string)
    requires SingleLine(a) && SingleLine(b)
    ensures SingleLine(a + b)
  {
    forall k | 0 <= k < |a + b| ensures (a + b)[k] != '\n' {
      if k >= |a| {
        assert (a + b)[k] == b[k - |a|];
      }
    }
  }

  /** Each marker is a blank line followed by a one-line heading, so it is unbordered. */
  lemma BlankLineThenHeading(heading: string)
    requires |heading| > 0 && SingleLine(heading)
    ensures Unbordered("\n\n" + heading)
  {
    var p := "\n\n" + heading;
    forall k | 2 <= k < |p| ensures p[k] != p[0] {
      assert p[k] == heading[k - 2];
    }
    UnborderedByDoubledHead(p);
  }

  lemma TextHeading()
    ensures SingleLine("\U{1F4DC} <b>Текст произведения:</b>")
  {
  }

  lemma CorrectHeadingStart()
    ensures SingleLine("\U{2705} <b>ВЫ ИЗМЕНИЛИ")
  {
  }

  lemma CorrectHeadingEnd()
    ensures SingleLine(" ЭТОТ ОТВЕТ НА ПРАВИЛЬНЫЙ</b>")
  {
  }

  lemma DeletedHeadingStart()
    ensures SingleLine("\U{1F5D1} <b>ЗАДАНИЕ УДАЛЕНО")
  {
  }

  lemma DeletedHeadingEnd()
    ensures SingleLine(" ИЗ БАЗЫ (СКРЫТО)</b>")
  {
  }

  lemma TextMarkerUnbordered()
    ensures Unbordered(TextMarker)
  {
    var h := "\U{1F4DC} <b>Текст произведения:</b>";
    TextHeading();
    BlankLineThenHeading(h);
    assert TextMarker == "\n\n" + h;
  }

  lemma CorrectMarkerUnbordered()
    ensures Unbordered(CorrectMarker)
  {
    var a := "\U{2705} <b>ВЫ ИЗМЕНИЛИ";
    var b := " ЭТОТ ОТВЕТ НА ПРАВИЛЬНЫЙ</b>";
    CorrectHeadingStart();
    CorrectHeadingEnd();
    SingleLineAppend(a, b);
    BlankLineThenHeading(a + b);
    assert CorrectMarker == "\n\n" + a + b;
    assert "\n\n" + a + b == "\n\n" + (a + b);
  }

  lemma DeletedMarkerUnbordered()
    ensures Unbordered(DeletedMarker)
  {
    var a := "\U{1F5D1} <b>ЗАДАНИЕ УДАЛЕНО";
    var b := " ИЗ БАЗЫ (СКРЫТО)</b>";
    DeletedHeadingStart();
    DeletedHeadingEnd();
    SingleLineAppend(a, b);
    BlankLineThenHeading(a + b);
    assert DeletedMarker == "\n\n" + a + b;
    assert "\n\n" + a + b == "\n\n" + (a + b);
  }

  /** Hiding the passage gives back the text it was shown under. */
  lemma HideAfterShow(current: string, content: string)
    requires !Contains(current, TextMarker)
    ensures HideText(ShowText(current, content)) == Some(current)
  {
    HideCutsAtHeading(current, "\n" + content);
  }

  lemma HideCutsAtHeadingThen(current: string, rest: string, tail: string)
    requires !Contains(current, TextMarker)
    ensures HideText(current + TextMarker + rest + tail) == Some(current)
  {
    assert current + TextMarker + rest + tail == current + TextMarker + (rest + tail);
    HideCutsAtHeading(current, rest + tail);
  }

  /** Hiding keeps exactly the text before the first passage heading, whatever follows it. */
  lemma HideCutsAtHeading(current: string, rest: string)
    requires !Contains(current, TextMarker)
    ensures HideText(current + TextMarker + rest) == Some(current)
  {
    TextMarkerUnbordered();
    FirstOccurrenceAfter(current, TextMarker, rest);
    SplitAfter(current, TextMarker, rest);
  }

  /** There is nothing to hide in a report that shows no passage. */
  lemma HideWithoutPassage(current: string)
    requires !Contains(current, TextMarker)
    ensures HideText(current).None?
  {
  }

  /** Marking wrong after marking correct gives back the text. */
  lemma UnmarkAfterMark(current: string)
    requires !Contains(current, CorrectMarker)
    ensures UnmarkCorrect(MarkCorrect(current)) == current
  {
    CorrectMarkerUnbordered();
    RemoveAppended(current, CorrectMarker);
  }

  /** Restoring after deleting gives back the text. */
  lemma RestoreAfterDelete(current: string)
    requires !Contains(current, DeletedMarker)
    ensures UnmarkDeleted(MarkDeleted(current)) == current
  {
    DeletedMarkerUnbordered();
    RemoveAppended(current, DeletedMarker);
  }

  // ---------------------------------------------------------------------------
  // Buttons and `update_button`

  class Button {
    var text: string
    var callbackData: string

    constructor (text: string, callbackData: string)
      ensures this.text == text && this.callbackData == callbackData
    {
      this.text := text;
      this.callbackData := callbackData;
    }
  }

  /** Every position of the keyboard holds its own button. */
  ghost predicate DistinctButtons(rows: seq<seq<Button>>) {
    forall i, j, k, l ::
      0 <= i < |rows| && 0 <= j < |rows[i]| && 0 <= k < |rows| && 0 <= l < |rows[k]| && (i != k || j != l) ==>
        rows[i][j] != rows[k][l]
  }

  /** The button `update_button` relabels: the first of the row, when there is one. */
  function Target(rows: seq<seq<Button>>, rowIndex: nat): set<Button> {
    if rowIndex < |rows| && |rows[rowIndex]| > 0 then {rows[rowIndex][0]} else {}
  }

  /** `update_button`: relabel the first button of a row in place and return the same rows;
      a missing or empty row leaves the keyboard as it was. */
  method UpdateButton(rows: seq<seq<Button>>, rowIndex: nat, newText: string, newCallback: string)
    returns (r: seq<seq<Button>>)
    requires DistinctButtons(rows)
    modifies Target(rows, rowIndex)
    ensures r == rows
    ensures rowIndex < |rows| && |rows[rowIndex]| > 0 ==>
      rows[rowIndex][0].text == newText && rows[rowIndex][0].callbackData == newCallback
    ensures forall i, j :: 0 <= i < |rows| && 0 <= j < |rows[i]| && (i != rowIndex || j != 0) ==>
      rows[i][j].text == old(rows[i][j].text) && rows[i][j].callbackData == old(rows[i][j].callbackData)
  {
    if rowIndex < |rows| && |rows[rowIndex]| > 0 {
      rows[rowIndex][0].text := newText;
      rows[rowIndex][0].callbackData := newCallback;
    }
    r := rows;
  }

  /** An operator report as the handlers see it: its HTML text and its keyboard. */
  class Report {
    var text: string
    var rows: seq<seq<Button>>

    ghost predicate Valid()
      reads this
    {
      DistinctButtons(rows)
    }

    constructor (text: string, rows: seq<seq<Button>>)
      requires DistinctButtons(rows)
      ensures Valid() && this.text == text && this.rows == rows
    {
      this.text := text;
      this.rows := rows;
    }
  }

  // ---------------------------------------------------------------------------
  // The handlers' plans

  /** What a handler does with the report: fail, alert, answer without an edit, or edit the
      text and relabel one button. */
  datatype Plan = Crash | NotFound | Quiet | Edit(text: string, row: nat, caption: string, callback: string)

  /** `admin_toggle_text`, given the report text, the parsed token and, for "show", the
      passage found for the result id. */
  function TextPlan(current: string, token: Option<Parsed>, passage: Option<string>): Plan {
    match token
    case None => Crash
    case Some(Parsed(action, id)) =>
      if action == "show" then
        if passage.None? || passage.value == [] then NotFound
        else Edit(ShowText(current, passage.value), 0, HideLabel, Token("adm", "text", "hide", id))
      else if action == "hide" then
        match HideText(current)
        case Some(shorter) => Edit(shorter, 0, ShowLabel, Token("adm", "text", "show", id))
        case None => Quiet
      else Quiet
  }

  /** `admin_toggle_status`: any action but "correct" or "wrong" reaches the edit with no new
      text and fails. */
  function StatusPlan(current: string, token: Option<Parsed>): Plan {
    match token
    case None => Crash
    case Some(Parsed(action, id)) =>
      if action == "correct" then
        Edit(MarkCorrect(current), 1, MarkWrongLabel, Token("adm", "mark", "wrong", id))
      else if action == "wrong" then
        Edit(UnmarkCorrect(current), 1, MarkCorrectLabel, Token("adm", "mark", "correct", id))
      else Crash
  }

  /** `admin_toggle_task_active`, likewise with "del" and "res". */
  function TaskPlan(current: string, token: Option<Parsed>): Plan {
    match token
    case None => Crash
    case Some(Parsed(action, id)) =>
      if action == "del" then
        Edit(MarkDeleted(current), 2, RestoreLabel, Token("adm", "task", "res", id))
      else if action == "res" then
        Edit(UnmarkDeleted(current), 2, DeleteLabel, Token("adm", "task", "del", id))
      else Crash
  }

  /** Show, then hide: the text and the first button are back as they were. */
  lemma ShowThenHide(current: string, resultId: nat, passage: string)
    requires !Contains(current, TextMarker) && passage != []
    ensures var shown := TextPlan(current, ParseToken(Token("adm", "text", "show", resultId)), Some(passage));
      shown == Edit(ShowText(current, passage), 0, HideLabel, Token("adm", "text", "hide", resultId)) &&
      TextPlan(shown.text, ParseToken(shown.callback), None) ==
        Edit(current, 0, ShowLabel, Token("adm", "text", "show", resultId))
  {
    TokenRoundTrip("adm", "text", "show", resultId);
    TokenRoundTrip("adm", "text", "hide", resultId);
    HideAfterShow(current, passage);
  }

  /** Mark correct, then wrong: the text and the second button are back as they were. */
  lemma CorrectThenWrong(current: string, resultId: nat)
    requires !Contains(current, CorrectMarker)
    ensures var marked := StatusPlan(current, ParseToken(Token("adm", "mark", "correct", resultId)));
      marked == Edit(MarkCorrect(current), 1, MarkWrongLabel, Token("adm", "mark", "wrong", resultId)) &&
      StatusPlan(marked.text, ParseToken(marked.callback)) ==
        Edit(current, 1, MarkCorrectLabel, Token("adm", "mark", "correct", resultId))
  {
    TokenRoundTrip("adm", "mark", "correct", resultId);
    TokenRoundTrip("adm", "mark", "wrong", resultId);
    UnmarkAfterMark(current);
  }

  /** Delete, then restore: the text and the third button are back as they were. */
  lemma DeleteThenRestore(current: string, taskId: nat)
    requires !Contains(current, DeletedMarker)
    ensures var deleted := TaskPlan(current, ParseToken(Token("adm", "task", "del", taskId)));
      deleted == Edit(MarkDeleted(current), 2, RestoreLabel, Token("adm", "task", "res", taskId)) &&
      TaskPlan(deleted.text, ParseToken(deleted.callback)) ==
        Edit(current, 2, DeleteLabel, Token("adm", "task", "del", taskId))
  {
    TokenRoundTrip("adm", "task", "del", taskId);
    TokenRoundTrip("adm", "task", "res", taskId);
    RestoreAfterDelete(current);
  }

  /** Once a passage is shown, hiding it cuts the report at the passage heading, so a
      correct-marker added after the passage is cut off with it. */
  lemma HideDropsLaterMarks(current: string, passage: string)
    requires !Contains(current, TextMarker)
    ensures HideText(MarkCorrect(ShowText(current, passage))) == Some(current)
    ensures HideText(MarkDeleted(ShowText(current, passage))) == Some(current)
  {
    HideCutsAtHeadingThen(current, "\n" + passage, CorrectMarker);
    HideCutsAtHeadingThen(current, "\n" + passage, DeletedMarker);
  }

  // ---------------------------------------------------------------------------
  // The handlers

  /** Every button of a keyboard. */
  function Buttons(rows: seq<seq<Button>>): set<Button> {
    set i, j | 0 <= i < |rows| && 0 <= j < |rows[i]| :: rows[i][j]
  }

  /** The report after a plan is carried out: an edit replaces the text and relabels the first
      button of its row (when that row has one); anything else leaves the report alone. */
  twostate predicate Applied(msg: Report, plan: Plan)
    reads msg, Buttons(msg.rows)
  {
    msg.rows == old(msg.rows) &&
    msg.text == (if plan.Edit? then plan.text else old(msg.text)) &&
    forall i, j :: 0 <= i < |msg.rows| && 0 <= j < |msg.rows[i]| ==>
      if plan.Edit? && i == plan.row && j == 0 then
        msg.rows[i][j].text == plan.caption && msg.rows[i][j].callbackData == plan.callback
      else
        msg.rows[i][j].text == old(msg.rows[i][j].text) &&
        msg.rows[i][j].callbackData == old(msg.rows[i][j].callbackData)
  }

  /** `edit_text(new_text, reply_markup=update_button(...))`. */
  method Apply(msg: Report, plan: Plan, row: nat)
    requires msg.Valid() && (plan.Edit? ==> plan.row == row)
    modifies msg`text, Target(msg.rows, row)
    ensures msg.Valid() && Applied(msg, plan)
  {
    if plan.Edit? {
      var rows := UpdateButton(msg.rows, plan.row, plan.caption, plan.callback);
      msg.text := plan.text;
    }
  }

  /** The passage `admin_toggle_text` would show: `get_task_text_by_result_id(result_id)`. */
  function PassageFor(db: Store.Database, token: Option<Parsed>): (passage: Option<string>)
    reads db
    ensures token.None? ==> passage.None?
    ensures token.Some? ==> passage == db.GetTaskTextByResultId(token.value.id)
  {
    if token.Some? then db.GetTaskTextByResultId(token.value.id) else None
  }

  /** `admin_toggle_text`: show or hide the passage under a report; the store is only read. */
  method AdminToggleText(db: Store.Database, msg: Report, data: string) returns (plan: Plan)
    requires msg.Valid()
    modifies msg`text, Target(msg.rows, 0)
    ensures plan == TextPlan(old(msg.text), ParseToken(data), PassageFor(db, ParseToken(data)))
    ensures msg.Valid() && Applied(msg, plan)
  {
    var token := ParseToken(data);
    plan := TextPlan(msg.text, token, PassageFor(db, token));
    Apply(msg, plan, 0);
  }

  /** What `admin_toggle_status` writes to the store: status 1 on "correct", 2 on "wrong". */
  function StatusEffect(results: seq<ResultRow>, token: Option<Parsed>): (r: seq<ResultRow>)
    ensures token.Some? && token.value.action == "correct" ==>
      r == WithStatus(results, token.value.id, Correct)
    ensures token.Some? && token.value.action == "wrong" ==>
      r == WithStatus(results, token.value.id, Incorrect)
    ensures token.None? || (token.value.action != "correct" && token.value.action != "wrong") ==>
      r == results
  {
    match token
    case None => results
    case Some(Parsed(action, id)) =>
      if action == "correct" then WithStatus(results, id, Correct)
      else if action == "wrong" then WithStatus(results, id, Incorrect)
      else results
  }

  /** The verdict reaches only the rows whose id is the token's, and changes nothing but
      their status: to correct on "correct", to wrong on "wrong". */
  lemma StatusEffectScope(results: seq<ResultRow>, token: Option<Parsed>)
    ensures var r := StatusEffect(results, token);
      |r| == |results| &&
      forall k :: 0 <= k < |results| ==>
        r[k] == results[k].(status := r[k].status) &&
        (r[k] != results[k] ==>
           token.Some? && results[k].id == token.value.id &&
           r[k].status == (if token.value.action == "correct" then Correct else Incorrect))
  {
  }

  /** `admin_toggle_status`: record the operator's verdict on a result and mark the report. */
  method AdminToggleStatus(db: Store.Database, msg: Report, data: string) returns (plan: Plan)
    requires db.Valid() && msg.Valid()
    modifies db`results, msg`text, Target(msg.rows, 1)
    ensures db.Valid() && db.results == StatusEffect(old(db.results), ParseToken(data))
    ensures plan == StatusPlan(old(msg.text), ParseToken(data))
    ensures msg.Valid() && Applied(msg, plan)
  {
    var token := ParseToken(data);
    if token.Some? && token.value.action == "correct" {
      db.ToggleResultStatus(token.value.id, Correct);
    } else if token.Some? && token.value.action == "wrong" {
      db.ToggleResultStatus(token.value.id, Incorrect);
    }
    plan := StatusPlan(msg.text, token);
    Apply(msg, plan, 1);
  }

  /** What `admin_toggle_task_active` writes to the store: inactive on "del", active on "res". */
  function TaskEffect(tasks: seq<Task>, token: Option<Parsed>): (r: seq<Task>)
    ensures token.Some? && token.value.action == "del" ==> r == WithActive(tasks, token.value.id, false)
    ensures token.Some? && token.value.action == "res" ==> r == WithActive(tasks, token.value.id, true)
    ensures token.None? || (token.value.action != "del" && token.value.action != "res") ==> r == tasks
  {
    match token
    case None => tasks
    case Some(Parsed(action, id)) =>
      if action == "del" then WithActive(tasks, id, false)
      else if action == "res" then WithActive(tasks, id, true)
      else tasks
  }

  /** Retiring or restoring reaches only the task whose id is the token's, and changes
      nothing but its `is_active` flag: off on "del", on on "res". */
  lemma TaskEffectScope(tasks: seq<Task>, token: Option<Parsed>)
    ensures var r := TaskEffect(tasks, token);
      |r| == |tasks| &&
      forall k :: 0 <= k < |tasks| ==>
        r[k] == tasks[k].(active := r[k].active) &&
        (r[k] != tasks[k] ==>
           token.Some? && tasks[k].id == token.value.id &&
           r[k].active == (token.value.action == "res"))
  {
  }

  /** `admin_toggle_task_active`: retire or restore a task and mark the report. */
  method AdminToggleTaskActive(db: Store.Database, msg: Report, data: string) returns (plan: Plan)
    requires db.Valid() && msg.Valid()
    modifies db`tasks, msg`text, Target(msg.rows, 2)
    ensures db.Valid() && db.tasks == TaskEffect(old(db.tasks), ParseToken(data))
    ensures plan == TaskPlan(old(msg.text), ParseToken(data))
    ensures msg.Valid() && Applied(msg, plan)
  {
    var token := ParseToken(data);
    if token.Some? && token.value.action == "del" {
      db.ToggleTaskActiveStatus(token.value.id, false);
    } else if token.Some? && token.value.action == "res" {
      db.ToggleTaskActiveStatus(token.value.id, true);
    }
    plan := TaskPlan(msg.text, token);
    Apply(msg, plan, 2);
  }

  /** The reply to a learner's "show text" button. */
  datatype ShowReply = ShowFailed | TextNotFound | Passage(text: string)

  /** `user_show_text`: the stored passage of the task, when it has a non-empty one. */
  function UserShowText(tasks: seq<Task>, data: string): (reply: ShowReply)
    ensures reply.ShowFailed? <==> ParseToken(data).None?
    ensures reply.Passage? <==>
      ParseToken(data).Some? && FindTask(tasks, ParseToken(data).value.id).Some? &&
      FindTask(tasks, ParseToken(data).value.id).value.content.Some? &&
      FindTask(tasks, ParseToken(data).value.id).value.content.value != []
    ensures reply.Passage? ==>
      reply.text == FindTask(tasks, ParseToken(data).value.id).value.content.value
  {
    match ParseToken(data)
    case None => ShowFailed
    case Some(Parsed(_, id)) =>
      match FindTask(tasks, id)
      case Some(t) =>
        if t.content.Some? && t.content.value != [] then Passage(t.content.value) else TextNotFound
      case None => TextNotFound
  }

  /** The learner's button on a task reaches the passage of exactly that task. */
  lemma ShowButtonFindsTask(tasks: seq<Task>, t: Task)
    requires t in tasks && TaskIdsUnique(tasks) && t.content.Some? && t.content.value != []
    ensures UserShowText(tasks, Token("user", "show", "text", t.id)) == Passage(t.content.value)
  {
    TokenRoundTrip("user", "show", "text", t.id);
    FindTaskIn(tasks, t);
  }

  /** The learner's button on a task without a passage, or on a task no longer stored,
      gets the "not found" alert. */
  lemma ShowButtonNotFound(tasks: seq<Task>, id: nat)
    requires forall k :: 0 <= k < |tasks| && tasks[k].id == id ==>
      tasks[k].content.None? || tasks[k].content.value == []
    ensures UserShowText(tasks, Token("user", "show", "text", id)) == TextNotFound
  {
    TokenRoundTrip("user", "show", "text", id);
  }

  /** With unique ids, looking a task up by its own id finds that task. */
  lemma FindTaskIn(tasks: seq<Task>, t: Task)
    requires t in tasks && TaskIdsUnique(tasks)
    ensures FindTask(tasks, t.id) == Some(t)
  {
    var i :| 0 <= i < |tasks| && tasks[i] == t;
    var r := FindTask(tasks, t.id);
    assert r.Some? by {
      assert tasks[i].id == t.id;
    }
    var j :| 0 <= j < |tasks| && tasks[j] == r.value;
    assert tasks[i].id == tasks[j].id;
  }
}
