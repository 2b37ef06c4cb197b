/**
 * Answer-spec extraction and the one store write of the scraper: the text of a
 * task card is searched for the answer marker, the answer line is cut out,
 * alternatives joined by " ИЛИ " / " или " become `|`-separated variants, and
 * the spec is lower-cased; a task is stored only with a non-empty spec that
 * is not already stored for the same question.
 */
module Ingest {
  import opened Wrappers
  import opened Text
  import opened Tables
  import Store

  const AnswerMarker: string := "Ответ:"
  const SourceMarker: string := "Источник"

  /** The line after the marker: the whole remainder stripped, then its first line. */
  function AnswerLine(tail: string): string {
    Split(Strip(tail), "\n")[0]
  }

  /** A source reference on the answer line is cut off, and what precedes it stripped. */
  function CutSource(line: string): string {
    if Contains(line, SourceMarker) then Strip(Split(line, SourceMarker)[0]) else line
  }

  /** `.replace(" ИЛИ ", "|").replace(" или ", "|")`. */
  function JoinAlternatives(s: string): string {
    Replace(Replace(s, " ИЛИ ", "|"), " или ", "|")
  }

  /** The spec extracted from the text that follows the answer marker. */
  function AnswerOf(tail: string): string {
    Lower(JoinAlternatives(CutSource(AnswerLine(tail))))
  }

  /** `parse_answer_from_text`. */
  function ParseAnswerFromText(fullText: string): (r: Option<string>) {
    if Contains(fullText, AnswerMarker) then
      var parts := Split(fullText, AnswerMarker);
      if |parts| > 1 then Some(AnswerOf(parts[|parts| - 1])) else None
    else None
  }

  /** A spec is extracted exactly when the card mentions the marker (possibly an empty one). */
  lemma ParseSomeIff(fullText: string)
    ensures ParseAnswerFromText(fullText).Some? <==> Contains(fullText, AnswerMarker)
  {
    SplitManyIff(fullText, AnswerMarker);
  }

  lemma MarkerUnbordered()
    ensures Unbordered(AnswerMarker)
  {
    UnborderedByHead(AnswerMarker);
  }

  /** Only the text after the last marker matters. */
  lemma AnswerAfterLastMarker(head: string, tail: string)
    requires !Contains(tail, AnswerMarker)
    ensures ParseAnswerFromText(head + AnswerMarker + tail) == Some(AnswerOf(tail))
  {
    LastPartAfterMarker(head, tail);
  }

  lemma LastPartAfterMarker(head: string, tail: string)
    requires !Contains(tail, AnswerMarker)
    ensures var s := head + AnswerMarker + tail; var parts := Split(s, AnswerMarker);
      Contains(s, AnswerMarker) && |parts| > 1 && parts[|parts| - 1] == tail
  {
    MarkerUnbordered();
    SplitLastAfter(head, AnswerMarker, tail);
    SplitManyIff(head + AnswerMarker + tail, AnswerMarker);
  }

  /** The answer line is the whole first line of the stripped remainder: it starts the
      remainder, holds no newline, and runs up to the first newline or to the end. */
  lemma AnswerLineShape(tail: string)
    ensures var line := AnswerLine(tail);
      line <= Strip(tail) && '\n' !in line &&
      (|line| == |Strip(tail)| || Strip(tail)[|line|] == '\n')
  {
    var parts := Split(Strip(tail), "\n");
    SplitPartsFree(Strip(tail), "\n");
    ContainsChar(parts[0], '\n');
    if Contains(Strip(tail), "\n") {
      SplitHead(Strip(tail), "\n");
      var i := IndexOf(Strip(tail), "\n").value;
      assert OccursAt(Strip(tail), "\n", i);
      assert Strip(tail)[i..i + 1][0] == Strip(tail)[i];
    } else {
      SplitAbsent(Strip(tail), "\n");
    }
  }

  /** With a source reference on the line, the spec is built from the stripped text before
      its first occurrence. */
  lemma SourceCutAtFirst(line: string)
    requires Contains(line, SourceMarker)
    ensures CutSource(line) == Strip(line[..IndexOf(line, SourceMarker).value])
  {
    SplitHead(line, SourceMarker);
  }

  /** Cutting the source keeps a piece of the line, so no newline appears. */
  lemma CutSourceInside(line: string)
    requires '\n' !in line
    ensures '\n' !in CutSource(line)
  {
    if Contains(line, SourceMarker) {
      SplitHead(line, SourceMarker);
      var before := line[..IndexOf(line, SourceMarker).value];
      forall k | 0 <= k < |before| ensures before[k] != '\n' {
        assert before[k] == line[k];
      }
      StripKeepsOut(before, '\n');
    }
  }

  /** No " ИЛИ " or " или " separator survives: both became `|`. */
  lemma NoSeparatorsLeft(s: string)
    ensures !Contains(JoinAlternatives(s), " ИЛИ ")
    ensures !Contains(JoinAlternatives(s), " или ")
  {
    var once := Replace(s, " ИЛИ ", "|");
    ReplaceFree(s, " ИЛИ ", '|', " ИЛИ ");
    ReplaceFree(once, " или ", '|', " ИЛИ ");
    ReplaceFree(once, " или ", '|', " или ");
  }

  /** Joining the alternatives introduces no newline. */
  lemma JoinAlternativesNoNewline(s: string)
    requires '\n' !in s
    ensures '\n' !in JoinAlternatives(s)
  {
    var once := Replace(s, " ИЛИ ", "|");
    ContainsChar(s, '\n');
    ReplaceFree(s, " ИЛИ ", '|', "\n");
    ContainsChar(once, '\n');
    ReplaceFree(once, " или ", '|', "\n");
    ContainsChar(JoinAlternatives(s), '\n');
  }

  /** The spec is a single line. */
  lemma AnswerSingleLine(tail: string)
    ensures '\n' !in AnswerOf(tail)
  {
    AnswerLineShape(tail);
    CutSourceInside(AnswerLine(tail));
    var joined := JoinAlternatives(CutSource(AnswerLine(tail)));
    JoinAlternativesNoNewline(CutSource(AnswerLine(tail)));
    forall k | 0 <= k < |joined| ensures Lower(joined)[k] != '\n' {
      assert joined[k] != '\n';
    }
  }

  /** The spec is already lower-case, as the answer check compares it with a lower-cased message. */
  lemma AnswerLowercase(tail: string)
    ensures Lower(AnswerOf(tail)) == AnswerOf(tail)
  {
    LowerIdempotent(JoinAlternatives(CutSource(AnswerLine(tail))));
  }

  /** A task with this question and spec is already stored. */
  predicate HasQA(tasks: seq<Task>, question: string, answer: string) {
    exists k :: 0 <= k < |tasks| && tasks[k].question == question && tasks[k].answer == answer
  }

  /** No two stored tasks share both question and spec. */
  ghost predicate UniqueQA(tasks: seq<Task>) {
    forall i, j :: 0 <= i < j < |tasks| ==>
      tasks[i].question != tasks[j].question || tasks[i].answer != tasks[j].answer
  }

  /** The write rule of the scraper: with a non-empty spec that is not yet stored for the
      question, insert an active task without options. */
  method StoreParsedTask(db: Store.Database, line: int, question: string, content: Option<string>,
                         answer: Option<string>) returns (inserted: bool)
    requires db.Valid()
    modifies db`tasks, db`nextTaskId
    ensures db.Valid()
    ensures inserted <==> answer.Some? && answer.value != [] && !HasQA(old(db.tasks), question, answer.value)
    ensures db.tasks == if inserted
      then old(db.tasks) + [Task(old(db.nextTaskId), line, question, None, content, answer.value, true)]
      else old(db.tasks)
  {
    inserted := false;
    if answer.Some? && answer.value != [] {
      if !HasQA(db.tasks, question, answer.value) {
        var _ := db.AddTask(line, question, None, content, answer.value);
        inserted := true;
      }
    }
  }

  /** The insert rule keeps (question, spec) pairs unique. */
  lemma InsertKeepsQAUnique(tasks: seq<Task>, t: Task)
    requires UniqueQA(tasks) && !HasQA(tasks, t.question, t.answer)
    ensures UniqueQA(tasks + [t])
  {
    var all := tasks + [t];
    forall i, j | 0 <= i < j < |all|
      ensures all[i].question != all[j].question || all[i].answer != all[j].answer
    {
      if j == |tasks| {
        assert all[i] == tasks[i];
      }
    }
  }

  /** Retiring or restoring tasks keeps (question, spec) pairs unique. */
  lemma ActiveToggleKeepsQAUnique(tasks: seq<Task>, taskId: nat, active: bool)
    requires UniqueQA(tasks)
    ensures UniqueQA(WithActive(tasks, taskId, active))
  {
  }
}
