/**
 * The answer check of `check_answer`: the accepted-answer spec of a task is a
 * `|`-separated list of variants; the learner's message is stripped and
 * lower-cased; on line 8 only its digits are compared, on every other line
 * the whole normalised text must equal one variant.
 */
module Grading {
  import opened Text

  /** The exam line whose answers are digit sequences. */
  const DigitLine: int := 8

  /** `db_answer.split("|")`. */
  function Variants(spec: string): (vs: seq<string>)
    ensures |vs| >= 1
  {
    Split(spec, "|")
  }

  /** `message.text.strip().lower()`. */
  function Normalize(submitted: string): string {
    Lower(Strip(submitted))
  }

  /** What is compared with the variants: the digits of the normalised text on line 8,
      the normalised text elsewhere. */
  function Candidate(line: int, submitted: string): string {
    if line == DigitLine then DigitsOf(Normalize(submitted)) else Normalize(submitted)
  }

  /** The answer is correct: its candidate equals some variant exactly. */
  predicate Accepts(line: int, spec: string, submitted: string) {
    exists i :: 0 <= i < |Variants(spec)| && Variants(spec)[i] == Candidate(line, submitted)
  }

  /** The check as the handler runs it: a scan of the variants that stops at the first
      match on line 8, list membership elsewhere. */
  method CheckAnswer(line: int, spec: string, submitted: string) returns (isCorrect: bool)
    ensures isCorrect <==> Accepts(line, spec, submitted)
  {
    var userAnswer := Normalize(submitted);
    var variants := Variants(spec);
    AcceptsIff(line, spec, submitted);
    if line == DigitLine {
      var cleanUser := DigitsOf(userAnswer);
      isCorrect := ScanVariants(variants, cleanUser);
    } else {
      isCorrect := userAnswer in variants;
    }
  }

  /** The line-8 scan: walk the variants in order and stop at the first one equal to
      the digits of the message. */
  method ScanVariants(variants: seq<string>, cleanUser: string) returns (found: bool)
    ensures found <==> cleanUser in variants
  {
    found := false;
    var i := 0;
    while i < |variants|
      invariant 0 <= i <= |variants|
      invariant found ==> cleanUser in variants
      invariant !found ==> forall k :: 0 <= k < i ==> variants[k] != cleanUser
      decreases |variants| - i, if found then 0 else 1
    {
      if cleanUser == variants[i] {
        found := true;
        break;
      }
      i := i + 1;
    }
  }

  lemma AcceptsIff(line: int, spec: string, submitted: string)
    ensures Accepts(line, spec, submitted) <==> Candidate(line, submitted) in Variants(spec)
  {
  }

  /** On line 8 only the digits of the message count: neither spacing, punctuation, letters
      nor case matter. */
  lemma DigitLineIff(spec: string, submitted: string)
    ensures Accepts(DigitLine, spec, submitted) <==> DigitsOf(submitted) in Variants(spec)
  {
    DigitsOfStrip(submitted);
    DigitsOfLower(Strip(submitted));
  }

  /** Elsewhere the comparison is exact membership of the whole normalised text, with no
      substring or partial match. */
  lemma OtherLinesIff(line: int, spec: string, submitted: string)
    requires line != DigitLine
    ensures Accepts(line, spec, submitted) <==> Lower(Strip(submitted)) in Variants(spec)
  {
  }

  /** The verdict does not depend on the case of the message. */
  lemma CaseInsensitive(line: int, spec: string, submitted: string)
    ensures Accepts(line, spec, Lower(submitted)) <==> Accepts(line, spec, submitted)
  {
    NormalizeLower(submitted);
    SameCandidate(line, spec, Lower(submitted), submitted);
  }

  lemma NormalizeLower(submitted: string)
    ensures Normalize(Lower(submitted)) == Normalize(submitted)
  {
    StripLower(submitted);
    LowerIdempotent(Strip(submitted));
  }

  /** Two messages with the same normal form get the same verdict. */
  lemma SameCandidate(line: int, spec: string, a: string, b: string)
    requires Normalize(a) == Normalize(b)
    ensures Accepts(line, spec, a) <==> Accepts(line, spec, b)
  {
    assert Candidate(line, a) == Candidate(line, b);
  }

  /** The verdict does not depend on whitespace around the message. */
  lemma PaddingIgnored(line: int, spec: string, ws1: string, submitted: string, ws2: string)
    requires AllSpace(ws1) && AllSpace(ws2)
    ensures Accepts(line, spec, ws1 + submitted + ws2) <==> Accepts(line, spec, submitted)
  {
    StripPadded(ws1, submitted, ws2);
    SameCandidate(line, spec, ws1 + submitted + ws2, submitted);
  }

  /** A spec without a bar is a single variant. */
  lemma OneVariant(a: string)
    requires '|' !in a
    ensures Variants(a) == [a]
  {
    ContainsChar(a, '|');
    SplitAbsent(a, "|");
  }

  /** A spec `a|b` with bar-free `a` and `b` holds exactly the two variants. */
  lemma TwoVariants(a: string, b: string)
    requires '|' !in a && '|' !in b
    ensures Variants(a + "|" + b) == [a, b]
  {
    ContainsChar(a, '|');
    SplitAfter(a, "|", b);
    OneVariant(b);
  }

  /** Line 8: a variant equal to the digits of the message makes it correct. */
  lemma DigitsMatch(spec: string, submitted: string, i: int)
    requires 0 <= i < |Variants(spec)| && Variants(spec)[i] == DigitsOf(submitted)
    ensures Accepts(DigitLine, spec, submitted)
  {
    DigitLineIff(spec, submitted);
  }

  /** Line 8: "1 4 6" is the answer "146". */
  lemma SpacedDigitsAccepted()
    ensures Accepts(DigitLine, "146", "1 4 6")
  {
    assert "1 4 6" == "1 " + "4 " + "6";
    DigitsOfAppend("1 " + "4 ", "6");
    DigitsOfAppend("1 ", "4 ");
    assert DigitsOf("1 ") == "1";
    assert DigitsOf("4 ") == "4";
    assert DigitsOf("6") == "6";
    OneVariant("146");
    DigitsMatch("146", "1 4 6", 0);
  }

  /** Line 8: the digits may come with any separators, and any variant may match. */
  lemma PunctuatedDigitsAccepted()
    ensures Accepts(DigitLine, "146|164", "1, 6, 4")
  {
    PunctuatedDigits();
    DigitVariants();
    DigitsMatch("146|164", "1, 6, 4", 1);
  }

  lemma PunctuatedDigits()
    ensures DigitsOf("1, 6, 4") == "164"
  {
    assert "1, 6, 4" == "1, " + "6, " + "4";
    DigitsOfAppend("1, " + "6, ", "4");
    DigitsOfAppend("1, ", "6, ");
    assert DigitsOf("1, ") == "1";
    assert DigitsOf("6, ") == "6";
    assert DigitsOf("4") == "4";
  }

  lemma DigitVariants()
    ensures Variants("146|164") == ["146", "164"]
  {
    TwoVariants("146", "164");
    assert "146" + "|" + "164" == "146|164";
  }

  /** Line 8: a prefix of the digits is not the answer. */
  lemma MissingDigitRejected()
    ensures !Accepts(DigitLine, "146", "14")
  {
    DigitLineIff("146", "14");
    OneVariant("146");
    assert DigitsOf("14") == "14";
  }

  /** Other lines: "Онегин " matches the variant "онегин". */
  lemma CaseAndSpaceAccepted()
    ensures Accepts(1, "онегин|евгений онегин", "Онегин ")
  {
    var spec := "онегин|евгений онегин";
    PaddingIgnored(1, spec, "", "Онегин", " ");
    assert "" + "Онегин" + " " == "Онегин ";
    CaseInsensitive(1, spec, "Онегин");
    CapitalLowered();
    ExactVariantAccepted();
  }

  lemma ExactVariantAccepted()
    ensures Accepts(1, "онегин|евгений онегин", "онегин")
  {
    NameVariants();
    AlreadyNormal();
    VariantMatch(1, "онегин|евгений онегин", "онегин", 0);
  }

  lemma NameVariants()
    ensures Variants("онегин|евгений онегин") == ["онегин", "евгений онегин"]
  {
    TwoVariants("онегин", "евгений онегин");
    assert "онегин" + "|" + "евгений онегин" == "онегин|евгений онегин";
  }

  lemma AlreadyNormal()
    ensures Candidate(1, "онегин") == "онегин"
  {
    var s := "онегин";
    forall k | 0 <= k < |s| ensures LowerChar(s[k]) == s[k] {
    }
    NormalFixed(1, s);
  }

  /** Off line 8, a message that is already stripped and lower-case is its own candidate. */
  lemma NormalFixed(line: int, s: string)
    requires line != DigitLine
    requires s == [] || (!IsSpace(s[0]) && !IsSpace(s[|s| - 1]))
    requires forall k :: 0 <= k < |s| ==> LowerChar(s[k]) == s[k]
    ensures Candidate(line, s) == s
  {
    NoPadding(s);
    LowerFixed(s);
    calc {
      Candidate(line, s);
      Normalize(s);
      Lower(Strip(s));
      { assert Strip(s) == s; }
      Lower(s);
    }
  }

  /** A variant equal to the candidate makes the answer correct. */
  lemma VariantMatch(line: int, spec: string, submitted: string, i: int)
    requires 0 <= i < |Variants(spec)| && Variants(spec)[i] == Candidate(line, submitted)
    ensures Accepts(line, spec, submitted)
  {
  }

  lemma CapitalLowered()
    ensures Lower("Онегин") == "онегин"
  {
    var r := Lower("Онегин");
    forall k | 0 <= k < 6 ensures r[k] == "онегин"[k] {
      assert r[k] == LowerChar("Онегин"[k]);
    }
  }

  /** A string that neither starts nor ends with whitespace is its own `strip()`. */
  lemma NoPadding(s: string)
    requires s == [] || (!IsSpace(s[0]) && !IsSpace(s[|s| - 1]))
    ensures Strip(s) == s
  {
  }

  /** A string of characters that `lower()` keeps is its own `lower()`. */
  lemma LowerFixed(s: string)
    requires forall k :: 0 <= k < |s| ==> LowerChar(s[k]) == s[k]
    ensures Lower(s) == s
  {
  }

  /** Other lines: a message no longer than part of the only variant does not match it. */
  lemma PartialRejected()
    ensures !Accepts(1, "евгений онегин", "онегин")
  {
    OneVariant("евгений онегин");
    ShorterRejected(1, "евгений онегин", "онегин");
  }

  /** A message shorter than every variant is never accepted off line 8. */
  lemma ShorterRejected(line: int, spec: string, submitted: string)
    requires line != DigitLine
    requires forall i :: 0 <= i < |Variants(spec)| ==> |submitted| < |Variants(spec)[i]|
    ensures !Accepts(line, spec, submitted)
  {
    var r := Strip(submitted);
    var i :| StrippedAt(submitted, r, i);
    assert |Candidate(line, submitted)| <= |submitted|;
  }
}
