/**
 * The handful of Python `str` operations the bot relies on, written out so
 * that their edge cases are the interpreter's:
 * `p in s`, `s.split(sep)`, `sep.join(parts)`, `s.replace(old, new)`,
 * `s.strip()`, `s.split()`, `s.lower()`, `str.isdigit` and `int(s)` / `str(n)`
 * on decimal identifiers.
 */
module Text {
  import opened Wrappers

  /** `p` occurs in `s` starting at index `i`. */
  predicate OccursAt(s: string, p: string, i: int) {
    0 <= i && i + |p| <= |s| && s[i..i + |p|] == p
  }

  /** `s.find(p)`: the first index at which `p` occurs, if any. */
  function IndexOf(s: string, p: string): (r: Option<nat>)
    ensures r.Some? ==> OccursAt(s, p, r.value)
    ensures r.Some? ==> forall j :: 0 <= j < r.value ==> !OccursAt(s, p, j)
    ensures r.None? ==> forall j :: !OccursAt(s, p, j)
    decreases |s|
  {
    if |s| < |p| then None
    else if s[..|p|] == p then Some(0)
    else
      var rest := IndexOf(s[1..], p);
      assert !OccursAt(s, p, 0) by { assert s[0..|p|] == s[..|p|]; }
      forall j | 1 <= j ensures OccursAt(s, p, j) <==> OccursAt(s[1..], p, j - 1) {
        OccursShift(s, p, j);
      }
      match rest
      case None => None
      case Some(k) => Some(k + 1)
  }

  /** An occurrence at `j >= 1` in `s` is one at `j - 1` in `s[1..]`. */
  lemma OccursShift(s: string, p: string, j: int)
    requires 1 <= j && |s| >= 1
    ensures OccursAt(s, p, j) <==> OccursAt(s[1..], p, j - 1)
  {
    if j + |p| <= |s| {
      var a, b := s[j..j + |p|], s[1..][j - 1..j - 1 + |p|];
      forall k | 0 <= k < |p| ensures a[k] == b[k] {
        assert a[k] == s[j + k];
      }
      assert a == b;
    }
  }

  /** Python's `p in s`. */
  predicate Contains(s: string, p: string) {
    IndexOf(s, p).Some?
  }

  /** Python's `s.split(sep)` for a non-empty separator: always at least one part. */
  function Split(s: string, sep: string): (parts: seq<string>)
    requires |sep| > 0
    ensures |parts| >= 1
    decreases |s|
  {
    match IndexOf(s, sep)
    case None => [s]
    case Some(i) => [s[..i]] + Split(s[i + |sep|..], sep)
  }

  /** Python's `sep.join(parts)`. */
  function Join(parts: seq<string>, sep: string): string {
    if |parts| == 0 then ""
    else if |parts| == 1 then parts[0]
    else parts[0] + sep + Join(parts[1..], sep)
  }

  /** Python's `s.replace(pattern, replacement)` for a non-empty `pattern`: every leftmost, non-overlapping occurrence. */
  function Replace(s: string, pattern: string, replacement: string): string
    requires |pattern| > 0
  {
    Join(Split(s, pattern), replacement)
  }

  /** `p` has no proper border: no non-empty proper prefix of `p` is also a suffix of it,
      so two occurrences of `p` can never overlap. */
  predicate Unbordered(p: string) {
    forall m :: 0 < m < |p| ==> p[..m] != p[|p| - m..]
  }

  // ---------------------------------------------------------------------------
  // Occurrences in slices and concatenations

  lemma OccursInPrefix(s: string, p: string, n: nat, j: int)
    requires n <= |s| && OccursAt(s[..n], p, j)
    ensures OccursAt(s, p, j)
  {
    assert s[..n][j..j + |p|] == s[j..j + |p|];
  }

  lemma OccursInSuffix(s: string, p: string, n: nat, j: int)
    requires n <= |s| && OccursAt(s[n..], p, j)
    ensures OccursAt(s, p, n + j)
  {
    assert s[n..][j..j + |p|] == s[n + j..n + j + |p|];
  }

  /** Removing a prefix that is itself free of `p` and cannot start an occurrence. */
  lemma OccursInLeft(a: string, b: string, p: string, j: int)
    requires j + |p| <= |a| && OccursAt(a + b, p, j)
    ensures OccursAt(a, p, j)
  {
    assert (a + b)[j..j + |p|] == a[j..j + |p|];
  }

  lemma OccursInRight(a: string, b: string, p: string, j: int)
    requires j >= |a| && OccursAt(a + b, p, j)
    ensures OccursAt(b, p, j - |a|)
  {
    assert (a + b)[j..j + |p|] == b[j - |a|..j - |a| + |p|];
  }

  /** If `a` is free of an unbordered `p`, the first occurrence of `p` in `a + p + b`
      is the one right after `a`. */
  lemma {:induction false} FirstOccurrenceAfter(a: string, p: string, b: string)
    requires |p| > 0 && Unbordered(p) && !Contains(a, p)
    ensures IndexOf(a + p + b, p) == Some(|a|)
  {
    var s := a + p + b;
    assert s[|a|..|a| + |p|] == p;
    assert OccursAt(s, p, |a|);
    var k := IndexOf(s, p).value;
    if k < |a| {
      if k + |p| <= |a| {
        assert s == a + (p + b);
        OccursInLeft(a, p + b, p, k);
      } else {
        StraddleBorder(a, p, b, k);
        assert false;
      }
    }
  }

  /** An occurrence of `p` that straddles the end of `a` in `a + p + b` exposes a border of `p`. */
  lemma StraddleBorder(a: string, p: string, b: string, k: int)
    requires k < |a| < k + |p|
    ensures OccursAt(a + p + b, p, k) ==> p[..k + |p| - |a|] == p[|a| - k..]
  {
    var s := a + p + b;
    if OccursAt(s, p, k) {
      var m := k + |p| - |a|;
      assert s[|a|..|a| + |p|] == p;
      assert p[..m] == s[|a|..k + |p|];
      assert p[|a| - k..] == s[k..k + |p|][|a| - k..];
    }
  }

  /** A character inside an occurrence of `p` is a character of `p`. */
  lemma CoveredChar(s: string, p: string, j: int, i: int)
    requires j <= i < j + |p|
    ensures OccursAt(s, p, j) ==> 0 <= i < |s| && s[i] == p[i - j]
  {
    if OccursAt(s, p, j) {
      assert s[j..j + |p|][i - j] == s[i];
    }
  }

  // ---------------------------------------------------------------------------
  // split / join

  lemma {:induction false} SplitJoin(s: string, sep: string)
    requires |sep| > 0
    ensures Join(Split(s, sep), sep) == s
    decreases |s|
  {
    var r := IndexOf(s, sep);
    if r.Some? {
      var i := r.value;
      var rest := s[i + |sep|..];
      SplitJoin(rest, sep);
      var tail := Split(rest, sep);
      SplitStep(s, sep, i);
      JoinCons(s[..i], tail, sep);
      assert s[i..i + |sep|] == sep;
      assert s == s[..i] + sep + rest;
    } else {
      assert Split(s, sep) == [s];
    }
  }

  lemma SplitStep(s: string, sep: string, i: nat)
    requires |sep| > 0 && IndexOf(s, sep) == Some(i)
    ensures i + |sep| <= |s|
    ensures Split(s, sep) == [s[..i]] + Split(s[i + |sep|..], sep)
  {
    var r := IndexOf(s, sep);
    assert OccursAt(s, sep, r.value);
    var tail := Split(s[i + |sep|..], sep);
    assert Split(s, sep) == [s[..i]] + tail;
  }

  lemma JoinCons(head: string, tail: seq<string>, sep: string)
    requires |tail| >= 1
    ensures Join([head] + tail, sep) == head + sep + Join(tail, sep)
  {
    assert ([head] + tail)[1..] == tail;
  }

  /** No part of `s.split(sep)` contains `sep`. */
  lemma {:induction false} SplitPartsFree(s: string, sep: string)
    requires |sep| > 0
    ensures forall k :: 0 <= k < |Split(s, sep)| ==> !Contains(Split(s, sep)[k], sep)
    decreases |s|
  {
    match IndexOf(s, sep)
    case None =>
    case Some(i) =>
      SplitPartsFree(s[i + |sep|..], sep);
      if Contains(s[..i], sep) {
        var j := IndexOf(s[..i], sep).value;
        OccursInPrefix(s, sep, i, j);
        assert false;
      }
  }

  /** Every part of `s.split(sep)` is a piece of `s`: anything a part contains, `s` contains. */
  lemma {:induction false} SplitPartsInside(s: string, sep: string, p: string)
    requires |sep| > 0
    ensures forall k :: 0 <= k < |Split(s, sep)| && Contains(Split(s, sep)[k], p) ==> Contains(s, p)
    decreases |s|
  {
    match IndexOf(s, sep)
    case None =>
    case Some(i) =>
      var rest := s[i + |sep|..];
      SplitPartsInside(rest, sep, p);
      SplitStep(s, sep, i);
      var parts := Split(s, sep);
      forall k | 0 <= k < |parts| && Contains(parts[k], p) ensures Contains(s, p) {
        if k == 0 {
          ContainsInPrefix(s, i, p);
        } else {
          assert parts[k] == Split(rest, sep)[k - 1];
          ContainsInSuffix(s, i + |sep|, p);
        }
      }
  }

  lemma ContainsInPrefix(s: string, n: nat, p: string)
    requires n <= |s| && Contains(s[..n], p)
    ensures Contains(s, p)
  {
    OccursInPrefix(s, p, n, IndexOf(s[..n], p).value);
  }

  lemma ContainsInSuffix(s: string, n: nat, p: string)
    requires n <= |s| && Contains(s[n..], p)
    ensures Contains(s, p)
  {
    OccursInSuffix(s, p, n, IndexOf(s[n..], p).value);
  }

  /** Splitting a string that does not contain the separator gives it back whole. */
  lemma SplitAbsent(s: string, sep: string)
    requires |sep| > 0 && !Contains(s, sep)
    ensures Split(s, sep) == [s]
  {
  }

  /** `s.split(sep)` has more than one part exactly when `sep in s`. */
  lemma SplitManyIff(s: string, sep: string)
    requires |sep| > 0
    ensures |Split(s, sep)| > 1 <==> Contains(s, sep)
  {
  }

  /** The first part of a split is the text before the first occurrence. */
  lemma SplitHead(s: string, sep: string)
    requires |sep| > 0 && Contains(s, sep)
    ensures Split(s, sep)[0] == s[..IndexOf(s, sep).value]
  {
  }

  /** `a + sep + b` splits at the `sep` right after a separator-free `a`. */
  lemma {:induction false} SplitAfter(a: string, sep: string, b: string)
    requires |sep| > 0 && Unbordered(sep) && !Contains(a, sep)
    ensures Split(a + sep + b, sep) == [a] + Split(b, sep)
  {
    FirstOccurrenceAfter(a, sep, b);
    var s := a + sep + b;
    assert s[..|a|] == a;
    assert s[|a| + |sep|..] == b;
  }

  /** The last part of `s.split(sep)` is what follows the last occurrence of `sep`. */
  lemma {:induction false} SplitLast(s: string, sep: string)
    requires |sep| > 0 && Contains(s, sep)
    ensures var parts := Split(s, sep);
      s == Join(parts[..|parts| - 1], sep) + sep + parts[|parts| - 1]
  {
    var parts := Split(s, sep);
    SplitJoin(s, sep);
    SplitManyIff(s, sep);
    JoinLast(parts, sep);
  }

  lemma {:induction false} JoinLast(parts: seq<string>, sep: string)
    requires |parts| >= 2
    ensures Join(parts, sep) == Join(parts[..|parts| - 1], sep) + sep + parts[|parts| - 1]
    decreases |parts|
  {
    if |parts| > 2 {
      JoinLast(parts[1..], sep);
      assert parts[1..][..|parts| - 2] == parts[..|parts| - 1][1..];
    }
  }

  /** Joining pieces that are free of a pattern with a one-character glue that the
      pattern does not contain produces no occurrence of the pattern. */
  lemma {:induction false} JoinFree(parts: seq<string>, glue: char, p: string)
    requires |p| > 0 && glue !in p
    requires forall k :: 0 <= k < |parts| ==> !Contains(parts[k], p)
    ensures !Contains(Join(parts, [glue]), p)
    decreases |parts|
  {
    if |parts| >= 2 {
      JoinFree(parts[1..], glue, p);
      var a, rest := parts[0], Join(parts[1..], [glue]);
      var s := Join(parts, [glue]);
      assert s == a + ([glue] + rest);
      if Contains(s, p) {
        var j := IndexOf(s, p).value;
        if j + |p| <= |a| {
          OccursInLeft(a, [glue] + rest, p, j);
          assert false;
        } else if j > |a| {
          assert s == (a + [glue]) + rest;
          OccursInRight(a + [glue], rest, p, j);
          assert false;
        } else {
          CoveredChar(s, p, j, |a|);
          assert false;
        }
      }
    }
  }

  /** After `s.replace(pattern, [glue])`, no occurrence of a glue-free pattern survives that
      was not already in `s`; in particular `pattern` itself is gone. */
  lemma ReplaceFree(s: string, pattern: string, glue: char, p: string)
    requires |pattern| > 0 && |p| > 0 && glue !in p
    requires p == pattern || !Contains(s, p)
    ensures !Contains(Replace(s, pattern, [glue]), p)
  {
    var parts := Split(s, pattern);
    SplitPartsFree(s, pattern);
    SplitPartsInside(s, pattern, p);
    JoinFree(parts, glue, p);
  }

  /** Removing a trailing occurrence of an unbordered marker with `replace(marker, "")`. */
  lemma RemoveAppended(a: string, marker: string)
    requires |marker| > 0 && Unbordered(marker) && !Contains(a, marker)
    ensures Replace(a + marker, marker, "") == a
  {
    SplitAfter(a, marker, "");
    assert a + marker + "" == a + marker;
    assert IndexOf("", marker).None?;
    assert Split("", marker) == [""];
    assert Split(a + marker, marker) == [a, ""];
    assert Join([a, ""], "") == a + "" + Join([""], "");
  }

  /** For a one-character pattern, `Contains` is plain membership. */
  lemma ContainsChar(s: string, c: char)
    ensures Contains(s, [c]) <==> c in s
  {
    if c in s {
      var i :| 0 <= i < |s| && s[i] == c;
      assert OccursAt(s, [c], i);
    }
    if Contains(s, [c]) {
      var i := IndexOf(s, [c]).value;
      assert s[i..i + 1] == [c];
      assert s[i] == c;
    }
  }

  // ---------------------------------------------------------------------------
  // strip / split() / lower / isdigit

  /** Python's `str.isspace` for one character. */
  predicate IsSpace(c: char) {
    c == ' ' || ('\t' <= c <= '\r') || ('\U{1C}' <= c <= '\U{1F}') || c == '\U{85}' || c == '\U{A0}'
    || c == '\U{1680}' || ('\U{2000}' <= c <= '\U{200A}') || c == '\U{2028}' || c == '\U{2029}'
    || c == '\U{202F}' || c == '\U{205F}' || c == '\U{3000}'
  }

  function StripLeft(s: string): (r: string)
    ensures |r| <= |s| && r == s[|s| - |r|..]
    ensures r == [] || !IsSpace(r[0])
    ensures forall k :: 0 <= k < |s| - |r| ==> IsSpace(s[k])
    decreases |s|
  {
    if |s| > 0 && IsSpace(s[0]) then StripLeft(s[1..]) else s
  }

  function StripRight(s: string): (r: string)
    ensures |r| <= |s| && r == s[..|r|]
    ensures r == [] || !IsSpace(r[|r| - 1])
    ensures forall k :: |r| <= k < |s| ==> IsSpace(s[k])
    decreases |s|
  {
    if |s| > 0 && IsSpace(s[|s| - 1]) then StripRight(s[..|s| - 1]) else s
  }

  /** `r` sits at position `i` of `s` with only whitespace around it. */
  ghost predicate StrippedAt(s: string, r: string, i: int) {
    0 <= i <= |s| - |r| && r == s[i..i + |r|] &&
    (forall k :: 0 <= k < i ==> IsSpace(s[k])) &&
    (forall k :: i + |r| <= k < |s| ==> IsSpace(s[k]))
  }

  /** Python's `s.strip()`: `s` without its leading and trailing whitespace. */
  function Strip(s: string): (r: string)
    ensures exists i :: StrippedAt(s, r, i)
    ensures r == [] || (!IsSpace(r[0]) && !IsSpace(r[|r| - 1]))
  {
    var left := StripLeft(s);
    var r := StripRight(left);
    var i := |s| - |left|;
    assert r == s[i..i + |r|];
    assert StrippedAt(s, r, i);
    r
  }

  /** The length of the leading run of non-whitespace characters. */
  function WordLength(s: string): (n: nat)
    ensures n <= |s|
    ensures forall k :: 0 <= k < n ==> !IsSpace(s[k])
    ensures n < |s| ==> IsSpace(s[n])
    decreases |s|
  {
    if |s| == 0 || IsSpace(s[0]) then 0 else 1 + WordLength(s[1..])
  }

  /** Python's `s.split()` with no argument: the maximal runs of non-whitespace. */
  function Words(s: string): seq<string>
    decreases |s|
  {
    if |s| == 0 then []
    else if IsSpace(s[0]) then Words(s[1..])
    else
      var n := WordLength(s);
      [s[..n]] + Words(s[n..])
  }

  /** `s` holds two non-whitespace characters with whitespace somewhere between them. */
  ghost predicate HasTwoWords(s: string) {
    exists i, j, k :: 0 <= i < j < k < |s| && !IsSpace(s[i]) && IsSpace(s[j]) && !IsSpace(s[k])
  }

  lemma {:induction false} WordsNonEmptyIff(s: string)
    ensures |Words(s)| >= 1 <==> exists i :: 0 <= i < |s| && !IsSpace(s[i])
    decreases |s|
  {
    if |s| > 0 && IsSpace(s[0]) {
      WordsNonEmptyIff(s[1..]);
      if exists i :: 0 <= i < |s| && !IsSpace(s[i]) {
        var i :| 0 <= i < |s| && !IsSpace(s[i]);
        assert s[1..][i - 1] == s[i];
      }
    }
  }

  /** `s.split()` has at least two words exactly when two non-blank characters are
      separated by whitespace. */
  lemma TwoWordsIff(s: string)
    ensures |Words(s)| >= 2 <==> HasTwoWords(s)
  {
    if |Words(s)| >= 2 {
      TwoWordsSound(s);
    }
    if HasTwoWords(s) {
      var i, j, k :| 0 <= i < j < k < |s| && !IsSpace(s[i]) && IsSpace(s[j]) && !IsSpace(s[k]);
      TwoWordsComplete(s, i, j, k);
    }
  }

  lemma TwoWordsSound(s: string)
    requires |Words(s)| >= 2
    ensures HasTwoWords(s)
  {
    var i, j, k := TwoWordsWitness(s);
    TwoWordsAt(s, i, j, k);
  }

  /** Positions of a non-blank, a blank and a non-blank character, in that order, in a
      text that splits into two or more words. */
  lemma {:induction false} TwoWordsWitness(s: string) returns (i: int, j: int, k: int)
    requires |Words(s)| >= 2
    ensures 0 <= i < j < k < |s| && !IsSpace(s[i]) && IsSpace(s[j]) && !IsSpace(s[k])
    decreases |s|
  {
    if IsSpace(s[0]) {
      var t := s[1..];
      i, j, k := TwoWordsWitness(t);
      assert s[i + 1] == t[i] && s[j + 1] == t[j] && s[k + 1] == t[k];
      i, j, k := i + 1, j + 1, k + 1;
    } else {
      var n := WordLength(s);
      var rest := s[n..];
      assert Words(s) == [s[..n]] + Words(rest);
      WordsNonEmptyIff(rest);
      var k' :| 0 <= k' < |rest| && !IsSpace(rest[k']);
      assert k' > 0;
      assert rest[k'] == s[n + k'];
      i, j, k := 0, n, n + k';
    }
  }

  lemma TwoWordsAt(s: string, i: int, j: int, k: int)
    requires 0 <= i < j < k < |s| && !IsSpace(s[i]) && IsSpace(s[j]) && !IsSpace(s[k])
    ensures HasTwoWords(s)
  {
  }

  lemma {:induction false} TwoWordsComplete(s: string, i: int, j: int, k: int)
    requires 0 <= i < j < k < |s| && !IsSpace(s[i]) && IsSpace(s[j]) && !IsSpace(s[k])
    ensures |Words(s)| >= 2
    decreases |s|
  {
    if IsSpace(s[0]) {
      assert s[1..][i - 1] == s[i] && s[1..][j - 1] == s[j] && s[1..][k - 1] == s[k];
      TwoWordsComplete(s[1..], i - 1, j - 1, k - 1);
    } else {
      var n := WordLength(s);
      var rest := s[n..];
      assert Words(s) == [s[..n]] + Words(rest);
      assert j >= n;
      assert rest[k - n] == s[k];
      WordsNonEmptyIff(rest);
    }
  }

  /** Python's `str.lower` on the Latin and Cyrillic capitals. */
  function LowerChar(c: char): char {
    if 'A' <= c <= 'Z' then (c as int + 32) as char
    else if '\U{0410}' <= c <= '\U{042F}' then (c as int + 32) as char
    else if '\U{0400}' <= c <= '\U{040F}' then (c as int + 80) as char
    else c
  }

  /** Python's `s.lower()`, character by character. */
  function Lower(s: string): (r: string)
    ensures |r| == |s|
    ensures forall k :: 0 <= k < |s| ==> r[k] == LowerChar(s[k])
  {
    seq(|s|, k requires 0 <= k < |s| => LowerChar(s[k]))
  }

  /** Python's `str.isdigit` on the ASCII digits. */
  predicate IsDigit(c: char) {
    '0' <= c <= '9'
  }

  /** `"".join(filter(str.isdigit, s))`. */
  function DigitsOf(s: string): (r: string)
    ensures forall k :: 0 <= k < |r| ==> IsDigit(r[k])
  {
    if s == [] then [] else (if IsDigit(s[0]) then [s[0]] else []) + DigitsOf(s[1..])
  }

  // ---------------------------------------------------------------------------
  // decimal identifiers: f"{n}" and int(s)

  function DigitChar(d: nat): (c: char)
    requires d < 10
    ensures IsDigit(c)
  {
    ('0' as int + d) as char
  }

  /** `str(n)` for a non-negative integer. */
  function NatToString(n: nat): (s: string)
    ensures |s| > 0 && forall k :: 0 <= k < |s| ==> IsDigit(s[k])
    decreases n
  {
    if n < 10 then [DigitChar(n)] else NatToString(n / 10) + [DigitChar(n % 10)]
  }

  function DigitsValue(s: string): nat
    requires forall k :: 0 <= k < |s| ==> IsDigit(s[k])
  {
    if s == [] then 0
    else
      assert IsDigit(s[|s| - 1]);
      10 * DigitsValue(s[..|s| - 1]) + (s[|s| - 1] as int - '0' as int)
  }

  /** `int(s)` on a non-empty string of decimal digits; anything else raises, here `None`. */
  function ParseNat(s: string): Option<nat> {
    if |s| > 0 && forall k :: 0 <= k < |s| ==> IsDigit(s[k]) then Some(DigitsValue(s)) else None
  }

  lemma {:induction false} ParseNatToString(n: nat)
    ensures ParseNat(NatToString(n)) == Some(n)
    decreases n
  {
    var s := NatToString(n);
    if n >= 10 {
      ParseNatToString(n / 10);
      assert s[..|s| - 1] == NatToString(n / 10);
      assert s[|s| - 1] as int - '0' as int == n % 10;
      assert DigitsValue(s) == 10 * (n / 10) + n % 10;
    } else {
      assert s[..0] == [];
      assert DigitsValue(s) == n;
    }
  }

  // ---------------------------------------------------------------------------
  // How strip, lower and the digit filter interact

  /** Only whitespace. */
  predicate AllSpace(s: string) {
    forall k :: 0 <= k < |s| ==> IsSpace(s[k])
  }

  lemma {:induction false} StripLeftSpaces(ws: string, s: string)
    requires AllSpace(ws)
    ensures StripLeft(ws + s) == StripLeft(s)
    decreases |ws|
  {
    if ws != [] {
      assert (ws + s)[1..] == ws[1..] + s;
      StripLeftSpaces(ws[1..], s);
    } else {
      assert ws + s == s;
    }
  }

  lemma {:induction false} StripRightSpaces(s: string, ws: string)
    requires AllSpace(ws)
    ensures StripRight(s + ws) == StripRight(s)
    decreases |ws|
  {
    if ws != [] {
      assert (s + ws)[..|s + ws| - 1] == s + ws[..|ws| - 1];
      StripRightSpaces(s, ws[..|ws| - 1]);
    } else {
      assert s + ws == s;
    }
  }

  lemma {:induction false} StripLeftAppend(s: string, t: string)
    requires StripLeft(s) != []
    ensures StripLeft(s + t) == StripLeft(s) + t
    decreases |s|
  {
    if IsSpace(s[0]) {
      assert (s + t)[1..] == s[1..] + t;
      StripLeftAppend(s[1..], t);
    }
  }

  /** `strip()` ignores whitespace added at either end. */
  lemma StripPadded(ws1: string, s: string, ws2: string)
    requires AllSpace(ws1) && AllSpace(ws2)
    ensures Strip(ws1 + s + ws2) == Strip(s)
  {
    assert ws1 + s + ws2 == ws1 + (s + ws2);
    StripLeftSpaces(ws1, s + ws2);
    if StripLeft(s) != [] {
      StripLeftAppend(s, ws2);
      StripRightSpaces(StripLeft(s), ws2);
    } else {
      assert AllSpace(s);
      assert AllSpace(s + ws2);
      StripLeftSpaces(s + ws2, []);
      assert s + ws2 + [] == s + ws2;
    }
  }

  lemma LowerCharSpace(c: char)
    ensures IsSpace(LowerChar(c)) <==> IsSpace(c)
    ensures IsDigit(LowerChar(c)) <==> IsDigit(c)
    ensures IsDigit(c) ==> LowerChar(c) == c
    ensures LowerChar(LowerChar(c)) == LowerChar(c)
  {
  }

  lemma {:induction false} StripLeftLower(s: string)
    ensures StripLeft(Lower(s)) == Lower(StripLeft(s))
    decreases |s|
  {
    if s != [] {
      LowerCharSpace(s[0]);
      assert Lower(s)[1..] == Lower(s[1..]);
      StripLeftLower(s[1..]);
    }
  }

  lemma {:induction false} StripRightLower(s: string)
    ensures StripRight(Lower(s)) == Lower(StripRight(s))
    decreases |s|
  {
    if s != [] {
      LowerCharSpace(s[|s| - 1]);
      assert Lower(s)[..|s| - 1] == Lower(s[..|s| - 1]);
      StripRightLower(s[..|s| - 1]);
    }
  }

  /** Lower-casing commutes with `strip()`: no letter is whitespace. */
  lemma StripLower(s: string)
    ensures Strip(Lower(s)) == Lower(Strip(s))
  {
    StripLeftLower(s);
    StripRightLower(StripLeft(s));
  }

  /** Lower-casing twice is lower-casing once. */
  lemma LowerIdempotent(s: string)
    ensures Lower(Lower(s)) == Lower(s)
  {
    forall k | 0 <= k < |s| ensures Lower(Lower(s))[k] == Lower(s)[k] {
      LowerCharSpace(s[k]);
    }
  }

  /** Lower-casing keeps every whitespace position whitespace and every other position
      not, and leaves each digit where it was. */
  lemma LowerKeepsSpacesAndDigits(s: string)
    ensures forall k :: 0 <= k < |s| ==>
      (IsSpace(Lower(s)[k]) <==> IsSpace(s[k])) && (IsDigit(s[k]) ==> Lower(s)[k] == s[k])
  {
    forall k | 0 <= k < |s|
      ensures (IsSpace(Lower(s)[k]) <==> IsSpace(s[k])) && (IsDigit(s[k]) ==> Lower(s)[k] == s[k])
    {
      LowerCharSpace(s[k]);
    }
  }

  lemma {:induction false} DigitsOfAppend(a: string, b: string)
    ensures DigitsOf(a + b) == DigitsOf(a) + DigitsOf(b)
    decreases |a|
  {
    if a == [] {
      assert a + b == b;
    } else {
      assert (a + b)[1..] == a[1..] + b;
      DigitsOfAppend(a[1..], b);
    }
  }

  lemma {:induction false} DigitsOfSpaces(s: string)
    requires AllSpace(s)
    ensures DigitsOf(s) == []
    decreases |s|
  {
    if s != [] {
      DigitsOfSpaces(s[1..]);
    }
  }

  lemma {:induction false} DigitsOfLower(s: string)
    ensures DigitsOf(Lower(s)) == DigitsOf(s)
    decreases |s|
  {
    if s != [] {
      LowerCharSpace(s[0]);
      assert Lower(s)[1..] == Lower(s[1..]);
      DigitsOfLower(s[1..]);
    }
  }

  /** `strip()` only removes characters: one absent before is absent after. */
  lemma StripKeepsOut(s: string, c: char)
    requires c !in s
    ensures c !in Strip(s)
  {
    var r := Strip(s);
    var i :| StrippedAt(s, r, i);
    forall k | 0 <= k < |r| ensures r[k] != c {
      assert r[k] == s[i + k];
    }
  }

  /** The digit filter sees through `strip()`: only whitespace is removed. */
  lemma DigitsOfStrip(s: string)
    ensures DigitsOf(Strip(s)) == DigitsOf(s)
  {
    var r := Strip(s);
    var i :| StrippedAt(s, r, i);
    var t := s[i..];
    DigitsOfSplitAt(s, i);
    assert AllSpace(s[..i]);
    DigitsOfSpaces(s[..i]);
    DigitsOfSplitAt(t, |r|);
    assert t[..|r|] == r;
    assert AllSpace(t[|r|..]);
    DigitsOfSpaces(t[|r|..]);
  }

  lemma DigitsOfSplitAt(s: string, n: int)
    requires 0 <= n <= |s|
    ensures DigitsOf(s) == DigitsOf(s[..n]) + DigitsOf(s[n..])
  {
    assert s == s[..n] + s[n..];
    DigitsOfAppend(s[..n], s[n..]);
  }

  // ---------------------------------------------------------------------------
  // Unbordered patterns and the last part of a split

  /** A pattern whose first character occurs nowhere else in it is unbordered. */
  lemma UnborderedByHead(p: string)
    requires |p| > 0 && forall k :: 0 < k < |p| ==> p[k] != p[0]
    ensures Unbordered(p)
  {
    forall m | 0 < m < |p| ensures p[..m] != p[|p| - m..] {
      assert p[..m][0] == p[0];
      assert p[|p| - m..][0] == p[|p| - m];
    }
  }

  /** A pattern that opens with two equal characters, then a different one, and never
      repeats its first character afterwards is unbordered. */
  lemma UnborderedByDoubledHead(p: string)
    requires |p| >= 3 && p[1] == p[0] && forall k :: 2 <= k < |p| ==> p[k] != p[0]
    ensures Unbordered(p)
  {
    forall m | 0 < m < |p| ensures p[..m] != p[|p| - m..] {
      assert p[..m][0] == p[0];
      assert p[|p| - m..][0] == p[|p| - m];
      if |p| - m == 1 {
        assert p[..m][1] == p[1];
        assert p[|p| - m..][1] == p[2];
      }
    }
  }

  /** When `tail` is free of an unbordered `sep`, the last part of splitting
      `head + sep + tail` is `tail`: the split ends at the last separator. */
  lemma {:induction false} SplitLastAfter(head: string, sep: string, tail: string)
    requires |sep| > 0 && Unbordered(sep) && !Contains(tail, sep)
    ensures var parts := Split(head + sep + tail, sep); |parts| >= 2 && parts[|parts| - 1] == tail
    decreases |head|
  {
    var s := head + sep + tail;
    assert s[|head|..|head| + |sep|] == sep;
    assert OccursAt(s, sep, |head|);
    var i := IndexOf(s, sep).value;
    assert i <= |head|;
    if i == |head| {
      SplitAtHead(head, sep, tail);
    } else {
      if i + |sep| > |head| {
        StraddleBorder(head, sep, tail, i);
        assert false;
      }
      SplitLastAfter(head[i + |sep|..], sep, tail);
      SplitBeforeHead(head, sep, tail, i);
    }
  }

  lemma SplitAtHead(head: string, sep: string, tail: string)
    requires |sep| > 0 && IndexOf(head + sep + tail, sep) == Some(|head|) && !Contains(tail, sep)
    ensures Split(head + sep + tail, sep) == [head, tail]
  {
    var s := head + sep + tail;
    SplitStep(s, sep, |head|);
    assert s[..|head|] == head && s[|head| + |sep|..] == tail;
    SplitAbsent(tail, sep);
  }

  lemma SplitBeforeHead(head: string, sep: string, tail: string, i: nat)
    requires |sep| > 0 && IndexOf(head + sep + tail, sep) == Some(i) && i + |sep| <= |head|
    ensures var p := Split(head + sep + tail, sep); var q := Split(head[i + |sep|..] + sep + tail, sep);
      |p| == |q| + 1 && p[|p| - 1] == q[|q| - 1]
  {
    var s := head + sep + tail;
    SplitStep(s, sep, i);
    assert s[i + |sep|..] == head[i + |sep|..] + sep + tail;
  }
}
