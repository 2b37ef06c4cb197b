/**
 * The daily line rotation of `Database.get_todays_lines`: the six exam lines
 * in a fixed order, doubled, and a five-wide window starting at the
 * day-of-year modulo six. The day of the year is a parameter here; the source
 * reads it from the clock.
 */
module Schedule {

  /** The lines in rotation, in their fixed order. */
  const Available: seq<int> := [1, 2, 3, 6, 7, 8]

  /** The one line left out on a given day: the position just after the window. */
  function Omitted(dayOfYear: int): int {
    Available[(dayOfYear % 6 + 5) % 6]
  }

  /** Today's five lines: `(available + available)[offset : offset + 5]`. They are five
      distinct lines of the rotation, and together with the omitted line they are all six. */
  function TodaysLines(dayOfYear: int): (lines: seq<int>)
    ensures |lines| == 5
    ensures forall i, j :: 0 <= i < j < 5 ==> lines[i] != lines[j]
    ensures forall x :: x in lines <==> x in Available && x != Omitted(dayOfYear)
  {
    var offset := dayOfYear % |Available|;
    var lines := (Available + Available)[offset..offset + 5];
    WindowFacts(offset);
    lines
  }

  lemma WindowFacts(offset: int)
    requires 0 <= offset < 6
    ensures var w := (Available + Available)[offset..offset + 5];
      (forall i, j :: 0 <= i < j < 5 ==> w[i] != w[j]) &&
      (forall x :: x in w <==> x in Available && x != Available[(offset + 5) % 6])
  {
    var w := Window(offset);
    Distinct(w);
  }

  /** The window at each offset, written out. */
  lemma Window(offset: int) returns (w: seq<int>)
    requires 0 <= offset < 6
    ensures w == (Available + Available)[offset..offset + 5]
    ensures |w| == 5 && w[0] != w[1] && w[0] != w[2] && w[0] != w[3] && w[0] != w[4]
      && w[1] != w[2] && w[1] != w[3] && w[1] != w[4] && w[2] != w[3] && w[2] != w[4] && w[3] != w[4]
    ensures forall x :: x in w <==> x in Available && x != Available[(offset + 5) % 6]
  {
    var a := Available;
    assert |a| == 6 && a[0] == 1 && a[1] == 2 && a[2] == 3 && a[3] == 6 && a[4] == 7 && a[5] == 8;
    var ext := a + a;
    w := ext[offset..offset + 5];
    assert w[0] == ext[offset] && w[1] == ext[offset + 1] && w[2] == ext[offset + 2] && w[3] == ext[offset + 3] && w[4] == ext[offset + 4];
    if offset == 0 {
      assert w == [1, 2, 3, 6, 7];
    } else if offset == 1 {
      assert w == [2, 3, 6, 7, 8];
    } else if offset == 2 {
      assert w == [3, 6, 7, 8, 1];
    } else if offset == 3 {
      assert w == [6, 7, 8, 1, 2];
    } else if offset == 4 {
      assert w == [7, 8, 1, 2, 3];
    } else {
      assert w == [8, 1, 2, 3, 6];
    }
  }

  lemma Distinct(w: seq<int>)
    requires |w| == 5 && w[0] != w[1] && w[0] != w[2] && w[0] != w[3] && w[0] != w[4]
      && w[1] != w[2] && w[1] != w[3] && w[1] != w[4] && w[2] != w[3] && w[2] != w[4] && w[3] != w[4]
    ensures forall i, j :: 0 <= i < j < 5 ==> w[i] != w[j]
  {
  }

  /** The omitted line moves one position along the rotation from one day to the next. */
  lemma OmittedRotates(dayOfYear: int)
    ensures Omitted(dayOfYear + 1) == Available[((dayOfYear % 6 + 5) % 6 + 1) % 6]
  {
  }

  /** How many of the `n` days starting at `day` schedule `line`. */
  function DaysScheduled(line: int, day: int, n: nat): (count: nat)
    ensures count <= n
  {
    if n == 0 then 0
    else DaysScheduled(line, day, n - 1) + (if line in TodaysLines(day + (n - 1)) then 1 else 0)
  }

  /** Every line of the rotation is scheduled on exactly five of any six consecutive days
      (and omitted on the sixth). */
  lemma {:induction false} FiveOfEverySix(line: int, day: int)
    requires line in Available
    ensures DaysScheduled(line, day, 6) == 5
  {
    ScheduledUnlessOmitted(line, day, 6);
    OmittedOnce(line, day);
  }

  /** Six consecutive days omit each line of the rotation exactly once. */
  lemma OmittedOnce(line: int, day: int)
    requires line in Available
    ensures DaysNotOmitted(line, day, 6) == 5
  {
    OmittedAt(day, 0);
    OmittedAt(day, 1);
    OmittedAt(day, 2);
    OmittedAt(day, 3);
    OmittedAt(day, 4);
    OmittedAt(day, 5);
    CycleSum(day % 6, line);
    assert DaysNotOmitted(line, day, 1) == DaysNotOmitted(line, day, 0) + (if line != Omitted(day + 0) then 1 else 0);
    assert DaysNotOmitted(line, day, 2) == DaysNotOmitted(line, day, 1) + (if line != Omitted(day + 1) then 1 else 0);
    assert DaysNotOmitted(line, day, 3) == DaysNotOmitted(line, day, 2) + (if line != Omitted(day + 2) then 1 else 0);
    assert DaysNotOmitted(line, day, 4) == DaysNotOmitted(line, day, 3) + (if line != Omitted(day + 3) then 1 else 0);
    assert DaysNotOmitted(line, day, 5) == DaysNotOmitted(line, day, 4) + (if line != Omitted(day + 4) then 1 else 0);
    assert DaysNotOmitted(line, day, 6) == DaysNotOmitted(line, day, 5) + (if line != Omitted(day + 5) then 1 else 0);
  }

  /** How many of the `n` days starting at `day` do not omit `line`. */
  function DaysNotOmitted(line: int, day: int, n: nat): nat {
    if n == 0 then 0
    else DaysNotOmitted(line, day, n - 1) + (if line != Omitted(day + (n - 1)) then 1 else 0)
  }

  /** A line of the rotation is scheduled on exactly the days that do not omit it. */
  lemma {:induction false} ScheduledUnlessOmitted(line: int, day: int, n: nat)
    requires line in Available
    ensures DaysScheduled(line, day, n) == DaysNotOmitted(line, day, n)
  {
    if n > 0 {
      ScheduledUnlessOmitted(line, day, n - 1);
      var hit := DayStep(line, day, n - 1);
    }
  }

  /** Over six consecutive offsets the omitted position runs through all six positions. */
  lemma CycleSum(o: int, line: int)
    requires 0 <= o < 6 && line in Available
    ensures (if line != Available[(o + 0 + 5) % 6] then 1 else 0) + (if line != Available[(o + 1 + 5) % 6] then 1 else 0)
      + (if line != Available[(o + 2 + 5) % 6] then 1 else 0) + (if line != Available[(o + 3 + 5) % 6] then 1 else 0)
      + (if line != Available[(o + 4 + 5) % 6] then 1 else 0) + (if line != Available[(o + 5 + 5) % 6] then 1 else 0) == 5
  {
    var a := Available;
    assert a[0] == 1 && a[1] == 2 && a[2] == 3 && a[3] == 6 && a[4] == 7 && a[5] == 8;
    assert line == 1 || line == 2 || line == 3 || line == 6 || line == 7 || line == 8;
  }

  lemma DayStep(line: int, day: int, k: nat) returns (hit: int)
    requires line in Available
    ensures hit == if line != Omitted(day + k) then 1 else 0
    ensures DaysScheduled(line, day, k + 1) == DaysScheduled(line, day, k) + hit
  {
    var lines := TodaysLines(day + k);
    assert line in lines <==> line != Omitted(day + k);
    hit := if line in lines then 1 else 0;
  }

  lemma OmittedAt(day: int, k: nat)
    ensures Omitted(day + k) == Available[(day % 6 + k + 5) % 6]
  {
    ModSix(day + k, 5);
    ModSix(day, k + 5);
  }

  /** Reducing the first summand modulo six first does not change the sum modulo six. */
  lemma ModSix(a: int, b: int)
    ensures (a % 6 + b) % 6 == (a + b) % 6
  {
    var q := a / 6;
    assert a == 6 * q + a % 6;
    ModSixMultiple(q, a % 6 + b);
  }

  lemma ModSixMultiple(q: int, n: int)
    ensures (6 * q + n) % 6 == n % 6
  {
  }

  /** Day 10 of the year: offset 4, the window `[7, 8, 1, 2, 3]`, line 6 rests. */
  lemma DayTen()
    ensures TodaysLines(10) == [7, 8, 1, 2, 3] && Omitted(10) == 6
  {
    assert (Available + Available)[4..9] == [7, 8, 1, 2, 3];
  }
}
