/**
 * Clock-style formatting of durations: `secondsToHHMMSS` (90file.js:987-993)
 * and `totalDurationHHMM` (90file.js:882-887). JavaScript numbers are taken to be
 * integers here.
 */
module Durations {
  import opened Common
  import opened Decimal

  /** `secondsToHHMMSS(sec)`: clamp at zero, then hours, minutes and seconds, each padded to two digits. */
  function SecondsToHHMMSS(sec: int): string {
    var s := Max(0, sec);
    var hh := s / 3600;
    var mm := (s % 3600) / 60;
    var ss := s % 60;
    Pad2(NatToString(hh)) + ":" + Pad2(NatToString(mm)) + ":" + Pad2(NatToString(ss))
  }

  /**
   * Reading `H:MM:SS` back as a number of seconds: any number of hour digits,
   * then exactly two minute digits and two second digits.
   */
  function ReadHHMMSS(t: string): Option<int> {
    if |t| < 7 || t[|t| - 3] != ':' || t[|t| - 6] != ':' then None
    else
      var h, m, x := t[..|t| - 6], t[|t| - 5..|t| - 3], t[|t| - 2..];
      if AllDigits(h) && AllDigits(m) && AllDigits(x)
      then Some(DigitsValue(h) * 3600 + DigitsValue(m) * 60 + DigitsValue(x))
      else None
  }

  /**
   * The text has minute and second fields below 60, and reading it back gives the
   * clamped number of seconds; it is exactly `HH:MM:SS` below 100 hours.
   */
  lemma ClockRoundTrip(sec: int)
    ensures ReadHHMMSS(SecondsToHHMMSS(sec)) == Some(Max(0, sec))
    ensures var t := SecondsToHHMMSS(sec);
      && |t| >= 8
      && AllDigits(t[|t| - 5..|t| - 3]) && DigitsValue(t[|t| - 5..|t| - 3]) < 60
      && AllDigits(t[|t| - 2..]) && DigitsValue(t[|t| - 2..]) < 60
    ensures 0 <= sec < 360000 ==> |SecondsToHHMMSS(sec)| == 8
  {
    var s := Max(0, sec);
    var hh, mm, ss := s / 3600, (s % 3600) / 60, s % 60;
    assert mm < 60 && ss < 60;
    Pad2Value(hh);
    Pad2Value(mm);
    Pad2Value(ss);
    var h, m, x := Pad2(NatToString(hh)), Pad2(NatToString(mm)), Pad2(NatToString(ss));
    assert SecondsToHHMMSS(sec) == h + ":" + m + ":" + x;
    ReadFields(h, m, x);
    SplitSeconds(s);
    assert DigitsValue(h) * 3600 + DigitsValue(m) * 60 + DigitsValue(x) == s;
    var t := SecondsToHHMMSS(sec);
    assert t[|t| - 5..|t| - 3] == m && t[|t| - 2..] == x;
  }

  /** The three fields of a clock text are found again by position. */
  lemma ReadFields(h: string, m: string, x: string)
    requires AllDigits(h) && AllDigits(m) && AllDigits(x) && |h| >= 2 && |m| == 2 && |x| == 2
    ensures ReadHHMMSS(h + ":" + m + ":" + x).Some?
    ensures ReadHHMMSS(h + ":" + m + ":" + x).value ==
      DigitsValue(h) * 3600 + DigitsValue(m) * 60 + DigitsValue(x)
  {
    var t := h + ":" + m + ":" + x;
    assert t[|t| - 3] == ':' && t[|t| - 6] == ':';
    assert t[..|t| - 6] == h;
    assert t[|t| - 5..|t| - 3] == m;
    assert t[|t| - 2..] == x;
    var v := DigitsValue(h) * 3600 + DigitsValue(m) * 60 + DigitsValue(x);
    assert ReadHHMMSS(t).Some?;
    assert ReadHHMMSS(t).value == v;
  }

  /** Hours, minutes and seconds recombine to the seconds they came from. */
  lemma SplitSeconds(s: nat)
    ensures (s / 3600) * 3600 + ((s % 3600) / 60) * 60 + s % 60 == s
  {
    var q, r := s / 3600, s % 3600;
    var a := q * 60 + r / 60;
    assert s == a * 60 + r % 60 by {
      assert s == q * 3600 + r;
      assert r == (r / 60) * 60 + r % 60;
      assert q * 3600 == (q * 60) * 60;
    }
    DivModUnique(s, a, r % 60, 60);
  }

  /** A task of `totalDurationHHMM`: its `durationMinutes` and `duration` properties, either of which may be missing. */
  datatype Task = Task(durationMinutes: Option<int>, duration: Option<int>)

  /** `t.durationMinutes ?? t.duration ?? 0`: the first property that is present, even when it is zero. */
  function TaskMinutes(t: Task): int {
    if t.durationMinutes.Some? then t.durationMinutes.value
    else if t.duration.Some? then t.duration.value
    else 0
  }

  /** The `reduce` over `tasks`, from the left. */
  function TotalMinutes(tasks: seq<Task>): int {
    if tasks == [] then 0 else TotalMinutes(tasks[..|tasks| - 1]) + TaskMinutes(tasks[|tasks| - 1])
  }

  /**
   * `totalDurationHHMM(tasks)`: hours by floor division, minutes by the
   * truncating `%`, each through `String` and padded to two characters.
   */
  function TotalDurationHHMM(tasks: seq<Task>): string {
    var total := TotalMinutes(tasks);
    var hh := total / 60;
    var mm := JsRem(total, 60);
    Pad2(IntToString(hh)) + ":" + Pad2(IntToString(mm))
  }

  /** Reading `H:MM` back as a number of minutes. */
  function ReadHHMM(t: string): Option<int> {
    if |t| < 4 || t[|t| - 3] != ':' then None
    else
      var h, m := t[..|t| - 3], t[|t| - 2..];
      if AllDigits(h) && AllDigits(m) then Some(DigitsValue(h) * 60 + DigitsValue(m)) else None
  }

  /** A non-negative total is written with a two-digit minute field and reads back exactly. */
  lemma TotalRoundTrip(tasks: seq<Task>)
    requires TotalMinutes(tasks) >= 0
    ensures ReadHHMM(TotalDurationHHMM(tasks)) == Some(TotalMinutes(tasks))
    ensures var t := TotalDurationHHMM(tasks); |t| >= 5 && AllDigits(t[|t| - 2..]) && DigitsValue(t[|t| - 2..]) < 60
  {
    var total := TotalMinutes(tasks);
    var hh, mm := total / 60, total % 60;
    assert mm < 60 && JsRem(total, 60) == mm && IntToString(hh) == NatToString(hh) && IntToString(mm) == NatToString(mm);
    Pad2Value(hh);
    Pad2Value(mm);
    var h, m := Pad2(NatToString(hh)), Pad2(NatToString(mm));
    ReadMinutes(h, m);
    assert h + ":" + m == TotalDurationHHMM(tasks);
    assert DigitsValue(h) * 60 + DigitsValue(m) == total;
    var t := TotalDurationHHMM(tasks);
    assert t[|t| - 2..] == m;
  }

  /** The two fields of an `H:MM` text are found again by position. */
  lemma ReadMinutes(h: string, m: string)
    requires AllDigits(h) && AllDigits(m) && |h| >= 2 && |m| == 2
    ensures ReadHHMM(h + ":" + m).Some?
    ensures ReadHHMM(h + ":" + m).value == DigitsValue(h) * 60 + DigitsValue(m)
  {
    var t := h + ":" + m;
    assert t[|t| - 3] == ':';
    assert t[..|t| - 3] == h;
    assert t[|t| - 2..] == m;
    var v := DigitsValue(h) * 60 + DigitsValue(m);
    assert ReadHHMM(t).Some?;
    assert ReadHHMM(t).value == v;
  }

  /** The total counts each task by its first present property, and sums over a concatenation add up. */
  lemma {:induction false} TotalMinutesAppend(a: seq<Task>, b: seq<Task>)
    ensures TotalMinutes(a + b) == TotalMinutes(a) + TotalMinutes(b)
    decreases |b|
  {
    if b == [] {
      assert a + b == a;
    } else {
      var ab := a + b;
      assert ab[..|ab| - 1] == a + b[..|b| - 1];
      TotalMinutesAppend(a, b[..|b| - 1]);
    }
  }

  /**
   * A negative total keeps the signs JavaScript gives it: -5 minutes is written
   * "-1:-5", since the hours are floored and the minutes truncated.
   */
  lemma NegativeTotal()
    ensures TotalDurationHHMM([Task(Some(-5), Some(30))]) == "-1:-5"
    ensures TotalDurationHHMM([Task(None, Some(0)), Task(Some(0), Some(90))]) == "00:00"
  {
    var one := [Task(Some(-5), Some(30))];
    assert one[..0] == [];
    assert IntToString(-1) == "-1";
    assert IntToString(-5) == "-5";
    var two := [Task(None, Some(0)), Task(Some(0), Some(90))];
    assert two[..1][..0] == [];
    assert two[..1] == [Task(None, Some(0))];
  }
}
