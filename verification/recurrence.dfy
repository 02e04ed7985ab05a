/** NextDate: the first date strictly after `now` that a repeat rule selects,
    walking forward from an anchor date. */
module Recurrence {
  import opened Results
  import opened Decimal
  import opened Strings
  import opened Calendar
  import opened DateText
  import opened Rules

  /** The weekly and monthly walks give up after ten years of 365 days. */
  const SearchBound: nat := 365 * 10

  /** isLastDayOfMonth: the next day is the first of a month. */
  function IsLastDayOfMonth(t: Date): (b: bool)
    requires Valid(t)
    ensures b <==> t.day == DaysIn(t.month, t.year)
  {
    assert AddDays(t, 1) == Next(t) by { assert AddDays(t, 1) == AddDays(Next(t), 0); }
    AddDays(t, 1).day == 1
  }

  /** isSecondToLastDayOfMonth: two days later is the first of a month, or is
      in another month. The second disjunct also holds on the last day, so the
      predicate covers the last two days of every month. */
  function IsSecondToLastDayOfMonth(t: Date): (b: bool)
    requires Valid(t)
    ensures b <==> t.day >= DaysIn(t.month, t.year) - 1
  {
    assert AddDays(t, 2) == Next(Next(t)) by {
      assert AddDays(t, 2) == AddDays(Next(t), 1);
      assert AddDays(Next(t), 1) == AddDays(Next(Next(t)), 0);
    }
    var later := AddDays(t, 2);
    later.day == 1 || t.month != later.month
  }

  /** Whether a candidate day ends a weekly or monthly walk. */
  predicate Qualifies(rule: Rule, now: Date, c: Date): (b: bool)
    ensures !(rule.Weekly? || rule.Monthly?) ==> !b
    ensures rule.Weekly? ==> (b <==> Valid(c) && Weekday(c) in rule.weekdays && After(c, now))
    ensures rule.Monthly? && Valid(c) ==> (b <==>
      && After(c, now)
      && (rule.months.None? || c.month in rule.months.value)
      && (|| c.day in rule.days
          || (rule.lastDay && c.day == DaysIn(c.month, c.year))
          || (rule.secondToLastDay && c.day >= DaysIn(c.month, c.year) - 1)))
  {
    && Valid(c)
    && match rule
       case Weekly(ws) => Weekday(c) in ws && After(c, now)
       case Monthly(days, lastDay, secondToLastDay, months) =>
         && After(c, now)
         && (months.None? || c.month in months.value)
         && (|| c.day in days
             || (lastDay && IsLastDayOfMonth(c))
             || (secondToLastDay && IsSecondToLastDayOfMonth(c)))
       case _ => false
  }

  /** from + j days is the first day after `from` that satisfies p. */
  ghost predicate FirstWhere(p: Date -> bool, from: Date, j: nat)
    requires Valid(from)
  {
    && 1 <= j
    && p(AddDays(from, j))
    && forall i :: 1 <= i < j ==> !p(AddDays(from, i))
  }

  /** No day of the window from + 1 .. from + fuel satisfies p. */
  ghost predicate NoneWhere(p: Date -> bool, from: Date, fuel: nat)
    requires Valid(from)
  {
    forall i :: 1 <= i <= fuel ==> !p(AddDays(from, i))
  }

  /** The day-by-day walk of the weekly and monthly rules: step one day at a
      time, at most `fuel` times, and stop at the first day satisfying p. */
  function Search(p: Date -> bool, from: Date, fuel: nat): (r: Option<Date>)
    requires Valid(from)
    ensures r.None? <==> NoneWhere(p, from, fuel)
    ensures r.Some? ==> exists j: nat :: j <= fuel && FirstWhere(p, from, j) && r.value == AddDays(from, j)
    ensures r.Some? ==> p(r.value) && After(r.value, from)
    decreases fuel
  {
    if fuel == 0 then
      None
    else
      var next := AddDays(from, 1);
      AddDaysNumber(from, 1);
      if p(next) then
        Some(next)
      else
        var r := Search(p, next, fuel - 1);
        SearchStep(p, from, fuel, r);
        r
  }

  lemma SearchStep(p: Date -> bool, from: Date, fuel: nat, r: Option<Date>)
    requires Valid(from) && fuel >= 1
    requires !p(AddDays(from, 1))
    requires r.None? <==> NoneWhere(p, AddDays(from, 1), fuel - 1)
    requires r.Some? ==> exists j: nat :: j <= fuel - 1 && FirstWhere(p, AddDays(from, 1), j) && r.value == AddDays(AddDays(from, 1), j)
    ensures r.None? <==> NoneWhere(p, from, fuel)
    ensures r.Some? ==> exists j: nat :: j <= fuel && FirstWhere(p, from, j) && r.value == AddDays(from, j)
  {
    var next := AddDays(from, 1);
    NoneShift(p, from, fuel);
    if r.Some? {
      var j: nat :| j <= fuel - 1 && FirstWhere(p, next, j) && r.value == AddDays(next, j);
      FirstShift(p, from, j);
    }
  }

  lemma NoneShift(p: Date -> bool, from: Date, fuel: nat)
    requires Valid(from) && fuel >= 1 && !p(AddDays(from, 1))
    ensures NoneWhere(p, AddDays(from, 1), fuel - 1) <==> NoneWhere(p, from, fuel)
  {
    if NoneWhere(p, AddDays(from, 1), fuel - 1) {
      NoneForward(p, from, fuel);
    } else {
      SomeForward(p, from, fuel);
    }
  }

  lemma NoneForward(p: Date -> bool, from: Date, fuel: nat)
    requires Valid(from) && fuel >= 1 && !p(AddDays(from, 1))
    requires NoneWhere(p, AddDays(from, 1), fuel - 1)
    ensures NoneWhere(p, from, fuel)
  {
    var next := AddDays(from, 1);
    forall i | 1 <= i <= fuel
      ensures !p(AddDays(from, i))
    {
      if i > 1 {
        AddDaysAdd(from, 1, i - 1);
        assert !p(AddDays(next, i - 1));
      }
    }
  }

  lemma SomeForward(p: Date -> bool, from: Date, fuel: nat)
    requires Valid(from) && fuel >= 1
    requires !NoneWhere(p, AddDays(from, 1), fuel - 1)
    ensures !NoneWhere(p, from, fuel)
  {
    var next := AddDays(from, 1);
    var k :| 1 <= k <= fuel - 1 && p(AddDays(next, k));
    AddDaysAdd(from, 1, k);
    assert p(AddDays(from, k + 1));
  }

  lemma FirstShift(p: Date -> bool, from: Date, j: nat)
    requires Valid(from) && !p(AddDays(from, 1)) && FirstWhere(p, AddDays(from, 1), j)
    ensures FirstWhere(p, from, j + 1) && AddDays(AddDays(from, 1), j) == AddDays(from, j + 1)
  {
    var next := AddDays(from, 1);
    AddDaysAdd(from, 1, j);
    forall i | 1 <= i < j + 1
      ensures !p(AddDays(from, i))
    {
      if i > 1 {
        AddDaysAdd(from, 1, i - 1);
        assert !p(AddDays(next, i - 1));
      }
    }
  }

  /** A walk that reaches the first day satisfying p within its fuel returns it. */
  lemma SearchFinds(p: Date -> bool, from: Date, fuel: nat, j: nat)
    requires Valid(from) && j <= fuel && FirstWhere(p, from, j)
    ensures Search(p, from, fuel) == Some(AddDays(from, j))
  {
    var r := Search(p, from, fuel);
    assert !NoneWhere(p, from, fuel);
    var k: nat :| k <= fuel && FirstWhere(p, from, k) && r.value == AddDays(from, k);
    FirstUnique(p, from, j, k);
    assert r == Some(AddDays(from, j));
  }

  lemma FirstUnique(p: Date -> bool, from: Date, j: nat, k: nat)
    requires Valid(from) && FirstWhere(p, from, j) && FirstWhere(p, from, k)
    ensures j == k
  {
  }

  /** The candidate test of a rule's walk, as a predicate on days. */
  function Selects(rule: Rule, now: Date): Date -> bool {
    c => Qualifies(rule, now, c)
  }

  /** k successive applications of AddDate(1, 0, 0). */
  function AddYears(d: Date, k: nat): (r: Date)
    requires Valid(d)
    ensures Valid(r)
    decreases k
  {
    if k == 0 then d else AddYears(AddYear(d), k - 1)
  }

  /** k yearly steps from d first pass `now` at step k. */
  ghost predicate FirstYearAfter(now: Date, d: Date, k: nat)
    requires Valid(d)
  {
    && k >= 1
    && After(AddYears(d, k), now)
    && forall j :: 1 <= j < k ==> !After(AddYears(d, j), now)
  }

  /** The "y" walk: add a year until the date is after `now`. */
  function YearlyFrom(now: Date, d: Date): (r: Date)
    requires Valid(d)
    ensures Valid(r) && After(r, now) && After(r, d)
    ensures exists k: nat :: FirstYearAfter(now, d, k) && r == AddYears(d, k)
    decreases DayNumber(now) - DayNumber(d)
  {
    var next := AddYear(d);
    assert AddYears(d, 1) == next by { assert AddYears(d, 1) == AddYears(next, 0); }
    if After(next, now) then
      assert FirstYearAfter(now, d, 1);
      next
    else
      var r := YearlyFrom(now, next);
      YearlyStep(now, d, r);
      r
  }

  lemma YearlyStep(now: Date, d: Date, r: Date)
    requires Valid(d) && !After(AddYear(d), now)
    requires exists k: nat :: FirstYearAfter(now, AddYear(d), k) && r == AddYears(AddYear(d), k)
    ensures exists k: nat :: FirstYearAfter(now, d, k) && r == AddYears(d, k)
  {
    var k: nat :| FirstYearAfter(now, AddYear(d), k) && r == AddYears(AddYear(d), k);
    YearShift(now, d, k);
  }

  lemma YearShift(now: Date, d: Date, k: nat)
    requires Valid(d) && !After(AddYear(d), now) && FirstYearAfter(now, AddYear(d), k)
    ensures FirstYearAfter(now, d, k + 1) && AddYears(d, k + 1) == AddYears(AddYear(d), k)
  {
    var next := AddYear(d);
    assert AddYears(d, 1) == next by { assert AddYears(d, 1) == AddYears(next, 0); }
    forall j | 1 <= j < k + 1
      ensures !After(AddYears(d, j), now)
    {
      if j > 1 {
        assert AddYears(d, j) == AddYears(next, j - 1);
        assert !After(AddYears(next, j - 1), now);
      }
    }
  }

  /** k successive applications of AddDate(0, 0, step). */
  function AddSteps(d: Date, step: nat, k: nat): (r: Date)
    requires Valid(d)
    ensures Valid(r)
    decreases k
  {
    if k == 0 then d else AddSteps(AddDays(d, step), step, k - 1)
  }

  /** k steps of `step` days are k * step days. */
  lemma {:induction false} AddStepsIsMultiple(d: Date, step: nat, k: nat) returns (m: nat)
    requires Valid(d)
    ensures m == k * step && AddSteps(d, step, k) == AddDays(d, m)
    decreases k
  {
    if k == 0 {
      m := 0;
    } else {
      var next := AddDays(d, step);
      var m' := AddStepsIsMultiple(next, step, k - 1);
      m := MultipleStep(k - 1, step);
      AddDaysAdd(d, step, m');
      assert AddSteps(d, step, k) == AddSteps(next, step, k - 1);
    }
  }

  lemma MultipleStep(k: nat, step: nat) returns (m: nat)
    ensures m == (k + 1) * step && m == step + k * step
  {
    m := (k + 1) * step;
  }

  /** k daily-interval steps from d first pass `now` at step k. */
  ghost predicate FirstStepAfter(now: Date, d: Date, step: nat, k: nat)
    requires Valid(d)
  {
    && k >= 1
    && After(AddSteps(d, step, k), now)
    && forall j :: 1 <= j < k ==> !After(AddSteps(d, step, j), now)
  }

  /** The "d <n>" walk: add n days until the date is after `now`. */
  function DailyFrom(now: Date, d: Date, step: nat): (r: Date)
    requires Valid(d) && step >= 1
    ensures Valid(r) && After(r, now) && After(r, d)
    ensures exists k: nat :: FirstStepAfter(now, d, step, k) && r == AddSteps(d, step, k)
    decreases DayNumber(now) - DayNumber(d)
  {
    var next := AddDays(d, step);
    AddDaysNumber(d, step);
    assert AddSteps(d, step, 1) == next by { assert AddSteps(d, step, 1) == AddSteps(next, step, 0); }
    if After(next, now) then
      assert FirstStepAfter(now, d, step, 1);
      next
    else
      var r := DailyFrom(now, next, step);
      DailyStep(now, d, step, r);
      r
  }

  lemma DailyStep(now: Date, d: Date, step: nat, r: Date)
    requires Valid(d) && !After(AddDays(d, step), now)
    requires exists k: nat :: FirstStepAfter(now, AddDays(d, step), step, k) && r == AddSteps(AddDays(d, step), step, k)
    ensures exists k: nat :: FirstStepAfter(now, d, step, k) && r == AddSteps(d, step, k)
  {
    var k: nat :| FirstStepAfter(now, AddDays(d, step), step, k) && r == AddSteps(AddDays(d, step), step, k);
    StepShift(now, d, step, k);
  }

  lemma StepShift(now: Date, d: Date, step: nat, k: nat)
    requires Valid(d) && !After(AddDays(d, step), now) && FirstStepAfter(now, AddDays(d, step), step, k)
    ensures FirstStepAfter(now, d, step, k + 1) && AddSteps(d, step, k + 1) == AddSteps(AddDays(d, step), step, k)
  {
    var next := AddDays(d, step);
    assert AddSteps(d, step, 1) == next by { assert AddSteps(d, step, 1) == AddSteps(next, step, 0); }
    forall j | 1 <= j < k + 1
      ensures !After(AddSteps(d, step, j), now)
    {
      if j > 1 {
        assert AddSteps(d, step, j) == AddSteps(next, step, j - 1);
        assert !After(AddSteps(next, step, j - 1), now);
      }
    }
  }

  /** The "d <n>" result is the anchor plus k * n days for the first k >= 1
      that lands after `now`; the step before it is not after `now`. */
  lemma DailySteps(now: Date, d: Date, step: nat) returns (k: nat, days: nat)
    requires Valid(d) && step >= 1
    ensures k >= 1 && days == k * step
    ensures DailyFrom(now, d, step) == AddDays(d, days) && After(AddDays(d, days), now)
    ensures k > 1 ==> days >= step && !After(AddDays(d, days - step), now)
  {
    var r := DailyFrom(now, d, step);
    k :| FirstStepAfter(now, d, step, k) && r == AddSteps(d, step, k);
    days := AddStepsIsMultiple(d, step, k);
    if k > 1 {
      var before := AddStepsIsMultiple(d, step, k - 1);
      var again := MultipleStep(k - 1, step);
    }
  }

  /** The date a well-formed rule yields from a parsed anchor: Some date, or
      None for the empty result. */
  function Occurrence(now: Date, anchor: Date, rule: Rule): (r: Result<Option<Date>, Error>)
    requires Valid(anchor) && WellFormed(rule)
    ensures r.Ok? && r.value.Some? ==> Valid(r.value.value) && After(r.value.value, now) && After(r.value.value, anchor)
    ensures r.Err? <==> rule.Monthly? && NoneWhere(Selects(rule, now), anchor, SearchBound)
    ensures r.Err? ==> r.error == NoMonthlyMatch
    ensures r == Ok(None) <==> rule.Unsupported? || (rule.Weekly? && NoneWhere(Selects(rule, now), anchor, SearchBound))
  {
    match rule
    case Yearly => Ok(Some(YearlyFrom(now, anchor)))
    case Daily(step) => Ok(Some(DailyFrom(now, anchor, step)))
    case Weekly(_) => Ok(Search(Selects(rule, now), anchor, SearchBound))
    case Monthly(_, _, _, _) =>
      (match Search(Selects(rule, now), anchor, SearchBound)
       case Some(c) => Ok(Some(c))
       case None => Err(NoMonthlyMatch))
    case Unsupported => Ok(None)
  }

  /** NextDate(now, dateStr, repeat): the next date of the rule as YYYYMMDD
      text, "" for the empty result, or an error. The empty rule and a bad
      anchor are rejected before the rule is looked at. */
  function NextDate(now: Date, dateStr: string, repeat: string): (r: Result<string, Error>)
    ensures repeat == "" ==> r == Err(EmptyRule)
    ensures repeat != "" && ParseDate(dateStr).None? ==> r == Err(BadAnchorDate)
    ensures r.Ok? && r.value != "" ==> AllDigits(r.value) && |r.value| >= 8
    ensures r.Err? && r.error !in {EmptyRule, BadAnchorDate, NoMonthlyMatch} ==> ParseRule(repeat) == Err(r.error)
  {
    if repeat == "" then
      Err(EmptyRule)
    else
      match ParseDate(dateStr)
      case None => Err(BadAnchorDate)
      case Some(anchor) =>
        match ParseRule(repeat)
        case Err(e) => Err(e)
        case Ok(rule) =>
          match Occurrence(now, anchor, rule)
          case Err(e) => Err(e)
          case Ok(None) => Ok("")
          case Ok(Some(c)) => Ok(FormatDate(c))
  }

  /** Any date NextDate prints is the formatting of a valid date strictly after
      both the anchor and `now`: each walk steps before it tests. */
  lemma NextDateAfter(now: Date, dateStr: string, repeat: string) returns (c: Date)
    requires NextDate(now, dateStr, repeat).Ok? && NextDate(now, dateStr, repeat).value != ""
    ensures ParseDate(dateStr).Some?
    ensures Valid(c) && FormatDate(c) == NextDate(now, dateStr, repeat).value
    ensures After(c, now) && After(c, ParseDate(dateStr).value)
  {
    var anchor := ParseDate(dateStr).value;
    var rule := ParseRule(repeat).value;
    c := Occurrence(now, anchor, rule).value.value;
  }

  /** "y": the anchor advanced by the first number k >= 1 of whole years that
      lands after `now`; extra tokens after "y" are ignored. */
  lemma NextDateYearly(now: Date, dateStr: string, repeat: string) returns (k: nat)
    requires repeat != "" && ParseDate(dateStr).Some? && Split(repeat, ' ')[0] == "y"
    ensures var anchor := ParseDate(dateStr).value;
      && FirstYearAfter(now, anchor, k)
      && NextDate(now, dateStr, repeat) == Ok(FormatDate(AddYears(anchor, k)))
  {
    var anchor := ParseDate(dateStr).value;
    var r := YearlyFrom(now, anchor);
    k :| FirstYearAfter(now, anchor, k) && r == AddYears(anchor, k);
  }

  /** "d <n>": the anchor plus k * n days for the first k >= 1 that lands after
      `now`; with k > 1 the previous step, n days earlier, is not after `now`. */
  lemma NextDateDaily(now: Date, dateStr: string, repeat: string) returns (anchor: Date, n: int, k: nat, days: nat)
    requires repeat != "" && ParseDate(dateStr).Some?
    requires ParseRule(repeat).Ok? && ParseRule(repeat).value.Daily?
    ensures ParseDate(dateStr) == Some(anchor) && ParseRule(repeat) == Ok(Daily(n))
    ensures 1 <= n <= 400 && k >= 1 && days == k * n
    ensures NextDate(now, dateStr, repeat) == Ok(FormatDate(AddDays(anchor, days)))
    ensures After(AddDays(anchor, days), now)
    ensures k > 1 ==> days >= n && !After(AddDays(anchor, days - n), now)
  {
    anchor, n := ParseDate(dateStr).value, ParseRule(repeat).value.step;
    NextDateOccurrence(now, dateStr, repeat);
    k, days := DailyOccurrence(now, anchor, n);
  }

  lemma DailyOccurrence(now: Date, anchor: Date, n: int) returns (k: nat, days: nat)
    requires Valid(anchor) && 1 <= n <= 400
    ensures k >= 1 && days == k * n
    ensures Occurrence(now, anchor, Daily(n)) == Ok(Some(AddDays(anchor, days)))
    ensures After(AddDays(anchor, days), now)
    ensures k > 1 ==> days >= n && !After(AddDays(anchor, days - n), now)
  {
    k, days := DailySteps(now, anchor, n);
  }

  /** With the date and the rule parsed, NextDate prints the rule's
      occurrence. */
  lemma NextDateOccurrence(now: Date, dateStr: string, repeat: string)
    requires repeat != "" && ParseDate(dateStr).Some? && ParseRule(repeat).Ok?
    ensures var anchor, rule := ParseDate(dateStr).value, ParseRule(repeat).value;
      NextDate(now, dateStr, repeat) ==
        match Occurrence(now, anchor, rule)
        case Err(e) => Err(e)
        case Ok(None) => Ok("")
        case Ok(Some(c)) => Ok(FormatDate(c))
  {
  }

  /** The day a successful walk stops at, as an offset from its start. */
  lemma SearchWitness(p: Date -> bool, from: Date, fuel: nat) returns (j: nat)
    requires Valid(from)
    ensures Search(p, from, fuel).Some? ==>
      1 <= j <= fuel && FirstWhere(p, from, j) && Search(p, from, fuel) == Some(AddDays(from, j))
  {
    j := 0;
    if Search(p, from, fuel).Some? {
      j :| j <= fuel && FirstWhere(p, from, j) && Search(p, from, fuel).value == AddDays(from, j);
    }
  }

  /** The weekly and monthly walks: the first qualifying day of the window,
      or, when the window holds none, the empty result for a weekly rule and
      an error for a monthly one. */
  lemma Walk(now: Date, anchor: Date, rule: Rule) returns (j: nat)
    requires Valid(anchor) && WellFormed(rule) && (rule.Weekly? || rule.Monthly?)
    ensures NoneWhere(Selects(rule, now), anchor, SearchBound) ==>
      Occurrence(now, anchor, rule) == if rule.Monthly? then Err(NoMonthlyMatch) else Ok(None)
    ensures !NoneWhere(Selects(rule, now), anchor, SearchBound) ==>
      && 1 <= j <= SearchBound
      && FirstWhere(Selects(rule, now), anchor, j)
      && Occurrence(now, anchor, rule) == Ok(Some(AddDays(anchor, j)))
  {
    j := SearchWitness(Selects(rule, now), anchor, SearchBound);
  }

  /** The ISO weekday number, Monday 1 through Sunday 7. */
  function IsoWeekday(d: Date): (iso: int)
    ensures 1 <= iso <= 7 && iso % 7 == Weekday(d)
  {
    if Weekday(d) == 0 then 7 else Weekday(d)
  }

  /** "w <list>": the first day of the ten-year window after the anchor that
      is after `now` and falls on a listed weekday; "" with no error when the
      window holds none. */
  lemma NextDateWeekly(now: Date, dateStr: string, repeat: string) returns (j: nat)
    requires repeat != "" && ParseDate(dateStr).Some?
    requires ParseRule(repeat).Ok? && ParseRule(repeat).value.Weekly?
    ensures var anchor, rule := ParseDate(dateStr).value, ParseRule(repeat).value;
      && (NextDate(now, dateStr, repeat) == Ok("") <==> NoneWhere(Selects(rule, now), anchor, SearchBound))
      && (NextDate(now, dateStr, repeat) != Ok("") ==>
            && 1 <= j <= SearchBound
            && FirstWhere(Selects(rule, now), anchor, j)
            && NextDate(now, dateStr, repeat) == Ok(FormatDate(AddDays(anchor, j)))
            && After(AddDays(anchor, j), now)
            && Weekday(AddDays(anchor, j)) in rule.weekdays)
  {
    j := Walk(now, ParseDate(dateStr).value, ParseRule(repeat).value);
  }

  /** A day whose weekday is in the parsed weekly set has its ISO number
      written in the rule's list. */
  lemma WeeklyDayListed(repeat: string, d: Date)
    requires ParseRule(repeat).Ok? && ParseRule(repeat).value.Weekly?
    requires Weekday(d) in ParseRule(repeat).value.weekdays
    ensures Lists(Split(Split(repeat, ' ')[1], ','), IsoWeekday(d))
  {
  }

  /** "m <days> [<months>]": the first day of the ten-year window after the
      anchor that is after `now`, in a selected month and on a selected day;
      an error when the window holds none. */
  lemma NextDateMonthly(now: Date, dateStr: string, repeat: string) returns (j: nat)
    requires repeat != "" && ParseDate(dateStr).Some?
    requires ParseRule(repeat).Ok? && ParseRule(repeat).value.Monthly?
    ensures var anchor, rule := ParseDate(dateStr).value, ParseRule(repeat).value;
      && (NextDate(now, dateStr, repeat) == Err(NoMonthlyMatch) <==> NoneWhere(Selects(rule, now), anchor, SearchBound))
      && (NextDate(now, dateStr, repeat).Ok? ==>
            && 1 <= j <= SearchBound
            && FirstWhere(Selects(rule, now), anchor, j)
            && NextDate(now, dateStr, repeat) == Ok(FormatDate(AddDays(anchor, j))))
  {
    j := Walk(now, ParseDate(dateStr).value, ParseRule(repeat).value);
  }

  /** An unknown kind token yields the empty result with no error. */
  lemma NextDateUnsupported(now: Date, dateStr: string, repeat: string)
    requires repeat != "" && ParseDate(dateStr).Some?
    requires Split(repeat, ' ')[0] !in {"y", "d", "w", "m"}
    ensures NextDate(now, dateStr, repeat) == Ok("")
  {
  }
}
