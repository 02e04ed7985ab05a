/** Worked cases of NextDate and checkDate on concrete dates. */
module Examples {
  import opened Results
  import opened Decimal
  import opened Strings
  import opened Calendar
  import opened DateText
  import opened Rules
  import opened Recurrence
  import opened Tasks

  /** NextDate on a formatted anchor prints the occurrence of the parsed
      rule. */
  lemma Composed(now: Date, anchor: Date, repeat: string, rule: Rule, c: Date)
    requires Valid(anchor) && anchor.year <= 9999 && repeat != ""
    requires ParseRule(repeat) == Ok(rule) && Occurrence(now, anchor, rule) == Ok(Some(c))
    ensures NextDate(now, FormatDate(anchor), repeat) == Ok(FormatDate(c))
  {
    ParseFormat(anchor);
  }

  /** NextDate on a formatted anchor reports the rule's parse error. */
  lemma ComposedError(now: Date, anchor: Date, repeat: string, e: Error)
    requires Valid(anchor) && anchor.year <= 9999 && repeat != ""
    requires ParseRule(repeat) == Err(e)
    ensures NextDate(now, FormatDate(anchor), repeat) == Err(e)
  {
    ParseFormat(anchor);
  }

  /** The layout prints a date as four, two and two zero-padded digits:
      year, then month, then day. */
  lemma LayoutExample()
    ensures FormatDate(Date(2023, 3, 15)) == "20230315"
  {
    assert Digits(2023, 4) == "2023";
    assert Digits(3, 2) == "03";
    assert Digits(15, 2) == "15";
    assert FormatDate(Date(2023, 3, 15)) == Digits(2023, 4) + Digits(3, 2) + Digits(15, 2);
  }

  /** "y" from January 1, 2023 with today January 15, 2023: a year later. */
  lemma YearlyExample()
    ensures NextDate(Date(2023, 1, 15), FormatDate(Date(2023, 1, 1)), "y") == Ok(FormatDate(Date(2024, 1, 1)))
  {
    ParseFormat(Date(2023, 1, 1));
    assert Split("y", ' ') == ["y"];
  }

  lemma DailyRuleText()
    ensures ParseRule("d 3") == Ok(Daily(3))
  {
    assert Join(["d", "3"], ' ') == "d 3";
    SplitJoin(["d", "3"], ' ');
  }

  lemma DailyWalk()
    ensures DailyFrom(Date(2023, 1, 5), Date(2023, 1, 1), 3) == Date(2023, 1, 7)
  {
    AddDaysWithinMonth(Date(2023, 1, 1), 3);
    AddDaysWithinMonth(Date(2023, 1, 4), 3);
  }

  /** "d 3" from January 1 with today January 5: January 4 is not after
      today, January 7 is. */
  lemma DailyExample()
    ensures NextDate(Date(2023, 1, 5), FormatDate(Date(2023, 1, 1)), "d 3") == Ok(FormatDate(Date(2023, 1, 7)))
  {
    DailyRuleText();
    DailyWalk();
    Composed(Date(2023, 1, 5), Date(2023, 1, 1), "d 3", Daily(3), Date(2023, 1, 7));
  }

  /** An interval above 400 days is rejected. */
  lemma DailyTooLong()
    ensures ParseRule("d 401") == Err(BadDailyRule)
  {
    assert Join(["d", "401"], ' ') == "d 401";
    SplitJoin(["d", "401"], ' ');
    assert Digits(401, 1) == "401";
    AtoiIntText(401);
  }

  /** ISO weekday 8 does not exist. */
  lemma WeekdayOutOfRange()
    ensures ParseRule("w 8") == Err(BadWeekday)
  {
    assert Join(["w", "8"], ' ') == "w 8";
    SplitJoin(["w", "8"], ' ');
    assert Split("8", ',') == ["8"];
  }

  lemma DailyTooLongExample()
    ensures NextDate(Date(2023, 1, 5), FormatDate(Date(2023, 1, 1)), "d 401") == Err(BadDailyRule)
  {
    DailyTooLong();
    ComposedError(Date(2023, 1, 5), Date(2023, 1, 1), "d 401", BadDailyRule);
  }

  lemma WeekdayOutOfRangeExample()
    ensures NextDate(Date(2023, 1, 5), FormatDate(Date(2023, 1, 1)), "w 8") == Err(BadWeekday)
  {
    WeekdayOutOfRange();
    ComposedError(Date(2023, 1, 5), Date(2023, 1, 1), "w 8", BadWeekday);
  }

  lemma WeeklyRuleSplit()
    ensures Split("w 1,3", ' ') == ["w", "1,3"] && Split("1,3", ',') == ["1", "3"]
  {
    assert Join(["w", "1,3"], ' ') == "w 1,3";
    SplitJoin(["w", "1,3"], ' ');
    assert Join(["1", "3"], ',') == "1,3";
    SplitJoin(["1", "3"], ',');
  }

  /** The weekday list "1,3" selects Monday and Wednesday but not Tuesday. */
  lemma WeeklyEntries(entries: seq<string>)
    requires entries == ["1", "3"]
    ensures AllWithin(entries, 1, 7)
    ensures Lists(entries, 1) && !Lists(entries, 2) && Lists(entries, 3)
  {
    assert Atoi(entries[0]) == Some(1);
    assert Atoi(entries[1]) == Some(3);
  }

  /** "w 1,3": ISO Monday and Wednesday. */
  lemma WeeklyRuleText(repeat: string) returns (rule: Rule)
    requires repeat == "w 1,3"
    ensures ParseRule(repeat) == Ok(rule) && rule.Weekly?
    ensures 1 in rule.weekdays && 2 !in rule.weekdays && 3 in rule.weekdays
  {
    WeeklyRuleSplit();
    WeeklyKind(repeat);
    rule := WeeklyParsed(Split(repeat, ' '));
  }

  lemma WeeklyKind(repeat: string)
    requires Split(repeat, ' ')[0] == "w"
    ensures ParseRule(repeat) == ParseWeekly(Split(repeat, ' '))
  {
  }

  lemma WeeklyParsed(parts: seq<string>) returns (rule: Rule)
    requires parts == ["w", "1,3"] && Split(parts[1], ',') == ["1", "3"]
    ensures ParseWeekly(parts) == Ok(rule) && rule.Weekly?
    ensures 1 in rule.weekdays && 2 !in rule.weekdays && 3 in rule.weekdays
  {
    var entries := Split(parts[1], ',');
    WeeklyEntries(entries);
    rule := ParseWeekly(parts).value;
    WeeklyMembers(rule.weekdays, entries);
  }

  lemma WeeklyMembers(weekdays: set<int>, entries: seq<string>)
    requires forall iso :: 1 <= iso <= 7 ==> (iso % 7 in weekdays <==> Lists(entries, iso))
    requires Lists(entries, 1) && !Lists(entries, 2) && Lists(entries, 3)
    ensures 1 in weekdays && 2 !in weekdays && 3 in weekdays
  {
    assert 1 % 7 == 1 && 2 % 7 == 2 && 3 % 7 == 3;
  }

  /** From Monday, January 1, 2024, a Monday-or-Wednesday walk stops on
      Wednesday, January 3. */
  lemma WeeklyWalk(rule: Rule)
    requires WellFormed(rule) && rule.Weekly? && 2 !in rule.weekdays && 3 in rule.weekdays
    ensures Occurrence(Date(2024, 1, 1), Date(2024, 1, 1), rule) == Ok(Some(Date(2024, 1, 3)))
  {
    var start := Date(2024, 1, 1);
    var p := Selects(rule, start);
    AddDaysWithinMonth(start, 1);
    AddDaysWithinMonth(start, 2);
    WeekdayPinned();
    WeekdayNext(start);
    WeekdayNext(Date(2024, 1, 2));
    assert Weekday(Date(2024, 1, 2)) == 2 && Weekday(Date(2024, 1, 3)) == 3;
    assert FirstWhere(p, start, 2);
    SearchFinds(p, start, SearchBound, 2);
  }

  /** January 1, 2024 is a Monday; with today the same day, the next Monday
      or Wednesday is Wednesday, January 3. */
  lemma WeeklyExample()
    ensures NextDate(Date(2024, 1, 1), FormatDate(Date(2024, 1, 1)), "w 1,3") == Ok(FormatDate(Date(2024, 1, 3)))
  {
    var rule := WeeklyRuleText("w 1,3");
    WeeklyWalk(rule);
    Composed(Date(2024, 1, 1), Date(2024, 1, 1), "w 1,3", rule, Date(2024, 1, 3));
  }

  /** A monthly rule with a single day entry v. */
  lemma MonthlySingle(parts: seq<string>, v: int) returns (rule: Rule)
    requires |parts| == 2 && Split(parts[1], ',') == [parts[1]] && Atoi(parts[1]) == Some(v)
    requires -2 <= v <= 31 && v != 0
    ensures ParseMonthly(parts) == Ok(rule) && rule.Monthly? && WellFormed(rule)
    ensures rule.months.None?
    ensures forall x :: 1 <= x <= 31 ==> (x in rule.days <==> x == v)
    ensures rule.lastDay <==> v == -1
    ensures rule.secondToLastDay <==> v == -2
  {
    var entries := Split(parts[1], ',');
    assert AllMonthDays(entries);
    rule := ParseMonthly(parts).value;
    forall x | 1 <= x <= 31
      ensures x in rule.days <==> x == v
    {
      if x == v {
        assert Atoi(entries[0]) == Some(x);
      }
    }
    if v == -1 {
      assert Atoi(entries[0]) == Some(-1);
    }
    if v == -2 {
      assert Atoi(entries[0]) == Some(-2);
    }
  }

  lemma MonthlyText(repeat: string, arg: string, v: int) returns (rule: Rule)
    requires repeat == "m " + arg && ' ' !in arg && ',' !in arg && |arg| >= 1
    requires Atoi(arg) == Some(v) && -2 <= v <= 31 && v != 0
    ensures ParseRule(repeat) == Ok(rule) && rule.Monthly? && WellFormed(rule)
    ensures rule.months.None?
    ensures forall x :: 1 <= x <= 31 ==> (x in rule.days <==> x == v)
    ensures rule.lastDay <==> v == -1
    ensures rule.secondToLastDay <==> v == -2
  {
    assert Join(["m", arg], ' ') == repeat;
    SplitJoin(["m", arg], ' ');
    rule := MonthlySingle(Split(repeat, ' '), v);
  }

  /** Day d of March 2024 is d - 1 days after March 1. */
  lemma InMarch(i: nat)
    requires i <= 30
    ensures AddDays(Date(2024, 3, 1), i) == Date(2024, 3, 1 + i)
  {
    AddDaysWithinMonth(Date(2024, 3, 1), i);
  }

  /** "m -1" from March 1, 2024 stops on March 31. */
  lemma LastDayWalk(rule: Rule)
    requires WellFormed(rule) && rule.Monthly? && rule.months.None?
    requires rule.lastDay && !rule.secondToLastDay
    requires forall x :: 1 <= x <= 31 ==> x !in rule.days
    ensures Occurrence(Date(2024, 3, 1), Date(2024, 3, 1), rule) == Ok(Some(Date(2024, 3, 31)))
  {
    var start := Date(2024, 3, 1);
    var p := Selects(rule, start);
    forall i | 1 <= i < 30
      ensures !p(AddDays(start, i))
    {
      InMarch(i);
    }
    InMarch(30);
    assert FirstWhere(p, start, 30);
    SearchFinds(p, start, SearchBound, 30);
  }

  /** "m -2" from March 1, 2024, with today March 1, stops on March 30: the
      walk begins the day after the anchor. */
  lemma SecondToLastDayWalk(rule: Rule)
    requires WellFormed(rule) && rule.Monthly? && rule.months.None?
    requires !rule.lastDay && rule.secondToLastDay
    requires forall x :: 1 <= x <= 31 ==> x !in rule.days
    ensures Occurrence(Date(2024, 3, 1), Date(2024, 3, 1), rule) == Ok(Some(Date(2024, 3, 30)))
  {
    var start := Date(2024, 3, 1);
    var p := Selects(rule, start);
    forall i | 1 <= i < 29
      ensures !p(AddDays(start, i))
    {
      InMarch(i);
      assert !IsSecondToLastDayOfMonth(Date(2024, 3, 1 + i));
    }
    InMarch(29);
    assert FirstWhere(p, start, 29);
    SearchFinds(p, start, SearchBound, 29);
  }

  /** "m -2" with today March 30 moves on to March 31, which the rule also
      selects. */
  lemma SecondToLastDayLateWalk(rule: Rule)
    requires WellFormed(rule) && rule.Monthly? && rule.months.None?
    requires !rule.lastDay && rule.secondToLastDay
    requires forall x :: 1 <= x <= 31 ==> x !in rule.days
    ensures Occurrence(Date(2024, 3, 30), Date(2024, 3, 1), rule) == Ok(Some(Date(2024, 3, 31)))
  {
    var start := Date(2024, 3, 1);
    var p := Selects(rule, Date(2024, 3, 30));
    forall i | 1 <= i < 30
      ensures !p(AddDays(start, i))
    {
      InMarch(i);
    }
    InMarch(30);
    assert FirstWhere(p, start, 30);
    SearchFinds(p, start, SearchBound, 30);
  }

  lemma LastDayText() returns (rule: Rule)
    ensures ParseRule("m -1") == Ok(rule) && WellFormed(rule) && rule.Monthly? && rule.months.None?
    ensures rule.lastDay && !rule.secondToLastDay
    ensures forall x :: 1 <= x <= 31 ==> x !in rule.days
  {
    assert IntText(-1) == "-1";
    AtoiIntText(-1);
    rule := MonthlyText("m -1", "-1", -1);
  }

  lemma SecondToLastDayText() returns (rule: Rule)
    ensures ParseRule("m -2") == Ok(rule) && WellFormed(rule) && rule.Monthly? && rule.months.None?
    ensures !rule.lastDay && rule.secondToLastDay
    ensures forall x :: 1 <= x <= 31 ==> x !in rule.days
  {
    assert IntText(-2) == "-2";
    AtoiIntText(-2);
    rule := MonthlyText("m -2", "-2", -2);
  }

  /** "m -1" from March 1, 2024: March 31. */
  lemma LastDayExample()
    ensures NextDate(Date(2024, 3, 1), FormatDate(Date(2024, 3, 1)), "m -1") == Ok(FormatDate(Date(2024, 3, 31)))
  {
    var rule := LastDayText();
    LastDayWalk(rule);
    Composed(Date(2024, 3, 1), Date(2024, 3, 1), "m -1", rule, Date(2024, 3, 31));
  }

  /** "m -2" from March 1, 2024 with today March 1: March 30. */
  lemma SecondToLastDayExample()
    ensures NextDate(Date(2024, 3, 1), FormatDate(Date(2024, 3, 1)), "m -2") == Ok(FormatDate(Date(2024, 3, 30)))
  {
    var rule := SecondToLastDayText();
    SecondToLastDayWalk(rule);
    Composed(Date(2024, 3, 1), Date(2024, 3, 1), "m -2", rule, Date(2024, 3, 30));
  }

  /** "m -2" from March 1, 2024 with today March 30: March 31. */
  lemma SecondToLastDayLateExample()
    ensures NextDate(Date(2024, 3, 30), FormatDate(Date(2024, 3, 1)), "m -2") == Ok(FormatDate(Date(2024, 3, 31)))
  {
    var rule := SecondToLastDayText();
    SecondToLastDayLateWalk(rule);
    Composed(Date(2024, 3, 30), Date(2024, 3, 1), "m -2", rule, Date(2024, 3, 31));
  }

  /** The days after April 1, 2024 through May 31. */
  lemma InAprilOrMay(i: nat)
    requires i <= 60
    ensures i <= 29 ==> AddDays(Date(2024, 4, 1), i) == Date(2024, 4, 1 + i)
    ensures i >= 30 ==> AddDays(Date(2024, 4, 1), i) == Date(2024, 5, i - 29)
  {
    var start := Date(2024, 4, 1);
    if i <= 29 {
      AddDaysWithinMonth(start, i);
    } else {
      AddDaysWithinMonth(start, 29);
      assert AddDays(start, 30) == Date(2024, 5, 1) by {
        AddDaysAdd(start, 29, 1);
        assert AddDays(Date(2024, 4, 30), 1) == AddDays(Next(Date(2024, 4, 30)), 0);
      }
      AddDaysAdd(start, 30, i - 30);
      AddDaysWithinMonth(Date(2024, 5, 1), i - 30);
    }
  }

  /** "m 31" never matches in a 30-day month: from April 1, 2024 the walk
      passes over April and stops on May 31. */
  lemma Day31Walk(rule: Rule)
    requires WellFormed(rule) && rule.Monthly? && rule.months.None?
    requires !rule.lastDay && !rule.secondToLastDay
    requires forall x :: 1 <= x <= 31 ==> (x in rule.days <==> x == 31)
    ensures Occurrence(Date(2024, 4, 1), Date(2024, 4, 1), rule) == Ok(Some(Date(2024, 5, 31)))
  {
    var start := Date(2024, 4, 1);
    var p := Selects(rule, start);
    forall i | 1 <= i < 60
      ensures !p(AddDays(start, i))
    {
      InAprilOrMay(i);
    }
    InAprilOrMay(60);
    assert FirstWhere(p, start, 60);
    SearchFinds(p, start, SearchBound, 60);
  }

  lemma Day31Example()
    ensures NextDate(Date(2024, 4, 1), FormatDate(Date(2024, 4, 1)), "m 31") == Ok(FormatDate(Date(2024, 5, 31)))
  {
    assert IntText(31) == "31";
    AtoiIntText(31);
    var rule := MonthlyText("m 31", "31", 31);
    Day31Walk(rule);
    Composed(Date(2024, 4, 1), Date(2024, 4, 1), "m 31", rule, Date(2024, 5, 31));
  }

  /** An overdue task without a rule moves to today. */
  lemma CheckOverdueOnce()
    ensures var task := Task("1", FormatDate(Date(2024, 1, 1)), "call", "", "");
      CheckDate(Date(2024, 1, 10), task) == Ok(task.(date := FormatDate(Date(2024, 1, 10))))
  {
    ParseFormat(Date(2024, 1, 1));
  }

  /** An overdue daily task moves to its next date after today. */
  lemma CheckOverdueDaily()
    ensures var task := Task("2", FormatDate(Date(2023, 1, 1)), "water", "", "d 3");
      CheckDate(Date(2023, 1, 5), task) == Ok(task.(date := FormatDate(Date(2023, 1, 7))))
  {
    ParseFormat(Date(2023, 1, 1));
    DailyExample();
  }

  /** A task without a date is given today's. */
  lemma CheckUndated()
    ensures var task := Task("3", "", "read", "", "d 3");
      CheckDate(Date(2023, 1, 5), task) == Ok(task.(date := FormatDate(Date(2023, 1, 5))))
  {
  }

  /** The empty rule is rejected before the date is read. */
  lemma EmptyRuleExample()
    ensures NextDate(Date(2023, 1, 5), "2023-01-01", "") == Err(EmptyRule)
  {
  }
}
