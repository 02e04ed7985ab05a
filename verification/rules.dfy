/** The repeat-rule grammar: a kind token and its arguments, separated by
    single spaces, validated exactly as NextDate validates them before it
    starts walking. */
module Rules {
  import opened Results
  import opened Decimal
  import opened Strings

  /** One constructor per distinct error NextDate reports. */
  datatype Error =
    | EmptyRule          // "repeat is empty"
    | BadAnchorDate      // "error parse dstart"
    | BadDailyRule       // "wrong format repeat for days"
    | BadWeeklyFormat    // "wrong format repeat for weeks"
    | BadWeekday         // "invalid weekday format"
    | BadMonthlyFormat   // "wrong format repeat for months"
    | BadMonthDay        // "wrong format repeat days for month"
    | BadMonth           // "invalid month should be from 1 to 12"
    | NoMonthlyMatch     // "wrong repeat rule"

  /** A validated rule. Weekdays use Go's numbering (Sunday is 0); month days
      1..31 are kept in `days`, while -1 and -2 become the two flags; `months`
      is None when the rule selects every month. */
  datatype Rule =
    | Yearly
    | Daily(step: int)
    | Weekly(weekdays: set<int>)
    | Monthly(days: set<int>, lastDay: bool, secondToLastDay: bool, months: Option<set<int>>)
    | Unsupported

  predicate WellFormed(rule: Rule) {
    match rule
    case Daily(step) => 1 <= step <= 400
    case Weekly(ws) => forall w :: w in ws ==> 0 <= w < 7
    case Monthly(days, _, _, months) =>
      && (forall x :: x in days ==> 1 <= x <= 31)
      && (months.Some? ==> forall m :: m in months.value ==> 1 <= m <= 12)
    case _ => true
  }

  /** Some entry of the list reads as v. */
  ghost predicate Lists(entries: seq<string>, v: int) {
    exists i :: 0 <= i < |entries| && Atoi(entries[i]) == Some(v)
  }

  /** Every entry reads as an integer in [lo, hi]. */
  predicate AllWithin(entries: seq<string>, lo: int, hi: int) {
    forall i :: 0 <= i < |entries| ==> Atoi(entries[i]).Some? && lo <= Atoi(entries[i]).value <= hi
  }

  /** Every entry reads as a nonzero integer in [-2, 31]. */
  predicate AllMonthDays(entries: seq<string>) {
    AllWithin(entries, -2, 31) && forall i :: 0 <= i < |entries| ==> Atoi(entries[i]) != Some(0)
  }

  /** The values of a list all of whose entries read as integers. */
  function Values(entries: seq<string>): (vs: seq<int>)
    requires forall i :: 0 <= i < |entries| ==> Atoi(entries[i]).Some?
    ensures |vs| == |entries|
    ensures forall i :: 0 <= i < |entries| ==> Some(vs[i]) == Atoi(entries[i])
  {
    if |entries| == 0 then [] else [Atoi(entries[0]).value] + Values(entries[1..])
  }

  /** Go weekday numbers of ISO weekday values: 7 (Sunday) becomes 0. */
  function WeekdaysOf(vs: seq<int>): set<int> {
    set i | 0 <= i < |vs| :: vs[i] % 7
  }

  /** The positive values of a list. */
  function PositiveOf(vs: seq<int>): set<int> {
    set i | 0 <= i < |vs| && vs[i] > 0 :: vs[i]
  }

  lemma SameWeekday(a: int, b: int)
    requires 1 <= a <= 7 && 1 <= b <= 7 && a % 7 == b % 7
    ensures a == b
  {
  }

  lemma WeekdaysListed(entries: seq<string>)
    requires AllWithin(entries, 1, 7)
    ensures forall w :: w in WeekdaysOf(Values(entries)) ==> 0 <= w < 7
    ensures forall iso :: 1 <= iso <= 7 ==>
      (iso % 7 in WeekdaysOf(Values(entries)) <==> Lists(entries, iso))
  {
    var vs := Values(entries);
    forall iso | 1 <= iso <= 7
      ensures iso % 7 in WeekdaysOf(vs) <==> Lists(entries, iso)
    {
      if iso % 7 in WeekdaysOf(vs) {
        var i :| 0 <= i < |vs| && vs[i] % 7 == iso % 7;
        assert Atoi(entries[i]) == Some(vs[i]);
        SameWeekday(vs[i], iso);
      }
      if Lists(entries, iso) {
        var i :| 0 <= i < |entries| && Atoi(entries[i]) == Some(iso);
        assert vs[i] % 7 in WeekdaysOf(vs);
      }
    }
  }

  lemma DaysListed(entries: seq<string>)
    requires AllMonthDays(entries)
    ensures forall x :: x in PositiveOf(Values(entries)) ==> 1 <= x <= 31
    ensures forall x :: 1 <= x <= 31 ==> (x in PositiveOf(Values(entries)) <==> Lists(entries, x))
    ensures -1 in Values(entries) <==> Lists(entries, -1)
    ensures -2 in Values(entries) <==> Lists(entries, -2)
  {
    var vs := Values(entries);
    forall x | 1 <= x <= 31
      ensures x in PositiveOf(vs) <==> Lists(entries, x)
    {
      if Lists(entries, x) {
        var i :| 0 <= i < |entries| && Atoi(entries[i]) == Some(x);
        assert vs[i] in PositiveOf(vs);
      }
    }
    if -1 in vs {
      var i :| 0 <= i < |vs| && vs[i] == -1;
      assert Atoi(entries[i]) == Some(-1);
    }
    if -2 in vs {
      var i :| 0 <= i < |vs| && vs[i] == -2;
      assert Atoi(entries[i]) == Some(-2);
    }
  }

  lemma MonthsListed(entries: seq<string>)
    requires AllWithin(entries, 1, 12)
    ensures forall m :: m in PositiveOf(Values(entries)) ==> 1 <= m <= 12
    ensures forall m :: 1 <= m <= 12 ==> (m in PositiveOf(Values(entries)) <==> Lists(entries, m))
  {
    var vs := Values(entries);
    forall m | 1 <= m <= 12
      ensures m in PositiveOf(vs) <==> Lists(entries, m)
    {
      if Lists(entries, m) {
        var i :| 0 <= i < |entries| && Atoi(entries[i]) == Some(m);
        assert vs[i] in PositiveOf(vs);
      }
    }
  }

  /** "d <n>": exactly one argument, an integer in [1, 400]. */
  function ParseDaily(parts: seq<string>): (r: Result<Rule, Error>)
    ensures r.Ok? <==> |parts| == 2 && AllWithin(parts[1..], 1, 400)
    ensures r.Ok? ==> r.value.Daily? && Some(r.value.step) == Atoi(parts[1])
    ensures r.Err? ==> r.error == BadDailyRule
  {
    if |parts| != 2 then
      Err(BadDailyRule)
    else
      match Atoi(parts[1])
      case Some(n) =>
        if n <= 0 || n > 400 then Err(BadDailyRule) else Ok(Daily(n))
      case None => Err(BadDailyRule)
  }

  /** "w <list>": exactly one argument, a comma-separated list of ISO weekday
      numbers 1..7 (Monday first); 7 is stored as Go's Sunday, 0. */
  function ParseWeekly(parts: seq<string>): (r: Result<Rule, Error>)
    ensures r.Ok? <==> |parts| == 2 && AllWithin(Split(parts[1], ','), 1, 7)
    ensures r.Ok? ==> r.value.Weekly? && WellFormed(r.value)
    ensures r.Ok? ==> forall iso :: 1 <= iso <= 7 ==>
      (iso % 7 in r.value.weekdays <==> Lists(Split(parts[1], ','), iso))
    ensures r.Err? && |parts| != 2 ==> r.error == BadWeeklyFormat
    ensures r.Err? && |parts| == 2 ==> r.error == BadWeekday
  {
    if |parts| != 2 then
      Err(BadWeeklyFormat)
    else
      var entries := Split(parts[1], ',');
      if !AllWithin(entries, 1, 7) then
        Err(BadWeekday)
      else
        var ws := WeekdaysOf(Values(entries));
        WeekdaysListed(entries);
        Ok(Weekly(ws))
  }

  /** "m <days> [<months>]": one or two arguments. Days are nonzero integers in
      [-2, 31], with -1 meaning the last day and -2 the second-to-last day of
      a month; months are integers in [1, 12], every month when absent. Days
      are validated before months. */
  function ParseMonthly(parts: seq<string>): (r: Result<Rule, Error>)
    ensures r.Ok? <==>
      && 2 <= |parts| <= 3
      && AllMonthDays(Split(parts[1], ','))
      && (|parts| == 3 ==> AllWithin(Split(parts[2], ','), 1, 12))
    ensures r.Ok? ==> r.value.Monthly? && WellFormed(r.value)
    ensures r.Ok? ==>
      && (forall x :: 1 <= x <= 31 ==> (x in r.value.days <==> Lists(Split(parts[1], ','), x)))
      && (r.value.lastDay <==> Lists(Split(parts[1], ','), -1))
      && (r.value.secondToLastDay <==> Lists(Split(parts[1], ','), -2))
      && (r.value.months.None? <==> |parts| == 2)
      && (r.value.months.Some? ==> forall m :: 1 <= m <= 12 ==>
            (m in r.value.months.value <==> Lists(Split(parts[2], ','), m)))
    ensures r.Err? && !(2 <= |parts| <= 3) ==> r.error == BadMonthlyFormat
    ensures r.Err? && 2 <= |parts| <= 3 && !AllMonthDays(Split(parts[1], ',')) ==> r.error == BadMonthDay
    ensures r.Err? && 2 <= |parts| <= 3 && AllMonthDays(Split(parts[1], ',')) ==> r.error == BadMonth
  {
    if |parts| < 2 || |parts| > 3 then
      Err(BadMonthlyFormat)
    else
      var dayEntries := Split(parts[1], ',');
      if !AllMonthDays(dayEntries) then
        Err(BadMonthDay)
      else
        var ds := Values(dayEntries);
        var days := PositiveOf(ds);
        var last := -1 in ds;
        var secondToLast := -2 in ds;
        DaysListed(dayEntries);
        if |parts| == 2 then
          Ok(Monthly(days, last, secondToLast, None))
        else
          var monthEntries := Split(parts[2], ',');
          if !AllWithin(monthEntries, 1, 12) then
            Err(BadMonth)
          else
            var months := PositiveOf(Values(monthEntries));
            MonthsListed(monthEntries);
            Ok(Monthly(days, last, secondToLast, Some(months)))
  }

  /** The kind token is the text before the first space. "y" takes no
      validation at all (extra tokens are ignored), "d", "w" and "m" validate
      their arguments, and any other kind is accepted as Unsupported. */
  function ParseRule(repeat: string): (r: Result<Rule, Error>)
    ensures r.Ok? ==> WellFormed(r.value)
    ensures var kind := Split(repeat, ' ')[0];
      && (r == Ok(Yearly) <==> kind == "y")
      && (r == Ok(Unsupported) <==> kind !in {"y", "d", "w", "m"})
      && (r.Err? ==> kind in {"d", "w", "m"})
      && (r.Ok? && r.value.Daily? <==> kind == "d" && r.Ok?)
      && (r.Ok? && r.value.Weekly? <==> kind == "w" && r.Ok?)
      && (r.Ok? && r.value.Monthly? <==> kind == "m" && r.Ok?)
    ensures Split(repeat, ' ')[0] == "d" ==> r == ParseDaily(Split(repeat, ' '))
    ensures Split(repeat, ' ')[0] == "w" ==> r == ParseWeekly(Split(repeat, ' '))
    ensures Split(repeat, ' ')[0] == "m" ==> r == ParseMonthly(Split(repeat, ' '))
  {
    var parts := Split(repeat, ' ');
    var kind := parts[0];
    if kind == "y" then Ok(Yearly)
    else if kind == "d" then ParseDaily(parts)
    else if kind == "w" then ParseWeekly(parts)
    else if kind == "m" then ParseMonthly(parts)
    else Ok(Unsupported)
  }
}
