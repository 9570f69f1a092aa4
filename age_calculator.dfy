/** The age calculator (pages/tools/age-calculator.tsx). Two dates are read as instants;
    an unreadable date, or an end before the start, is "Invalid date range". Otherwise the
    span between them is written in years, months and days taken from the two dates'
    calendar fields, and in weeks, days, hours, minutes and seconds taken from the
    difference of the instants by successive rounded-down divisions.

    The page subtracts the day fields and, when that is negative, borrows the length of
    the month before the end's month; for a start day that month does not have this
    leaves a negative day count, and for a start day past the end of a shorter end month
    it counts days where a whole month has passed. The page model computes that span
    (`BreakdownAsWritten`); `Breakdown` is the span the page evidently means, with the
    start day anchored in a month that is too short at that month's last day.

    The date parser, the local calendar fields of an instant and `toLocaleString` on
    numbers are parameters. */
module AgeCalculator {
  import opened Options
  import opened JsString
  import opened JsNumber

  const InvalidRangeText: string := "Invalid date range"

  predicate IsLeapYear(y: int) {
    y % 4 == 0 && (y % 100 != 0 || y % 400 == 0)
  }

  /** The length of a month of the Gregorian calendar; months are numbered from 0. */
  function DaysInMonth(year: int, month: int): (n: int)
    requires 0 <= month < 12
    ensures 28 <= n <= 31
  {
    if month == 1 then (if IsLeapYear(year) then 29 else 28)
    else if month == 3 || month == 5 || month == 8 || month == 10 then 30
    else 31
  }

  /** `new Date(year, month, 0).getDate()`: the length of the month before. */
  function PrevMonthLength(year: int, month: int): (n: int)
    requires 0 <= month < 12
    ensures 28 <= n <= 31
  {
    if month == 0 then DaysInMonth(year - 1, 11) else DaysInMonth(year, month - 1)
  }

  datatype Civil = Civil(year: int, month: int, day: int)

  /** A calendar date: a month in 0..11 and a day of that month. */
  type Date = c: Civil | 0 <= c.month < 12 && 1 <= c.day <= DaysInMonth(c.year, c.month)
    witness Civil(1970, 0, 1)

  /** The months since year 0. */
  function MonthIndex(c: Civil): int {
    c.year * 12 + c.month
  }

  /** Calendar order. */
  predicate NotAfter(a: Civil, b: Civil) {
    MonthIndex(a) < MonthIndex(b) || (MonthIndex(a) == MonthIndex(b) && a.day <= b.day)
  }

  function Min(a: int, b: int): int {
    if a <= b then a else b
  }

  /** The date `k` months after `c`, its day moved to the last day of a shorter month. */
  function AddMonths(c: Date, k: int): (r: Date)
    ensures MonthIndex(r) == MonthIndex(c) + k && r.day == Min(c.day, DaysInMonth(r.year, r.month))
  {
    var i := MonthIndex(c) + k;
    Civil(i / 12, i % 12, Min(c.day, DaysInMonth(i / 12, i % 12)))
  }

  /** Years, months and days. */
  datatype Duration = Duration(years: int, months: int, days: int)

  /** The months carried into the years when the month difference is negative. */
  function Normalize(years: int, months: int, days: int): Duration {
    if months < 0 then Duration(years - 1, months + 12, days) else Duration(years, months, days)
  }

  /** The span as the page computes it. */
  function BreakdownAsWritten(s: Date, e: Date): Duration {
    var days := e.day - s.day;
    if days < 0 then Normalize(e.year - s.year, e.month - s.month - 1, days + PrevMonthLength(e.year, e.month))
    else Normalize(e.year - s.year, e.month - s.month, days)
  }

  /** The span with the start day anchored in each month: the whole months from the
      start, then the days left. */
  function Breakdown(s: Date, e: Date): Duration {
    var anchor := Min(s.day, DaysInMonth(e.year, e.month));
    if e.day < anchor then
      var prev := PrevMonthLength(e.year, e.month);
      Normalize(e.year - s.year, e.month - s.month - 1, e.day + prev - Min(s.day, prev))
    else Normalize(e.year - s.year, e.month - s.month, e.day - anchor)
  }

  /** The days from `a` to `b` when `b` is in the same month or the next one. */
  function DaysUntil(a: Date, b: Date): int
    requires MonthIndex(a) == MonthIndex(b) || MonthIndex(a) + 1 == MonthIndex(b)
  {
    if MonthIndex(a) == MonthIndex(b) then b.day - a.day else DaysInMonth(a.year, a.month) - a.day + b.day
  }

  // ---------------------------------------------------------------------------------
  // The borrow arithmetic

  /** From 31 January to 1 March 2023 the page counts one month and minus two days, and
      to 28 February no month and 28 days. */
  lemma NegativeDaysAsWritten()
    ensures BreakdownAsWritten(Civil(2023, 0, 31), Civil(2023, 2, 1)) == Duration(0, 1, -2)
    ensures Breakdown(Civil(2023, 0, 31), Civil(2023, 2, 1)) == Duration(0, 1, 1)
    ensures BreakdownAsWritten(Civil(2023, 0, 31), Civil(2023, 1, 28)) == Duration(0, 0, 28)
    ensures Breakdown(Civil(2023, 0, 31), Civil(2023, 1, 28)) == Duration(0, 1, 0)
  {
    assert !IsLeapYear(2023);
  }

  /** A start day that both the end's month and the month before it have gives the same
      span either way. */
  lemma AsWrittenAgrees(s: Date, e: Date)
    requires s.day <= DaysInMonth(e.year, e.month) && s.day <= PrevMonthLength(e.year, e.month)
    ensures BreakdownAsWritten(s, e) == Breakdown(s, e)
  {
  }

  /** As written, a start no later than the end gives whole years and a month count in
      0..11. */
  lemma BreakdownAsWrittenBounds(s: Date, e: Date)
    requires NotAfter(s, e)
    ensures var sp := BreakdownAsWritten(s, e); sp.years >= 0 && 0 <= sp.months < 12
  {
  }

  /** A start no later than the end gives whole years, a month count in 0..11 and a day
      count in 0..30. */
  lemma BreakdownBounds(s: Date, e: Date)
    requires NotAfter(s, e)
    ensures var sp := Breakdown(s, e); sp.years >= 0 && 0 <= sp.months < 12 && 0 <= sp.days <= 30
  {
  }

  /** Moving to the month of `t`. */
  lemma AddMonthsTo(s: Date, k: int, t: Date)
    requires MonthIndex(s) + k == MonthIndex(t)
    ensures AddMonths(s, k) == Civil(t.year, t.month, Min(s.day, DaysInMonth(t.year, t.month)))
  {
    var i := MonthIndex(s) + k;
    assert i / 12 == t.year && i % 12 == t.month;
  }

  /** Moving to the month before that of `t`. */
  lemma AddMonthsBefore(s: Date, k: int, t: Date)
    requires MonthIndex(s) + k + 1 == MonthIndex(t)
    ensures var a := AddMonths(s, k);
      MonthIndex(a) + 1 == MonthIndex(t) && DaysInMonth(a.year, a.month) == PrevMonthLength(t.year, t.month) &&
      a.day == Min(s.day, PrevMonthLength(t.year, t.month))
  {
    var a := AddMonths(s, k);
    if t.month == 0 {
      assert a.year == t.year - 1 && a.month == 11;
    } else {
      assert a.year == t.year && a.month == t.month - 1;
    }
  }

  /** The months of the span are the most whole months after the start that do not pass
      the end, and its days are the days left from there to the end. */
  predicate IsExact(s: Date, e: Date, sp: Duration) {
    var a := AddMonths(s, sp.years * 12 + sp.months);
    NotAfter(a, e) && !NotAfter(AddMonths(s, sp.years * 12 + sp.months + 1), e) &&
    (MonthIndex(a) == MonthIndex(e) || MonthIndex(a) + 1 == MonthIndex(e)) &&
    sp.days == DaysUntil(a, e)
  }

  lemma BreakdownExact(s: Date, e: Date)
    requires NotAfter(s, e)
    ensures IsExact(s, e, Breakdown(s, e))
  {
    if e.day < Min(s.day, DaysInMonth(e.year, e.month)) {
      ExactWithBorrow(s, e);
    } else {
      ExactWithoutBorrow(s, e);
    }
  }

  lemma ExactWithoutBorrow(s: Date, e: Date)
    requires NotAfter(s, e) && e.day >= Min(s.day, DaysInMonth(e.year, e.month))
    ensures IsExact(s, e, Breakdown(s, e))
  {
    var sp := Breakdown(s, e);
    var k := sp.years * 12 + sp.months;
    assert k == MonthIndex(e) - MonthIndex(s);
    AddMonthsTo(s, k, e);
  }

  lemma ExactWithBorrow(s: Date, e: Date)
    requires NotAfter(s, e) && e.day < Min(s.day, DaysInMonth(e.year, e.month))
    ensures IsExact(s, e, Breakdown(s, e))
  {
    var sp := Breakdown(s, e);
    var k := sp.years * 12 + sp.months;
    assert k == MonthIndex(e) - MonthIndex(s) - 1;
    AddMonthsTo(s, k + 1, e);
    AddMonthsBefore(s, k, e);
  }

  // ---------------------------------------------------------------------------------
  // The unit chain

  /** The totals of the difference of the instants. */
  datatype Totals = Totals(seconds: int, minutes: int, hours: int, days: int, weeks: int)

  /** `diffSeconds` ... `diffWeeks`: each the one before divided and rounded down. */
  function UnitTotals(diffMs: nat): Totals {
    var seconds := diffMs / 1000;
    var minutes := seconds / 60;
    var hours := minutes / 60;
    var days := hours / 24;
    Totals(seconds, minutes, hours, days, days / 7)
  }

  /** Each total is the difference divided by the unit's length and rounded down, and the
      weeks and the remaining days make up the days. */
  lemma UnitChain(diffMs: nat)
    ensures var t := UnitTotals(diffMs);
      t.seconds == diffMs / 1000 && t.minutes == diffMs / 60000 && t.hours == diffMs / 3600000 &&
      t.days == diffMs / 86400000 && t.weeks == diffMs / 604800000 &&
      t.weeks * 7 + t.days % 7 == t.days
  {
  }

  // ---------------------------------------------------------------------------------
  // The result text

  function Decimal(n: int): string {
    NumberToString(n, 10)
  }

  /** The seven lines of the result; `group` is `toLocaleString`. */
  function Lines(sp: Duration, t: Totals, group: int -> string): seq<string> {
    [Decimal(sp.years) + " years " + Decimal(sp.months) + " months " + Decimal(sp.days) + " days",
     "or " + Decimal(sp.years * 12 + sp.months) + " months " + Decimal(sp.days) + " days",
     "or " + Decimal(t.weeks) + " weeks " + Decimal(t.days % 7) + " days",
     "or " + group(t.days) + " days",
     "or " + group(t.hours) + " hours",
     "or " + group(t.minutes) + " minutes",
     "or " + group(t.seconds) + " seconds"]
  }

  /** What `calculateAge` shows for two dates that are both given. */
  function AgeText(from: string, to: string, parse: string -> Option<int>, local: int -> Date,
                   group: int -> string): string
  {
    var start, end := parse(from), parse(to);
    if start.None? || end.None? || end.value < start.value then InvalidRangeText
    else
      var sp := BreakdownAsWritten(local(start.value), local(end.value));
      Join(Lines(sp, UnitTotals(end.value - start.value), group), "\n")
  }

  lemma DecimalHasNoNewline(n: int)
    ensures '\n' !in Decimal(n)
  {
    var m: nat := if n < 0 then -n else n;
    var d := NatToString(m, 10);
    assert forall i :: 0 <= i < |d| ==> d[i] != '\n';
    if n < 0 {
      assert Decimal(n) == "-" + d;
    }
  }

  /** The result is seven lines, one per unit. */
  lemma SevenLines(sp: Duration, t: Totals, group: int -> string)
    requires forall n :: '\n' !in group(n)
    ensures SplitOn(Join(Lines(sp, t, group), "\n"), '\n') == Lines(sp, t, group)
    ensures |Lines(sp, t, group)| == 7
  {
    DecimalHasNoNewline(sp.years);
    DecimalHasNoNewline(sp.months);
    DecimalHasNoNewline(sp.days);
    DecimalHasNoNewline(sp.years * 12 + sp.months);
    DecimalHasNoNewline(t.weeks);
    DecimalHasNoNewline(t.days % 7);
    var ls := Lines(sp, t, group);
    assert forall i :: 0 <= i < |ls| ==> '\n' !in ls[i];
    SplitOnJoin(ls, '\n');
  }

  /** The borrow steps of `calculateAge`, as `BreakdownAsWritten` states them. */
  method Borrow(s: Date, e: Date) returns (span: Duration)
    ensures span == BreakdownAsWritten(s, e)
    ensures 0 <= span.months < 12 && (NotAfter(s, e) ==> span.years >= 0)
  {
    var years := e.year - s.year;
    var months := e.month - s.month;
    var days := e.day - s.day;
    if days < 0 {
      months := months - 1;
      days := days + PrevMonthLength(e.year, e.month);
    }
    if months < 0 {
      years := years - 1;
      months := months + 12;
    }
    span := Duration(years, months, days);
  }

  lemma AgeTextOf(from: string, to: string, parse: string -> Option<int>, local: int -> Date,
                  group: int -> string)
    requires parse(from).Some? && parse(to).Some? && parse(to).value >= parse(from).value
    ensures AgeText(from, to, parse, local, group) ==
      Join(Lines(BreakdownAsWritten(local(parse(from).value), local(parse(to).value)),
                 UnitTotals(parse(to).value - parse(from).value), group), "\n")
  {
  }

  // ---------------------------------------------------------------------------------
  // The page

  class Page {
    var fromDate: string
    var toDate: string
    var result: Option<string>

    constructor()
      ensures fromDate == "" && toDate == "" && result == None
    {
      fromDate, toDate, result := "", "", None;
    }

    /** `calculateAge`: nothing happens until both dates are given. */
    method CalculateAge(parse: string -> Option<int>, local: int -> Date, group: int -> string)
      modifies this
      ensures fromDate == old(fromDate) && toDate == old(toDate)
      ensures result == if fromDate == "" || toDate == "" then old(result)
                        else Some(AgeText(fromDate, toDate, parse, local, group))
    {
      if fromDate == "" || toDate == "" {
        return;
      }
      var start := parse(fromDate);
      var end := parse(toDate);
      if start.None? || end.None? || end.value < start.value {
        result := Some(InvalidRangeText);
        return;
      }
      var s, e := local(start.value), local(end.value);
      var span := Borrow(s, e);
      var diffMs := end.value - start.value;
      var diffSeconds := diffMs / 1000;
      var diffMinutes := diffSeconds / 60;
      var diffHours := diffMinutes / 60;
      var diffDays := diffHours / 24;
      var diffWeeks := diffDays / 7;
      var totals := Totals(diffSeconds, diffMinutes, diffHours, diffDays, diffWeeks);
      assert totals == UnitTotals(diffMs);
      AgeTextOf(fromDate, toDate, parse, local, group);
      result := Some(Join(Lines(span, totals, group), "\n"));
    }

    /** `reset`. */
    method Reset()
      modifies this
      ensures fromDate == "" && toDate == "" && result == None
    {
      fromDate, toDate, result := "", "", None;
    }
  }
}
