/** The epoch converter (pages/tools/epoch-to-date.tsx). A timestamp is read with
    `parseInt(timestamp, 10)`; a value above 9999999999 is taken as milliseconds and
    anything else as seconds. A date and a time are joined into `date + "T" + time`, with
    "Z" appended in GMT mode and "00:00" for a missing time, and the instant they name is
    shown as whole seconds, rounded down. A second line shows the seconds times 1000.

    The clock, the `Date` parser and the two `Date` formatters are parameters: an instant
    is an integer number of milliseconds, and a parser result `None` is an invalid date. */
module Epoch {
  import opened Options
  import opened JsString
  import opened JsNumber

  datatype Timezone = Local | Gmt

  /** The largest timestamp read as seconds. */
  const SecondsLimit: int := 9999999999

  const InvalidTimestampText: string := "Invalid timestamp"
  const SelectDateText: string := "Please select a date"
  const InvalidDateText: string := "Invalid date or time format"
  const DefaultTime: string := "00:00"

  /** The instant, in milliseconds, a timestamp stands for. */
  function ToMilliseconds(ts: int): (ms: int)
    ensures ts > SecondsLimit ==> ms == ts
    ensures ts <= SecondsLimit ==> ms / 1000 == ts && ms % 1000 == 0
  {
    if ts > SecondsLimit then ts else ts * 1000
  }

  /** What `handleConvert` shows: the formatted instant, or the error text. */
  function ConvertedDate(timestamp: string, tz: Timezone, format: (int, Timezone) -> string): string {
    match ParseInt(timestamp, 10)
    case None => InvalidTimestampText
    case Some(ts) => format(ToMilliseconds(ts), tz)
  }

  /** The text given to the `Date` parser. */
  function Combined(date: string, time: string, tz: Timezone): string {
    date + "T" + (if time == "" then DefaultTime else time) + (if tz == Gmt then "Z" else "")
  }

  /** `Math.floor(ms / 1000)`: the whole seconds of an instant, rounded down. */
  function Seconds(ms: int): (s: int)
    ensures s * 1000 <= ms < s * 1000 + 1000
  {
    ms / 1000
  }

  /** What `handleDateToEpoch` shows. */
  function EpochText(date: string, time: string, tz: Timezone, parse: string -> Option<int>): string {
    if date == "" then SelectDateText
    else match parse(Combined(date, time, tz))
      case None => InvalidDateText
      case Some(ms) => NumberToString(Seconds(ms), 10)
  }

  /** `Number(s)` on an optional minus sign followed by decimal digits; `None` for every
      other text. */
  function IntegerValue(s: string): Option<int> {
    if IsDecimal(if s != [] && s[0] == '-' then s[1..] else s) then ParseInt(s, 10) else None
  }

  /** One or more decimal digits. */
  predicate IsDecimal(d: string) {
    d != [] && forall i :: 0 <= i < |d| ==> IsDigitIn(d[i], 10)
  }

  /** The "In milliseconds" line. */
  function MillisecondsText(convertedEpoch: string): string {
    if convertedEpoch != "" && IntegerValue(convertedEpoch).Some? then
      NumberToString(IntegerValue(convertedEpoch).value * 1000, 10)
    else ""
  }

  // ---------------------------------------------------------------------------------
  // Properties

  /** A timestamp whose first character after white space is neither a sign nor a
      decimal digit shows the error text. */
  lemma NotANumber(timestamp: string, tz: Timezone, format: (int, Timezone) -> string)
    requires var t := TrimStart(timestamp);
      t == [] || (t[0] != '+' && t[0] != '-' && !IsDigitIn(t[0], 10))
    ensures ConvertedDate(timestamp, tz, format) == InvalidTimestampText
  {
  }

  /** Seconds and milliseconds that name the same instant: a timestamp up to the limit
      and the same instant written in milliseconds above it are shown alike. */
  lemma SameInstant(s: int, tz: Timezone, format: (int, Timezone) -> string)
    requires 10000000 <= s <= SecondsLimit
    ensures ConvertedDate(NumberToString(s, 10), tz, format) == ConvertedDate(NumberToString(s * 1000, 10), tz, format)
  {
    ParseIntNumberToString(s, 10);
    ParseIntNumberToString(s * 1000, 10);
  }

  /** An empty date is reported and nothing is parsed. */
  lemma NoDate(time: string, tz: Timezone, parse: string -> Option<int>)
    ensures EpochText("", time, tz, parse) == SelectDateText
  {
  }

  /** The parsed text is the date, a "T", the time or "00:00", and "Z" exactly in GMT
      mode. */
  lemma CombinedParts(date: string, time: string, tz: Timezone)
    requires 'T' !in date && 'T' !in time
    ensures var c := Combined(date, time, tz);
      SplitOn(c, 'T') == [date, (if time == "" then DefaultTime else time) + (if tz == Gmt then "Z" else "")]
    ensures (Combined(date, time, tz)[|Combined(date, time, tz)| - 1] == 'Z') <==> (tz == Gmt || (time != "" && time[|time| - 1] == 'Z'))
  {
    var t := if time == "" then DefaultTime else time;
    var z := if tz == Gmt then "Z" else "";
    assert 'T' !in t + z;
    assert Combined(date, time, tz) == date + ['T'] + (t + z);
    SplitOnSeparated(date, t + z, 'T');
    SplitOnFree(t + z, 'T');
  }

  /** The epoch of a parsed date is its instant in whole seconds, and it reads back as
      that number. */
  lemma EpochOfDate(date: string, time: string, tz: Timezone, parse: string -> Option<int>)
    requires date != "" && parse(Combined(date, time, tz)).Some?
    ensures var ms := parse(Combined(date, time, tz)).value;
      var e := EpochText(date, time, tz, parse);
      ParseInt(e, 10) == Some(Seconds(ms)) && Seconds(ms) * 1000 <= ms < Seconds(ms) * 1000 + 1000
  {
    ParseIntNumberToString(Seconds(parse(Combined(date, time, tz)).value), 10);
  }

  /** Converting a date to its epoch and the epoch back to a date shows the date's instant
      rounded down to the second, for every instant whose seconds are up to the limit;
      later instants are read back as milliseconds. */
  lemma RoundTrip(date: string, time: string, tz: Timezone, parse: string -> Option<int>,
                  format: (int, Timezone) -> string)
    requires date != "" && parse(Combined(date, time, tz)).Some?
    ensures var ms := parse(Combined(date, time, tz)).value;
      var e := EpochText(date, time, tz, parse);
      ConvertedDate(e, tz, format) ==
        format(if Seconds(ms) <= SecondsLimit then ms - ms % 1000 else Seconds(ms), tz)
  {
    EpochTextOf(date, time, tz, parse);
    ReadBack(parse(Combined(date, time, tz)).value, tz, format);
  }

  lemma EpochTextOf(date: string, time: string, tz: Timezone, parse: string -> Option<int>)
    requires date != "" && parse(Combined(date, time, tz)).Some?
    ensures EpochText(date, time, tz, parse) == NumberToString(Seconds(parse(Combined(date, time, tz)).value), 10)
  {
  }

  /** The whole seconds of an instant, converted back, are the instant rounded down to
      the second while they are up to the limit. */
  lemma ReadBack(ms: int, tz: Timezone, format: (int, Timezone) -> string)
    ensures ConvertedDate(NumberToString(Seconds(ms), 10), tz, format) ==
      format(if Seconds(ms) <= SecondsLimit then ms - ms % 1000 else Seconds(ms), tz)
  {
    ParseIntNumberToString(Seconds(ms), 10);
    assert Seconds(ms) * 1000 == ms - ms % 1000;
  }

  lemma {:induction false} IntegerTextOf(n: int)
    ensures IntegerValue(NumberToString(n, 10)) == Some(n)
  {
    var m: nat := if n < 0 then -n else n;
    var s := NumberToString(n, 10);
    var d := NatToString(m, 10);
    DigitIsPlain(d[0], 10);
    if n < 0 {
      assert s[1..] == d;
    }
    ParseIntNumberToString(n, 10);
  }

  /** The milliseconds line shows the epoch times 1000, and nothing for the two error
      texts. */
  lemma MillisecondsShown(seconds: int)
    ensures MillisecondsText(NumberToString(seconds, 10)) == NumberToString(seconds * 1000, 10)
    ensures MillisecondsText(SelectDateText) == "" && MillisecondsText(InvalidDateText) == ""
  {
    IntegerTextOf(seconds);
    assert SelectDateText[0] == 'P' && InvalidDateText[0] == 'I';
    NotInteger(SelectDateText);
    NotInteger(InvalidDateText);
  }

  lemma NotInteger(s: string)
    requires s != [] && s[0] != '-' && !IsDigitIn(s[0], 10)
    ensures MillisecondsText(s) == ""
  {
    assert !IsDecimal(s);
  }

  // ---------------------------------------------------------------------------------
  // The page

  class Page {
    var timestamp: string
    var convertedDate: string
    var currentEpoch: string
    var currentEpochMs: string
    var dateInput: string
    var timeInput: string
    var convertedEpoch: string
    var timezone: Timezone

    constructor()
      ensures timestamp == "" && convertedDate == "" && currentEpoch == "" && currentEpochMs == ""
      ensures dateInput == "" && timeInput == "" && convertedEpoch == "" && timezone == Local
    {
      timestamp, convertedDate, currentEpoch, currentEpochMs := "", "", "", "";
      dateInput, timeInput, convertedEpoch, timezone := "", "", "", Local;
    }

    /** The interval callback. It reads the clock twice: the first reading, in seconds
        rounded down, and the second, in milliseconds. */
    method Tick(firstMs: int, secondMs: int)
      modifies this
      ensures currentEpoch == NumberToString(Seconds(firstMs), 10) && currentEpochMs == NumberToString(secondMs, 10)
      ensures timestamp == old(timestamp) && convertedDate == old(convertedDate)
      ensures dateInput == old(dateInput) && timeInput == old(timeInput)
      ensures convertedEpoch == old(convertedEpoch) && timezone == old(timezone)
    {
      currentEpoch := NumberToString(firstMs / 1000, 10);
      currentEpochMs := NumberToString(secondMs, 10);
    }

    /** `handleConvert`; `format` is `toUTCString` in GMT mode and `toLocaleString`
        otherwise. */
    method Convert(format: (int, Timezone) -> string)
      modifies this
      ensures convertedDate == ConvertedDate(timestamp, timezone, format)
      ensures timestamp == old(timestamp) && currentEpoch == old(currentEpoch) && currentEpochMs == old(currentEpochMs)
      ensures dateInput == old(dateInput) && timeInput == old(timeInput)
      ensures convertedEpoch == old(convertedEpoch) && timezone == old(timezone)
    {
      var ts := ParseInt(timestamp, 10);
      if ts.Some? {
        var ms := if ts.value > SecondsLimit then ts.value else ts.value * 1000;
        convertedDate := format(ms, timezone);
      } else {
        convertedDate := InvalidTimestampText;
      }
    }

    /** `handleDateToEpoch`. */
    method DateToEpoch(parse: string -> Option<int>)
      modifies this
      ensures convertedEpoch == EpochText(dateInput, timeInput, timezone, parse)
      ensures timestamp == old(timestamp) && convertedDate == old(convertedDate)
      ensures currentEpoch == old(currentEpoch) && currentEpochMs == old(currentEpochMs)
      ensures dateInput == old(dateInput) && timeInput == old(timeInput) && timezone == old(timezone)
    {
      if dateInput == "" {
        convertedEpoch := SelectDateText;
        return;
      }
      var time := if timeInput == "" then DefaultTime else timeInput;
      var combined := dateInput + "T" + time + (if timezone == Gmt then "Z" else "");
      var date := parse(combined);
      if date.Some? {
        convertedEpoch := NumberToString(date.value / 1000, 10);
      } else {
        convertedEpoch := InvalidDateText;
      }
    }
  }
}
