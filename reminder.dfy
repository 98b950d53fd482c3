/** Reminder projection (applyReminderTime): a time of day "HH:MM" is placed on the calendar day
    of a due date, with seconds and milliseconds zero. The string is split at ':' and each field
    converted with JavaScript's Number. */
module Reminder {
  import opened Types
  import opened Calendar

  /** The result of JavaScript's Number conversion: an integer, or NaN. */
  datatype JsNumber = Num(value: int) | NaN

  predicate IsDigit(c: char) { '0' <= c <= '9' }

  predicate AllDigits(s: string) { forall i :: 0 <= i < |s| ==> IsDigit(s[i]) }

  function DigitValue(c: char): int
    requires IsDigit(c)
  {
    (c as int) - ('0' as int)
  }

  function DigitChar(d: int): (c: char)
    requires 0 <= d <= 9
    ensures IsDigit(c) && DigitValue(c) == d
  {
    (('0' as int) + d) as char
  }

  /** The value of a run of decimal digits; the empty run is 0. */
  function DigitsValue(s: string): (v: int)
    requires AllDigits(s)
    ensures v >= 0
  {
    if s == [] then 0 else DigitsValue(s[..|s| - 1]) * 10 + DigitValue(s[|s| - 1])
  }

  /** Number(s) on the strings a time field can hold: the empty string gives 0 and a run of
      decimal digits gives its value; anything else is NaN here. */
  function ToNumber(s: string): (r: JsNumber)
    ensures r.Num? <==> AllDigits(s)
    ensures r.Num? ==> r.value >= 0
  {
    if AllDigits(s) then Num(DigitsValue(s)) else NaN
  }

  /** String.prototype.split with a one-character separator. */
  function Split(s: string, sep: char): (fields: seq<string>)
    ensures |fields| >= 1
    ensures forall i, j :: 0 <= i < |fields| && 0 <= j < |fields[i]| ==> fields[i][j] != sep
    decreases |s|
  {
    if s == [] then [[]]
    else
      var rest := Split(s[1..], sep);
      if s[0] == sep then [[]] + rest else [[s[0]] + rest[0]] + rest[1..]
  }

  /** Array.prototype.join with a one-character separator. */
  function Join(fields: seq<string>, sep: char): string
    requires |fields| >= 1
    decreases |fields|
  {
    if |fields| == 1 then fields[0] else fields[0] + [sep] + Join(fields[1..], sep)
  }

  /** Joining fields whose first field starts with c puts c in front of the join. */
  lemma JoinConsHead(c: char, rest: seq<string>, sep: char)
    requires |rest| >= 1
    ensures Join([[c] + rest[0]] + rest[1..], sep) == [c] + Join(rest, sep)
  {
    var fields := [[c] + rest[0]] + rest[1..];
    if |rest| > 1 {
      assert fields[1..] == rest[1..];
    }
  }

  /** Joining fields whose first field is empty starts with the separator. */
  lemma JoinEmptyHead(rest: seq<string>, sep: char)
    requires |rest| >= 1
    ensures Join([[]] + rest, sep) == [sep] + Join(rest, sep)
  {
    assert ([[]] + rest)[1..] == rest;
  }

  /** Splitting loses nothing: joining the fields with the separator gives the string back. */
  lemma {:induction false} SplitJoin(s: string, sep: char)
    ensures Join(Split(s, sep), sep) == s
    decreases |s|
  {
    if s != [] {
      var rest := Split(s[1..], sep);
      SplitJoin(s[1..], sep);
      if s[0] == sep {
        JoinEmptyHead(rest, sep);
      } else {
        JoinConsHead(s[0], rest, sep);
      }
      assert s == [s[0]] + s[1..];
    }
  }

  /** A field without the separator, then the separator, then the rest. */
  lemma {:induction false} SplitAtFirst(a: string, b: string, sep: char)
    requires forall i :: 0 <= i < |a| ==> a[i] != sep
    ensures Split(a + [sep] + b, sep) == [a] + Split(b, sep)
    decreases |a|
  {
    if a == [] {
      assert a + [sep] + b == [sep] + b;
      assert ([sep] + b)[1..] == b;
    } else {
      SplitAtFirst(a[1..], b, sep);
      assert (a + [sep] + b)[1..] == a[1..] + [sep] + b;
      assert [a[0]] + a[1..] == a;
    }
  }

  /** A string without the separator is a single field. */
  lemma {:induction false} SplitWhole(a: string, sep: char)
    requires forall i :: 0 <= i < |a| ==> a[i] != sep
    ensures Split(a, sep) == [a]
    decreases |a|
  {
    if a != [] {
      SplitWhole(a[1..], sep);
      assert [a[0]] + a[1..] == a;
    }
  }

  datatype ReminderResult =
    | NoReminder          // no time of day configured: the reminder is null
    | ReminderAt(at: int) // the reminder instant
    | InvalidTime         // a NaN field makes an invalid date, whose toISOString throws

  /** The start (00:00) of the calendar day of an instant. */
  function DayStart(t: int): int { (t / MsPerDay) * MsPerDay }

  /** applyReminderTime: null for a missing or empty time; otherwise the day of `date` at the
      hour and minute of the first two fields (a missing minute is 0), seconds and ms zero. */
  function ApplyReminderTime(date: int, reminderTime: Option<string>): (r: ReminderResult)
    ensures r.NoReminder? <==> reminderTime == None || reminderTime == Some("")
  {
    if reminderTime.None? || reminderTime.value == "" then NoReminder
    else
      var fields := Split(reminderTime.value, ':');
      var hour := ToNumber(fields[0]);
      var minute := if |fields| >= 2 then ToNumber(fields[1]) else Num(0);
      if hour.NaN? || minute.NaN? then InvalidTime
      else ReminderAt(DayStart(date) + hour.value * MsPerHour + minute.value * MsPerMinute)
  }

  /** Two decimal digits, as an <input type="time"> writes hours and minutes. */
  function TwoDigits(x: int): (s: string)
    requires 0 <= x < 100
    ensures |s| == 2 && AllDigits(s) && DigitsValue(s) == x
  {
    var s := [DigitChar(x / 10), DigitChar(x % 10)];
    assert s[..1] == [DigitChar(x / 10)];
    assert s[..1][..0] == [];
    assert DigitsValue(s[..1]) == x / 10;
    assert DigitsValue(s) == (x / 10) * 10 + x % 10;
    s
  }

  /** The "HH:MM" string of a time of day. */
  function FormatTime(h: int, m: int): string
    requires 0 <= h < 24 && 0 <= m < 60
  {
    TwoDigits(h) + [':'] + TwoDigits(m)
  }

  /** "HH:MM" splits at ':' into its hour and minute digits. */
  lemma FormatTimeFields(h: int, m: int)
    requires 0 <= h < 24 && 0 <= m < 60
    ensures Split(FormatTime(h, m), ':') == [TwoDigits(h), TwoDigits(m)]
  {
    SplitAtFirst(TwoDigits(h), TwoDigits(m), ':');
    SplitWhole(TwoDigits(m), ':');
  }

  /** Hour h and minute m of day z: on day z, at that time of day, on a whole minute. */
  lemma TimeOfDay(z: int, h: int, m: int)
    requires 0 <= h < 24 && 0 <= m < 60
    ensures var r := z * MsPerDay + h * MsPerHour + m * MsPerMinute;
            && r / MsPerDay == z
            && r % MsPerDay == h * MsPerHour + m * MsPerMinute
            && r % MsPerMinute == 0
  {
    var tod := h * MsPerHour + m * MsPerMinute;
    assert 0 <= tod < MsPerDay;
    Compose(z, tod);
    var q := z * 1440 + h * 60 + m;
    assert z * MsPerDay + tod == q * MsPerMinute;
  }

  /** A time written as "HH:MM" is placed on the same calendar day as `date`, at that hour and
      minute, with seconds and milliseconds zero. */
  lemma ReminderOnSameDay(date: int, h: int, m: int)
    requires 0 <= h < 24 && 0 <= m < 60
    ensures ApplyReminderTime(date, Some(FormatTime(h, m))) == ReminderAt(DayStart(date) + h * MsPerHour + m * MsPerMinute)
    ensures var r := DayStart(date) + h * MsPerHour + m * MsPerMinute;
            && r / MsPerDay == date / MsPerDay
            && r % MsPerDay == h * MsPerHour + m * MsPerMinute
            && r % MsPerMinute == 0
  {
    FormatTimeFields(h, m);
    TimeOfDay(date / MsPerDay, h, m);
  }

  /** A time with no ':' takes minute 0: "09" is 09:00. */
  lemma MissingMinuteIsZero(date: int, h: int)
    requires 0 <= h < 24
    ensures ApplyReminderTime(date, Some(TwoDigits(h))) == ReminderAt(DayStart(date) + h * MsPerHour)
  {
    SplitWhole(TwoDigits(h), ':');
  }
}
