/** Decimal numerals and the two clock renderings of the app: the 12-hour
    "h:mm AM" text of `parseTime` (Task.js and Details.js share the same
    arithmetic) and the 24-hour "H:MM" text of `formatTime` (CreateTask.js). */
module Clock {
  import opened Seqs

  /** What `Date.prototype.getHours` and `getMinutes` can return. */
  type Hour = h: int | 0 <= h < 24
  type Minute = m: int | 0 <= m < 60

  datatype TimeOfDay = TimeOfDay(hour: Hour, minute: Minute)

  predicate IsDigit(c: char) { '0' <= c <= '9' }

  predicate AllDigits(s: string) { forall i :: 0 <= i < |s| ==> IsDigit(s[i]) }

  function DigitChar(d: nat): (c: char)
    requires d < 10
    ensures IsDigit(c)
  {
    (48 + d) as char
  }

  function DigitValue(c: char): (d: nat)
    requires IsDigit(c)
    ensures d < 10
  {
    (c as int) - 48
  }

  /** The text JavaScript gives a non-negative integer in a template literal. */
  function Decimal(n: nat): (s: string)
    ensures |s| >= 1 && AllDigits(s)
  {
    if n < 10 then [DigitChar(n)] else Decimal(n / 10) + [DigitChar(n % 10)]
  }

  /** Reads a string of digits as a number. */
  function DecimalValue(s: string): nat
    requires AllDigits(s)
  {
    if s == [] then 0 else 10 * DecimalValue(s[..|s| - 1]) + DigitValue(s[|s| - 1])
  }

  lemma {:induction false} DecimalRoundTrip(n: nat)
    ensures DecimalValue(Decimal(n)) == n
  {
    if n >= 10 {
      DecimalRoundTrip(n / 10);
      var s := Decimal(n);
      assert s[..|s| - 1] == Decimal(n / 10);
    }
  }

  lemma DecimalLength(n: nat)
    ensures n < 10 ==> |Decimal(n)| == 1
    ensures 10 <= n < 100 ==> |Decimal(n)| == 2
  {
  }

  /** Minutes as the app shows them: a "0" in front of values below ten. */
  function TwoDigits(m: nat): string
  {
    (if m < 10 then "0" else "") + Decimal(m)
  }

  lemma TwoDigitsSpec(m: nat)
    requires m < 100
    ensures |TwoDigits(m)| == 2 && AllDigits(TwoDigits(m))
    ensures DecimalValue(TwoDigits(m)) == m
    ensures m < 10 <==> TwoDigits(m)[0] == '0'
  {
    DecimalLength(m);
    if m < 10 {
      var s := TwoDigits(m);
      assert s[..1] == "0" && s[1] == DigitChar(m);
      assert DecimalValue(s[..1]) == 10 * DecimalValue(s[..1][..0]) + DigitValue('0');
    } else {
      DecimalRoundTrip(m);
      assert TwoDigits(m)[0] == DigitChar(m / 10);
    }
  }

  /** "H:MM": the hour without padding, the minutes always with two digits. */
  function ClockText(h: nat, m: nat): string
  {
    Decimal(h) + ":" + TwoDigits(m)
  }

  /** Reads "H:MM" back into hour and minutes. */
  function ParseClockText(s: string): Option<(nat, nat)>
  {
    if |s| >= 4 && s[|s| - 3] == ':' && AllDigits(s[..|s| - 3]) && AllDigits(s[|s| - 2..])
    then Some((DecimalValue(s[..|s| - 3]), DecimalValue(s[|s| - 2..])))
    else None
  }

  lemma ClockTextRoundTrip(h: nat, m: nat)
    requires m < 100
    ensures ParseClockText(ClockText(h, m)) == Some((h, m))
  {
    var s := ClockText(h, m);
    var d := Decimal(h);
    TwoDigitsSpec(m);
    DecimalRoundTrip(h);
    assert s[..|s| - 3] == d;
    assert s[|s| - 2..] == TwoDigits(m);
  }

  /** The hour on a 12-hour dial: `hours % 12`, with 0 shown as 12. */
  function Hour12(h: Hour): (r: nat)
    ensures 1 <= r <= 12
    ensures r % 12 == h % 12
  {
    if h % 12 == 0 then 12 else h % 12
  }

  function Meridiem(h: Hour): string
  {
    if h >= 12 then "PM" else "AM"
  }

  /** `parseTime`'s text for a valid time: "h:mm AM" or "h:mm PM". */
  function TwelveHour(t: TimeOfDay): string
  {
    ClockText(Hour12(t.hour), t.minute) + " " + Meridiem(t.hour)
  }

  /** Reads "h:mm AM"/"h:mm PM" back into a 24-hour time of day. */
  function ParseTwelveHour(s: string): Option<TimeOfDay>
  {
    if |s| >= 3 && s[|s| - 3] == ' ' && (s[|s| - 2..] == "AM" || s[|s| - 2..] == "PM") then
      match ParseClockText(s[..|s| - 3])
      case Some((h12, m)) =>
        if 1 <= h12 <= 12 && m < 60 then
          Some(TimeOfDay(h12 % 12 + (if s[|s| - 2..] == "PM" then 12 else 0), m))
        else None
      case None => None
    else None
  }

  /** The 12-hour text determines the time: nothing is lost by the AM/PM form. */
  lemma TwelveHourRoundTrip(t: TimeOfDay)
    ensures ParseTwelveHour(TwelveHour(t)) == Some(t)
  {
    var s := TwelveHour(t);
    var c := ClockText(Hour12(t.hour), t.minute);
    assert s[..|s| - 3] == c;
    assert s[|s| - 2..] == Meridiem(t.hour);
    ClockTextRoundTrip(Hour12(t.hour), t.minute);
  }

  /** The shape of the 12-hour text: the hour lies in 1..12, the suffix is "PM"
      exactly for afternoon hours, and minutes below ten get a leading "0". */
  lemma TwelveHourShape(t: TimeOfDay)
    ensures var s := TwelveHour(t);
      && ParseClockText(s[..|s| - 3]).Some?
      && 1 <= ParseClockText(s[..|s| - 3]).value.0 <= 12
      && (s[|s| - 2..] == "PM" <==> t.hour >= 12)
      && (s[|s| - 2..] == "AM" <==> t.hour < 12)
      && (s[|s| - 5] == '0' <==> t.minute < 10)
  {
    var s := TwelveHour(t);
    var c := ClockText(Hour12(t.hour), t.minute);
    assert s[..|s| - 3] == c;
    assert s[|s| - 2..] == Meridiem(t.hour);
    ClockTextRoundTrip(Hour12(t.hour), t.minute);
    TwoDigitsSpec(t.minute);
    assert c[|c| - 2..] == TwoDigits(t.minute);
    assert s[|s| - 5] == c[|c| - 2];
  }

  /** `formatTime`: the prompt when no time is chosen, otherwise 24-hour "H:MM". */
  function FormatTime(t: Option<TimeOfDay>): string
  {
    match t
    case None => "Selecione a Hora"
    case Some(tod) => ClockText(tod.hour, tod.minute)
  }

  /** A chosen time renders as text that reads back to the same hour and minutes,
      and never as the prompt. */
  lemma FormatTimeSpec(t: Option<TimeOfDay>)
    ensures t.None? ==> FormatTime(t) == "Selecione a Hora"
    ensures t.Some? ==> ParseClockText(FormatTime(t)) == Some((t.value.hour as nat, t.value.minute as nat))
    ensures t.Some? ==> FormatTime(t) != "Selecione a Hora"
  {
    if t.Some? {
      ClockTextRoundTrip(t.value.hour, t.value.minute);
      assert FormatTime(t)[0] != 'S';
    }
  }
}
