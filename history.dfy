/** The two display helpers of the vote-history page: the relative age of a
    vote (`formatDate`) and the badge colour of a score (`getScoreColor`). */
module History {
  import opened Durations

  // ----- decimal rendering of a count (`${n}` in a template literal) -----

  function DigitChar(d: nat): (c: char)
    requires d < 10
    ensures '0' <= c <= '9' && c as int - '0' as int == d
  {
    "0123456789"[d]
  }

  /** The decimal numeral of `n`, without leading zeros. */
  function NatToString(n: nat): (s: string)
    ensures |s| >= 1 && forall i :: 0 <= i < |s| ==> '0' <= s[i] <= '9'
    ensures s[0] != '0' || n == 0
    decreases n
  {
    if n < 10 then [DigitChar(n)] else NatToString(n / 10) + [DigitChar(n % 10)]
  }

  predicate AllDigits(s: string)
  {
    forall i :: 0 <= i < |s| ==> '0' <= s[i] <= '9'
  }

  /** The value of a numeral, read from the left. */
  function DigitsValue(s: string): nat
    requires AllDigits(s)
  {
    if s == [] then 0 else DigitsValue(s[..|s| - 1]) * 10 + (s[|s| - 1] as int - '0' as int)
  }

  /** Reading the numeral back gives the count: the rendering loses nothing. */
  lemma {:induction false} NatToStringRoundTrip(n: nat)
    ensures DigitsValue(NatToString(n)) == n
    decreases n
  {
    if n >= 10 {
      NatToStringRoundTrip(n / 10);
      var s := NatToString(n);
      assert s[..|s| - 1] == NatToString(n / 10);
    }
  }

  // ----- formatDate -----

  /** What `formatDate` shows: one of the four relative phrasings, or the
      calendar date (`toLocaleDateString`, not modelled) for older votes. */
  datatype DateLabel = Text(text: string) | CalendarDate

  /** `"<n> <unit>"` with an `s` exactly when `n` is not 1, then `" ago"`. */
  function Ago(n: nat, unit: string): (s: string)
  {
    NatToString(n) + " " + unit + (if n != 1 then "s" else "") + " ago"
  }

  /** `formatDate` for a vote `diffMs` milliseconds old (now minus the vote
      time; negative for a vote stamped in the future). The three counts
      are floor divisions, as `Math.floor` computes them. */
  function FormatDate(diffMs: int): DateLabel
  {
    var diffMins := diffMs / MinuteMs;
    var diffHours := diffMs / HourMs;
    var diffDays := diffMs / DayMs;
    if diffMins < 1 then Text("Just now")
    else if diffMins < 60 then Text(Ago(diffMins, "minute"))
    else if diffHours < 24 then Text(Ago(diffHours, "hour"))
    else if diffDays < 7 then Text(Ago(diffDays, "day"))
    else CalendarDate
  }

  /** Everything less than a minute old, the future included, is "Just now". */
  lemma FormatJustNow(diffMs: int)
    ensures FormatDate(diffMs) == Text("Just now") <==> diffMs < MinuteMs
  {
    if diffMs >= MinuteMs {
      assert (diffMs / MinuteMs) >= 1;
      var a := FormatDate(diffMs);
      assert a.Text? ==> |a.text| >= 5 && a.text[|a.text| - 4..] == " ago";
    }
  }

  /** From one minute up to one hour: the whole minutes, 1 to 59. */
  lemma FormatMinutes(diffMs: int)
    requires MinuteMs <= diffMs < HourMs
    ensures 1 <= diffMs / MinuteMs < 60
    ensures FormatDate(diffMs) == Text(Ago(diffMs / MinuteMs, "minute"))
  {
  }

  /** From one hour up to one day: the whole hours, 1 to 23. */
  lemma FormatHours(diffMs: int)
    requires HourMs <= diffMs < DayMs
    ensures 1 <= diffMs / HourMs < 24
    ensures FormatDate(diffMs) == Text(Ago(diffMs / HourMs, "hour"))
  {
    assert diffMs / MinuteMs >= 60;
  }

  /** From one day up to a week: the whole days, 1 to 6. */
  lemma FormatDays(diffMs: int)
    requires DayMs <= diffMs < 7 * DayMs
    ensures 1 <= diffMs / DayMs < 7
    ensures FormatDate(diffMs) == Text(Ago(diffMs / DayMs, "day"))
  {
    assert diffMs / MinuteMs >= 60;
    assert diffMs / HourMs >= 24;
  }

  /** A week or more falls through to the calendar date. */
  lemma FormatCalendar(diffMs: int)
    ensures FormatDate(diffMs) == CalendarDate <==> diffMs >= 7 * DayMs
  {
    if diffMs >= 7 * DayMs {
      assert diffMs / MinuteMs >= 60;
      assert diffMs / HourMs >= 24;
      assert diffMs / DayMs >= 7;
    }
  }

  predicate EndsWith(s: string, suffix: string)
  {
    |suffix| <= |s| && s[|s| - |suffix|..] == suffix
  }

  /** The plural rule: for a unit not itself ending in `s`, the phrase ends
      in `"s ago"` exactly when the count is not 1. */
  lemma AgoPlural(n: nat, unit: string)
    requires unit != [] && unit[|unit| - 1] != 's'
    ensures EndsWith(Ago(n, unit), "s ago") <==> n != 1
  {
    var s := Ago(n, unit);
    var d := NatToString(n);
    if n != 1 {
      assert s == (d + " " + unit) + "s ago";
    } else {
      assert s == (d + " " + unit[..|unit| - 1]) + [unit[|unit| - 1]] + " ago";
      assert s[|s| - 5] == unit[|unit| - 1];
    }
  }

  // ----- getScoreColor -----

  /** The colour bands of a score, lowest first. */
  datatype Band = Orange | Yellow | Blue | Green
  {
    function ClassName(): string
    {
      match this
      case Green => "bg-green-600"
      case Blue => "bg-blue-600"
      case Yellow => "bg-yellow-600"
      case Orange => "bg-orange-600"
    }

    function Level(): nat
    {
      match this
      case Orange => 0
      case Yellow => 1
      case Blue => 2
      case Green => 3
    }
  }

  /** The band `getScoreColor` picks: at least 8, 6 or 4, or else orange. */
  function ScoreBand(score: real): (b: Band)
    ensures b == Green <==> score >= 8.0
    ensures b == Blue <==> 6.0 <= score < 8.0
    ensures b == Yellow <==> 4.0 <= score < 6.0
    ensures b == Orange <==> score < 4.0
  {
    if score >= 8.0 then Green
    else if score >= 6.0 then Blue
    else if score >= 4.0 then Yellow
    else Orange
  }

  /** `getScoreColor`: the Tailwind class of the score's band. */
  function ScoreColor(score: real): string
  {
    ScoreBand(score).ClassName()
  }

  /** A higher score never gets a lower band. */
  lemma ScoreBandMonotone(a: real, b: real)
    requires a <= b
    ensures ScoreBand(a).Level() <= ScoreBand(b).Level()
  {
  }

  /** The four bands have four different classes, so the colour tells the
      band. */
  lemma ScoreColorDistinguishes(a: real, b: real)
    ensures ScoreColor(a) == ScoreColor(b) <==> ScoreBand(a) == ScoreBand(b)
  {
    var x, y := ScoreBand(a), ScoreBand(b);
    if x != y {
      assert x.ClassName()[3] != y.ClassName()[3];
    }
  }
}
