/** The relative-time text shown next to messages and notifications ("5 minutes ago",
    "Yesterday", "3 days ago"). The clock is a parameter: `now` and timestamps are
    milliseconds since the epoch. */
module RelativeTime {
  import opened Base
  import opened Strings

  /** A timestamp as `new Date(x)` sees it: the field is absent, holds text that is not
      a date, or gives an instant. */
  datatype Stamp = Missing | Invalid | At(ms: int)

  /** `"s"` unless the count is exactly one. */
  function Plural(n: nat): string {
    if n != 1 then "s" else ""
  }

  /** The text for a distance of `diff` milliseconds, computed as the source does: whole
      days first, then whole hours when there are none, then whole minutes. */
  function Ago(diff: nat): string {
    var days := diff / MsPerDay;
    if days == 0 then
      var hours := diff / MsPerHour;
      if hours == 0 then
        var minutes := diff / MsPerMinute;
        NatToString(minutes) + (" minute" + Plural(minutes) + " ago")
      else NatToString(hours) + (" hour" + Plural(hours) + " ago")
    else if days == 1 then "Yesterday"
    else NatToString(days) + " days ago"
  }

  /** The bucket a distance falls in, stated by ranges rather than by division. */
  datatype Span = Minutes(n: nat) | Hours(n: nat) | Yesterday | Days(n: nat)

  function SpanOf(diff: nat): (s: Span)
    ensures s.Minutes? <==> diff < MsPerHour
    ensures s.Hours? <==> MsPerHour <= diff < MsPerDay
    ensures s.Yesterday? <==> MsPerDay <= diff < 2 * MsPerDay
    ensures s.Days? <==> 2 * MsPerDay <= diff
    ensures s.Minutes? ==> s.n < 60 && s.n * MsPerMinute <= diff < (s.n + 1) * MsPerMinute
    ensures s.Hours? ==> 1 <= s.n < 24 && s.n * MsPerHour <= diff < (s.n + 1) * MsPerHour
    ensures s.Days? ==> s.n >= 2 && s.n * MsPerDay <= diff < (s.n + 1) * MsPerDay
  {
    if diff < MsPerHour then Minutes(diff / MsPerMinute)
    else if diff < MsPerDay then Hours(diff / MsPerHour)
    else if diff < 2 * MsPerDay then Yesterday
    else Days(diff / MsPerDay)
  }

  function SpanText(s: Span): string {
    match s
    case Minutes(n) => NatToString(n) + (" minute" + Plural(n) + " ago")
    case Hours(n) => NatToString(n) + (" hour" + Plural(n) + " ago")
    case Yesterday => "Yesterday"
    case Days(n) => NatToString(n) + " days ago"
  }

  /** The source's cascade of floors picks the bucket the ranges describe. */
  lemma AgoIsSpanText(diff: nat)
    ensures Ago(diff) == SpanText(SpanOf(diff))
  {
    if diff < MsPerHour {
      assert diff / MsPerDay == 0 && diff / MsPerHour == 0;
    } else if diff < MsPerDay {
      assert diff / MsPerDay == 0 && diff / MsPerHour != 0;
    } else if diff < 2 * MsPerDay {
      assert diff / MsPerDay == 1;
    } else {
      assert diff / MsPerDay >= 2;
    }
  }

  /** A number written in digits followed by text that does not start with a digit
      can be split back into the number and the text. */
  lemma NumberThenText(m: nat, n: nat, s: string, t: string)
    requires |s| > 0 && |t| > 0 && !IsDigit(s[0]) && !IsDigit(t[0])
    requires NatToString(m) + s == NatToString(n) + t
    ensures m == n && s == t
  {
    var a := NatToString(m);
    var b := NatToString(n);
    var u := a + s;
    assert u[|a|] == s[0] && u[|b|] == t[0];
    assert forall i :: 0 <= i < |a| ==> u[i] == a[i] && IsDigit(u[i]);
    assert forall i :: 0 <= i < |b| ==> u[i] == b[i] && IsDigit(u[i]);
    assert |a| == |b|;
    assert a == (a + s)[..|a|] == (b + t)[..|b|] == b;
    assert s == (a + s)[|a|..] == (b + t)[|b|..] == t;
    NatToStringInjective(m, n);
  }

  /** Different buckets give different texts: the text tells the unit and the count. */
  lemma SpanTextInjective(x: Span, y: Span)
    requires SpanText(x) == SpanText(y)
    ensures x == y
  {
    match x
    case Yesterday =>
      if !y.Yesterday? {
        assert false;
      }
    case _ =>
      var sx := SpanText(x)[|NatToString(x.n)|..];
      assert SpanText(x) == NatToString(x.n) + sx;
      assert IsDigit(SpanText(x)[0]);
      if y.Yesterday? {
        assert false;
      } else {
        var sy := SpanText(y)[|NatToString(y.n)|..];
        assert SpanText(y) == NatToString(y.n) + sy;
        assert sx[0] == ' ' && sy[0] == ' ';
        NumberThenText(x.n, y.n, sx, sy);
        assert sx[1] == (if x.Minutes? then 'm' else if x.Hours? then 'h' else 'd');
        assert sy[1] == (if y.Minutes? then 'm' else if y.Hours? then 'h' else 'd');
      }
  }

  /** `formatNotificationTime`: an instant gives the text for its distance from `now`,
      in either direction; anything `Date` cannot read makes every comparison fail and
      the text "NaN days ago". */
  function NotificationTime(t: Stamp, now: int): string {
    match t
    case At(ms) => Ago(Abs(now - ms))
    case _ => "NaN days ago"
  }

  /** `formatMessageTime`: like `NotificationTime`, except that an absent timestamp
      reads "Unknown". */
  function MessageTime(t: Stamp, now: int): string {
    match t
    case Missing => "Unknown"
    case At(ms) => Ago(Abs(now - ms))
    case Invalid => "NaN days ago"
  }

  /** "Yesterday" exactly when one whole day has passed, "N days ago" for two or more. */
  lemma YesterdayIff(d: nat)
    ensures Ago(d) == "Yesterday" <==> MsPerDay <= d < 2 * MsPerDay
    ensures d >= 2 * MsPerDay ==> Ago(d) == NatToString(d / MsPerDay) + " days ago"
  {
    AgoIsSpanText(d);
    if Ago(d) == "Yesterday" {
      SpanTextInjective(SpanOf(d), Yesterday);
    }
  }

  /** Below one hour the unit is singular exactly for one minute. */
  lemma OneMinuteIff(d: nat)
    ensures Ago(d) == "1 minute ago" <==> MsPerMinute <= d < 2 * MsPerMinute
  {
    AgoIsSpanText(d);
    assert NatToString(1) == "1";
    assert SpanText(Minutes(1)) == "1 minute ago";
    if Ago(d) == "1 minute ago" {
      SpanTextInjective(SpanOf(d), Minutes(1));
    }
  }

  /** Below one day the unit is singular exactly for one hour. */
  lemma OneHourIff(d: nat)
    ensures Ago(d) == "1 hour ago" <==> MsPerHour <= d < 2 * MsPerHour
  {
    AgoIsSpanText(d);
    assert NatToString(1) == "1";
    assert SpanText(Hours(1)) == "1 hour ago";
    if Ago(d) == "1 hour ago" {
      SpanTextInjective(SpanOf(d), Hours(1));
    }
  }

  /** The text depends only on the distance from `now`, so an instant `k` ms ahead
      reads as one `k` ms behind, and both formatters agree on instants. */
  lemma DistanceOnly(now: int, ms: int, k: nat)
    ensures NotificationTime(At(now + k), now) == NotificationTime(At(now - k), now)
    ensures MessageTime(At(ms), now) == NotificationTime(At(ms), now) == Ago(Abs(now - ms))
  {
  }

  /** Without an instant the two formatters differ only on an absent field. */
  lemma NoInstant(t: Stamp, now: int)
    requires !t.At?
    ensures NotificationTime(t, now) == "NaN days ago"
    ensures MessageTime(t, now) == "Unknown" <==> t.Missing?
  {
  }
}
