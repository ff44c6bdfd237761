/**
  The integer arithmetic and text of the page's two clocks: the interval clock
  as minutes:seconds and the session clock as hours:minutes, each number shown
  in decimal and left-padded with '0' to two characters.

  JavaScript's `%` is `JsRem`, which truncates toward zero;
  `Math.floor(a / k)` with a positive constant `k` is Dafny's `a / k`, which
  rounds toward negative infinity when the divisor is positive.
 */
module Display {
  import opened Wrappers
  import opened JsMath
  import opened Timer
  import opened TimerProperties

  predicate IsDigit(c: char) {
    '0' <= c <= '9'
  }

  predicate AllDigits(s: string) {
    forall i :: 0 <= i < |s| ==> IsDigit(s[i])
  }

  /** The shape `String(n)` gives an integer: an optional minus sign, then digits. */
  predicate IsNumeral(s: string) {
    if |s| > 0 && s[0] == '-' then |s| > 1 && AllDigits(s[1..]) else |s| > 0 && AllDigits(s)
  }

  function DigitChar(d: int): (c: char)
    requires 0 <= d < 10
    ensures IsDigit(c)
  {
    ('0' as int + d) as char
  }

  function DigitValue(c: char): (d: int)
    requires IsDigit(c)
    ensures 0 <= d < 10 && DigitChar(d) == c
  {
    c as int - '0' as int
  }

  /** Decimal digits of `n`, most significant first, with no leading zero. */
  function NatToString(n: nat): (r: string)
    ensures |r| >= 1 && AllDigits(r)
    ensures |r| == 1 <==> n < 10
    ensures r[0] == '0' ==> n == 0
    decreases n
  {
    if n < 10 then [DigitChar(n)] else NatToString(n / 10) + [DigitChar(n % 10)]
  }

  /** `String(i)` for an integer `i`. */
  function IntToString(i: int): (r: string)
    ensures IsNumeral(r)
    ensures i < 0 <==> r[0] == '-'
  {
    if i < 0 then "-" + NatToString(-i) else NatToString(i)
  }

  /** The value of a string of decimal digits; the empty string reads as 0. */
  function ParseDigits(s: string): nat
    requires AllDigits(s)
    decreases |s|
  {
    if |s| == 0 then 0 else ParseDigits(s[..|s| - 1]) * 10 + DigitValue(s[|s| - 1])
  }

  /** The integer a numeral denotes. */
  function ParseInt(s: string): int
    requires IsNumeral(s)
  {
    if s[0] == '-' then -(ParseDigits(s[1..]) as int) else ParseDigits(s)
  }

  /** `s.padStart(width, fill)` with a one-character fill. */
  function PadStart(s: string, width: nat, fill: char): (r: string)
    ensures |r| == if |s| >= width then |s| else width
    ensures r[|r| - |s|..] == s
    ensures forall i :: 0 <= i < |r| - |s| ==> r[i] == fill
    decreases width - |s|
  {
    if |s| >= width then s else PadStart([fill] + s, width, fill)
  }

  /** `String(i).padStart(2, '0')`, how both clocks show each number. */
  function TwoDigits(i: int): (r: string)
    ensures IsNumeral(r)
    ensures ParseInt(r) == i
    ensures |r| >= 2
    ensures 0 <= i < 100 ==> |r| == 2
  {
    PaddedNumeralKeepsValue(i);
    PadStart(IntToString(i), 2, '0')
  }

  lemma {:induction false} NatToStringRoundTrip(n: nat)
    ensures ParseDigits(NatToString(n)) == n
    decreases n
  {
    var r := NatToString(n);
    if n >= 10 {
      NatToStringRoundTrip(n / 10);
      assert r[..|r| - 1] == NatToString(n / 10);
    }
  }

  /** A leading zero does not change the value of a digit string. */
  lemma {:induction false} LeadingZero(s: string)
    requires AllDigits(s)
    ensures AllDigits(['0'] + s)
    ensures ParseDigits(['0'] + s) == ParseDigits(s)
    decreases |s|
  {
    var z := ['0'] + s;
    if |s| > 0 {
      assert z[..|z| - 1] == ['0'] + s[..|s| - 1];
      LeadingZero(s[..|s| - 1]);
    }
  }

  /** Padding a digit string with zeros keeps its value. */
  lemma {:induction false} ZeroPadKeepsValue(s: string, width: nat)
    requires AllDigits(s)
    ensures AllDigits(PadStart(s, width, '0'))
    ensures ParseDigits(PadStart(s, width, '0')) == ParseDigits(s)
    decreases width - |s|
  {
    if |s| < width {
      LeadingZero(s);
      ZeroPadKeepsValue(['0'] + s, width);
    }
  }

  lemma NegativeNumeralKeepsValue(i: int)
    requires i < 0
    ensures IsNumeral(PadStart(IntToString(i), 2, '0'))
    ensures ParseInt(PadStart(IntToString(i), 2, '0')) == i
  {
    var d := NatToString(-i);
    var s := ['-'] + d;
    assert IntToString(i) == s;
    assert PadStart(s, 2, '0') == s;
    assert s[1..] == d;
    assert IsNumeral(s);
    NatToStringRoundTrip(-i);
    assert ParseInt(s) == -(ParseDigits(d) as int);
  }

  lemma NonNegativeNumeralKeepsValue(i: int)
    requires 0 <= i
    ensures IsNumeral(PadStart(IntToString(i), 2, '0'))
    ensures ParseInt(PadStart(IntToString(i), 2, '0')) == i
  {
    var d := NatToString(i);
    assert IntToString(i) == d;
    ZeroPadKeepsValue(d, 2);
    var p := PadStart(d, 2, '0');
    assert IsDigit(p[0]) && p[0] != '-';
    NatToStringRoundTrip(i);
  }

  /** Two-character zero padding of `String(i)` reads back as `i`. */
  lemma PaddedNumeralKeepsValue(i: int)
    ensures IsNumeral(PadStart(IntToString(i), 2, '0'))
    ensures ParseInt(PadStart(IntToString(i), 2, '0')) == i
  {
    if i < 0 {
      NegativeNumeralKeepsValue(i);
    } else {
      NonNegativeNumeralKeepsValue(i);
    }
  }

  /** The minutes and seconds of the interval clock for `t` elapsed seconds. */
  function MinutesSeconds(t: int): (r: (int, int))
    ensures 0 <= t ==> r.0 * 60 + r.1 == t && 0 <= r.0 && 0 <= r.1 < 60
  {
    (t / 60, JsRem(t, 60))
  }

  /** The interval clock's two fields, minutes first. */
  function TimerText(s: State): (r: (string, string))
    ensures IsNumeral(r.0) && IsNumeral(r.1)
    ensures ParseInt(r.0) == MinutesSeconds(s.currentTime).0
    ensures ParseInt(r.1) == MinutesSeconds(s.currentTime).1
    ensures 0 <= s.currentTime < 6000 ==> |r.0| == 2 && |r.1| == 2
  {
    var ms := MinutesSeconds(s.currentTime);
    (TwoDigits(ms.0), TwoDigits(ms.1))
  }

  /** In every consistent state the interval clock reads at most 43:00, in two-character fields. */
  lemma ConsistentTimerText(s: State)
    requires Consistent(s)
    ensures |TimerText(s).0| == 2 && |TimerText(s).1| == 2
    ensures MinutesSeconds(s.currentTime).0 * 60 <= s.totalSeconds <= 43 * 60
  {
  }

  /** Whole seconds between a start stamp and `now`, both in milliseconds, rounded down. */
  function ElapsedSeconds(start: int, now: int): (e: int)
    ensures e * 1000 <= now - start < e * 1000 + 1000
  {
    (now - start) / 1000
  }

  /** The hours and minutes of the session clock for `e` elapsed seconds. */
  function ClockParts(e: int): (r: (int, int))
    ensures 0 <= e ==> 0 <= r.0 && 0 <= r.1 < 60
    ensures 0 <= e ==> r.0 * 3600 + r.1 * 60 <= e < r.0 * 3600 + r.1 * 60 + 60
  {
    (e / 3600, JsRem(e, 3600) / 60)
  }

  lemma JoinedHalves(h: string, m: string)
    ensures |h| == 2 && |m| == 2 ==>
              var r := h + ":" + m;
              |r| == 5 && r[2] == ':' && r[..2] == h && r[3..] == m
  {
    if |h| == 2 && |m| == 2 {
      var r := h + ":" + m;
      assert r[..2] == h;
      assert r[3..] == m;
    }
  }

  /** `r` is `hh:mm`, five characters whose halves read back as `hours` and `minutes`. */
  predicate ShowsClock(r: string, hours: int, minutes: int) {
    && |r| == 5 && r[2] == ':'
    && IsNumeral(r[..2]) && IsNumeral(r[3..])
    && ParseInt(r[..2]) == hours
    && ParseInt(r[3..]) == minutes
  }

  /** `hh:mm` for `e` elapsed seconds. */
  function ClockText(e: int): (r: string)
    ensures 0 <= e < 100 * 3600 ==> ShowsClock(r, ClockParts(e).0, ClockParts(e).1)
  {
    var parts := ClockParts(e);
    var h := TwoDigits(parts.0);
    var m := TwoDigits(parts.1);
    assert 0 <= e < 100 * 3600 ==> parts.0 < 100;
    JoinedHalves(h, m);
    h + ":" + m
  }

  /**
    The session clock in milliseconds: for `d` milliseconds between `start`
    and `now`, the hours and minutes it shows are the whole hours in `d` and
    the whole minutes left over.
   */
  lemma ClockPartsFromMillis(start: int, now: int)
    requires 0 <= now - start < 100 * 3600 * 1000
    ensures 0 <= ElapsedSeconds(start, now) < 100 * 3600
    ensures ClockParts(ElapsedSeconds(start, now)).0 == (now - start) / 3600000
    ensures ClockParts(ElapsedSeconds(start, now)).1 == ((now - start) / 60000) % 60
  {
    var d := now - start;
    var e := ElapsedSeconds(start, now);
    var h := ClockParts(e).0;
    var m := ClockParts(e).1;
    assert e * 1000 <= d < e * 1000 + 1000;
    assert h * 3600 + m * 60 <= e < h * 3600 + m * 60 + 60;
    assert h * 3600000 + m * 60000 <= d < h * 3600000 + m * 60000 + 60000;
    assert h * 3600000 <= d < h * 3600000 + 3600000;
    assert d / 3600000 == h;
    assert (h * 60 + m) * 60000 <= d < (h * 60 + m) * 60000 + 60000;
    assert d / 60000 == h * 60 + m;
    assert (h * 60 + m) % 60 == m;
  }

  /** The `hh:mm` text for the time from `start` to `now`, read in milliseconds. */
  lemma ClockTextFromMillis(start: int, now: int)
    requires 0 <= now - start < 100 * 3600 * 1000
    ensures ShowsClock(ClockText(ElapsedSeconds(start, now)),
                       (now - start) / 3600000, ((now - start) / 60000) % 60)
  {
    ClockPartsFromMillis(start, now);
  }

  /**
    The session clock's text, or `None` when the page leaves it untouched: the
    page tests the start stamp for truthiness, so a missing stamp and a stamp of
    0 both skip the update.
   */
  function SessionClock(s: State, now: int): (r: Option<string>)
    ensures r.None? <==> s.sessionStartTime.None? || s.sessionStartTime.value == 0
    ensures r.Some? ==> r.value == ClockText(ElapsedSeconds(s.sessionStartTime.value, now))
  {
    match s.sessionStartTime
    case None => None
    case Some(start) =>
      if start == 0 then None
      else
        Some(ClockText(ElapsedSeconds(start, now)))
  }

  /**
    What the session clock shows, in milliseconds: with a truthy stamp and `d`
    milliseconds since it, under 100 hours, the text is `hh:mm` with the whole
    hours in `d` and the minutes past the hour.
   */
  lemma SessionClockInMillis(s: State, start: int, now: int)
    requires s.sessionStartTime == Some(start) && start != 0
    requires 0 <= now - start < 100 * 3600 * 1000
    ensures SessionClock(s, now).Some?
    ensures ShowsClock(SessionClock(s, now).value, (now - start) / 3600000, ((now - start) / 60000) % 60)
  {
    ClockTextFromMillis(start, now);
  }
}
