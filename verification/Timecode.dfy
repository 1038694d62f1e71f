/** Timecodes and durations as text: `1:36`, `1:36.4`, `96.4`, `96`. */
module Timecode {
  import opened Options
  import opened Text

  // ----- Digits -----

  predicate IsDigit(c: char) { '0' <= c <= '9' }

  function DigitOf(n: nat): (c: char)
    requires n < 10
    ensures IsDigit(c) && ValueOf(c) == n
  {
    (n + '0' as int) as char
  }

  function ValueOf(c: char): nat
    requires IsDigit(c)
  {
    c as int - '0' as int
  }

  predicate Digits(s: string) { forall c | c in s :: IsDigit(c) }

  function Number(s: string): nat
    requires Digits(s)
  {
    if s == "" then 0 else Number(s[..|s| - 1]) * 10 + ValueOf(s[|s| - 1])
  }

  /** `String(n)` */
  function Show(n: nat): (s: string)
    ensures s != "" && Digits(s)
  {
    if n < 10 then [DigitOf(n)] else Show(n / 10) + [DigitOf(n % 10)]
  }

  /** `String(n).padStart(2, '0')` */
  function Show2(n: nat): string { if |Show(n)| < 2 then "0" + Show(n) else Show(n) }

  lemma {:induction false} ShowNumber(n: nat)
    ensures Number(Show(n)) == n
  {
    var s := Show(n);
    assert forall c | c in s[..|s| - 1] :: c in s;
    if n >= 10 {
      ShowNumber(n / 10);
      assert s[..|s| - 1] == Show(n / 10);
    }
  }

  // ----- Printing -----

  /** `Math.round` of something positive, 0 otherwise. */
  function Tenths(seconds: real): nat { if seconds > 0.0 then (seconds * 10.0 + 0.5).Floor else 0 }

  function Clock(whole: nat): string { Show(whole / 60) + ":" + Show2(whole % 60) }

  function WithTenth(clock: string, d: nat): string { if d == 0 then clock else clock + "." + Show(d) }

  function FormatTenths(tenths: nat): string { WithTenth(Clock(tenths / 10), tenths % 10) }

  function FormatTimecode(seconds: real): string { FormatTenths(Tenths(seconds)) }

  function FormatDuration(seconds: real): string { Clock(if seconds > 0.0 then seconds.Floor else 0) }

  // ----- Parsing -----

  /** `\d+` */
  predicate Many(s: string) { s != "" && Digits(s) }

  /** `[0-5]?\d` */
  predicate Sexagesimal(s: string) { 1 <= |s| <= 2 && Digits(s) && (|s| == 2 ==> s[0] <= '5') }

  /** `(?:\.(\d))?` at the end: the text before it and the tenth, if it fits. */
  function SplitTenth(s: string): Option<(string, nat)> {
    var dot := IndexOf(s, '.', 0);
    if dot == |s| then Some((s, 0))
    else if dot + 2 == |s| && IsDigit(s[dot + 1]) then Some((s[..dot], ValueOf(s[dot + 1])))
    else None
  }

  /** `m:ss` or plain seconds. */
  function ParseSeconds(s: string): Option<nat> {
    var colon := IndexOf(s, ':', 0);
    if colon < |s| then
      if Many(s[..colon]) && Sexagesimal(s[colon + 1..]) then Some(Number(s[..colon]) * 60 + Number(s[colon + 1..])) else None
    else if Many(s) then Some(Number(s))
    else None
  }

  /** The timecode in tenths of a second. */
  function ParseTenths(text: string): Option<nat> {
    match SplitTenth(Trim(text))
    case None => None
    case Some((body, tenth)) =>
      match ParseSeconds(body)
      case None => None
      case Some(seconds) => Some(seconds * 10 + tenth)
  }

  function ParseTimecode(text: string): Option<real> {
    match ParseTenths(text)
    case None => None
    case Some(tenths) => Some(tenths as real / 10.0)
  }

  /** The clip's own length: whole seconds, no tenths. */
  function ParseDuration(text: string): Option<nat> { ParseSeconds(Trim(text)) }

  // ----- Round trips -----

  lemma DigitsFree(s: string, c: char)
    requires Digits(s) && !IsDigit(c)
    ensures c !in s
  {}

  lemma Show2Is(n: nat)
    requires n < 60
    ensures Sexagesimal(Show2(n)) && |Show2(n)| == 2 && Number(Show2(n)) == n
  {
    ShowNumber(n);
    if n < 10 {
      var s := Show2(n);
      assert s[..1] == "0" && s[..1][..0] == "";
      assert Number("0") == 0;
    } else {
      assert Show(n / 10) == [DigitOf(n / 10)];
    }
  }

  /** The printed clock, taken apart at its colon. */
  lemma ClockIs(whole: nat)
    ensures var s, m := Clock(whole), Show(whole / 60);
            && IndexOf(s, ':', 0) == |m| && s[..|m|] == m && s[|m| + 1..] == Show2(whole % 60)
            && Number(m) * 60 + Number(Show2(whole % 60)) == whole
            && '.' !in s && s != "" && IsDigit(s[0]) && IsDigit(s[|s| - 1])
            && Sexagesimal(Show2(whole % 60))
  {
    var s, m := Clock(whole), Show(whole / 60);
    ShowNumber(whole / 60);
    Show2Is(whole % 60);
    DigitsFree(m, ':');
    DigitsFree(m, '.');
    DigitsFree(Show2(whole % 60), '.');
    assert s[|m|] == ':';
    assert forall t | 0 <= t < |m| :: s[t] == m[t];
    assert m[0] in m && s[|s| - 1] == Show2(whole % 60)[1];
    assert Show2(whole % 60)[1] in Show2(whole % 60);
  }

  lemma DigitEdges(s: string)
    requires s != "" && IsDigit(s[0]) && IsDigit(s[|s| - 1])
    ensures Trim(s) == s
  {
    TrimIdentity(s);
  }

  lemma FindNone(s: string, c: char)
    requires c !in s
    ensures IndexOf(s, c, 0) == |s|
  {}

  lemma FindAt(s: string, c: char, i: nat)
    requires i < |s| && s[i] == c && c !in s[..i]
    ensures IndexOf(s, c, 0) == i
  {
    forall t | 0 <= t < i ensures s[t] != c { assert s[..i][t] == s[t]; }
  }

  lemma TenthShows(d: nat)
    requires 0 < d < 10
    ensures Show(d) == [DigitOf(d)]
  {}

  /** What is printed is read back, to the tenth. */
  lemma TenthsRoundTrip(t: nat)
    ensures ParseTenths(FormatTenths(t)) == Some(t)
  {
    ClockParses(t / 10);
    TenthParses(Clock(t / 10), t);
  }

  lemma TenthParses(clock: string, t: nat)
    requires ParseSeconds(clock) == Some(t / 10) && SplitTenth(clock) == Some((clock, 0)) && Trim(clock) == clock
    requires '.' !in clock && clock != "" && IsDigit(clock[0])
    ensures ParseTenths(WithTenth(clock, t % 10)) == Some(t)
  {
    if t % 10 != 0 {
      TenthShows(t % 10);
      TenthSplits(clock, t % 10);
    }
  }

  lemma ClockParses(whole: nat)
    ensures var s := Clock(whole);
            && ParseSeconds(s) == Some(whole) && SplitTenth(s) == Some((s, 0)) && Trim(s) == s
            && '.' !in s && s != "" && IsDigit(s[0])
  {
    ClockIs(whole);
    DigitEdges(Clock(whole));
    FindNone(Clock(whole), '.');
  }

  lemma TenthSplits(clock: string, d: nat)
    requires '.' !in clock && clock != "" && IsDigit(clock[0]) && d < 10
    ensures var s := clock + "." + [DigitOf(d)];
            Trim(s) == s && SplitTenth(s) == Some((clock, d))
  {
    var s := clock + "." + [DigitOf(d)];
    DigitEdges(s);
    assert s[..|clock|] == clock && s[|clock|] == '.';
    FindAt(s, '.', |clock|);
  }

  /** A time in tenths is the nearest number of them, a half rounded up; none for a negative time. */
  lemma TenthsIs(seconds: real)
    ensures seconds >= 0.0 ==> Tenths(seconds) as real - 0.5 <= seconds * 10.0 < Tenths(seconds) as real + 0.5
    ensures seconds < 0.0 ==> Tenths(seconds) == 0
  {}

  /** Minutes and seconds: one digit of seconds, or two and then at most 59. */
  predicate Clocked(s: string, m: string, t: string, n: nat) {
    && s == m + ":" + t && Many(m) && Digits(t) && (|t| == 1 || (|t| == 2 && t[0] <= '5'))
    && n == Number(m) * 60 + Number(t)
  }

  lemma ClockedReads(s: string, m: string, t: string, n: nat)
    requires Clocked(s, m, t, n)
    ensures ParseSeconds(s) == Some(n)
  {
    DigitsFree(m, ':');
    SplitAtColon(s, m, t);
  }

  lemma SplitAtColon(s: string, m: string, t: string)
    requires s == m + ":" + t && ':' !in m
    ensures IndexOf(s, ':', 0) == |m| && s[..|m|] == m && s[|m| + 1..] == t
  {
    assert s[|m|] == ':' && forall k | 0 <= k < |m| :: s[k] == m[k];
  }

  /** Seconds are read from exactly the texts that are all digits, and from clocks. */
  lemma ParseSecondsIs(s: string, n: nat)
    ensures ParseSeconds(s) == Some(n) <==> (Many(s) && n == Number(s)) || exists m, t :: Clocked(s, m, t, n)
  {
    var colon := IndexOf(s, ':', 0);
    if Many(s) { DigitsFree(s, ':'); }
    if ParseSeconds(s) == Some(n) && colon < |s| {
      var m, t := s[..colon], s[colon + 1..];
      assert s == m + ":" + t && Clocked(s, m, t, n);
    }
    if m, t :| Clocked(s, m, t, n) { ClockedReads(s, m, t, n); }
  }

  /** Reading a printed timecode gives the time, rounded to a tenth. */
  lemma TimecodeRoundTrip(seconds: real)
    ensures ParseTimecode(FormatTimecode(seconds)) == Some(Tenths(seconds) as real / 10.0)
  {
    TenthsRoundTrip(Tenths(seconds));
  }

  lemma DurationRoundTrip(seconds: real)
    ensures ParseDuration(FormatDuration(seconds)) == Some(if seconds > 0.0 then seconds.Floor else 0)
  {
    var whole: nat := if seconds > 0.0 then seconds.Floor else 0;
    ClockParses(whole);
  }

  /** A duration is also a timecode, of the same length. */
  lemma {:induction false} DurationIsTimecode(text: string)
    requires ParseDuration(text).Some?
    ensures ParseTenths(text) == Some(ParseDuration(text).value * 10)
  {
    var s := Trim(text);
    var colon := IndexOf(s, ':', 0);
    if colon < |s| {
      DigitsFree(s[..colon], '.');
      DigitsFree(s[colon + 1..], '.');
      assert s == s[..colon] + ":" + s[colon + 1..];
    } else {
      DigitsFree(s, '.');
    }
    FindNone(s, '.');
  }
}
