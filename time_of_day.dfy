/** The `HH:MM` times of staff schedules: the format test, the split into
    hour and minute, the bounds and the start-before-end rule. */
module TimeOfDay {
  import opened Js

  /** `/^\d{2}:\d{2}$/.test(s)`: two ASCII digits, a colon, two ASCII digits, nothing else. */
  predicate IsHHMM(s: string) {
    |s| == 5 && IsDigit(s[0]) && IsDigit(s[1]) && s[2] == ':' && IsDigit(s[3]) && IsDigit(s[4])
  }

  /** `RegExp.prototype.test` reads its argument as a string. */
  predicate ValueIsHHMM(v: Value) {
    IsHHMM(ToText(v))
  }

  /** Only a string can pass the format test: a number prints without a colon. */
  lemma HHMMValueIsString(v: Value)
    ensures ValueIsHHMM(v) ==> v.Str? && IsHHMM(v.s)
  {
  }

  /** `s.split(sep)`: the pieces between the separators, in order. */
  function Split(s: string, sep: char): (parts: seq<string>)
    ensures |parts| >= 1
  {
    if s == [] then [""]
    else
      var rest := Split(s[1..], sep);
      if s[0] == sep then [""] + rest else [[s[0]] + rest[0]] + rest[1..]
  }

  lemma {:induction false} SplitNoSeparator(s: string, sep: char)
    requires sep !in s
    ensures Split(s, sep) == [s]
  {
    if s != [] {
      SplitNoSeparator(s[1..], sep);
      assert [s[0]] + s[1..] == s;
    }
  }

  lemma {:induction false} SplitFirst(a: string, sep: char, b: string)
    requires sep !in a
    ensures Split(a + [sep] + b, sep) == [a] + Split(b, sep)
  {
    var s := a + [sep] + b;
    if a == [] {
      assert s[1..] == b;
    } else {
      assert s[1..] == a[1..] + [sep] + b;
      SplitFirst(a[1..], sep, b);
      assert [a[0]] + a[1..] == a;
    }
  }

  /** Splitting an `HH:MM` string at the colon gives its two halves. */
  lemma SplitHHMM(s: string)
    requires IsHHMM(s)
    ensures Split(s, ':') == [s[..2], s[3..]]
  {
    assert s == s[..2] + [':'] + s[3..];
    SplitFirst(s[..2], ':', s[3..]);
    SplitNoSeparator(s[3..], ':');
  }

  /** The number two digits denote. */
  function TwoDigits(c0: char, c1: char): (n: nat)
    requires IsDigit(c0) && IsDigit(c1)
    ensures n <= 99
  {
    10 * DigitValue(c0) + DigitValue(c1)
  }

  lemma TwoDigitsValue(s: string)
    requires |s| == 2 && IsDigit(s[0]) && IsDigit(s[1])
    ensures AllDigits(s) && DecimalValue(s) == TwoDigits(s[0], s[1])
  {
    var first := s[..1];
    assert first[..0] == [] && first[0] == s[0];
    assert DecimalValue(first) == DigitValue(s[0]);
    assert s[..|s| - 1] == first;
  }

  /** `s.split(":").map(Number)` destructured into hour and minute. */
  function Clock(s: string): (hm: (int, int))
    requires IsHHMM(s)
    ensures hm == (TwoDigits(s[0], s[1]), TwoDigits(s[3], s[4]))
  {
    SplitHHMM(s);
    var parts := Split(s, ':');
    var hh, mm := parts[0], parts[1];
    TwoDigitsValue(hh);
    TwoDigitsValue(mm);
    DigitsToNumber(hh);
    DigitsToNumber(mm);
    (StringToNumber(hh).value, StringToNumber(mm).value)
  }

  /** The guard `hour > 23 || minute > 59` lets the time through. */
  predicate InRange(hm: (int, int)) {
    !(hm.0 > 23 || hm.1 > 59)
  }

  /** The guard `sh > eh || (sh === eh && sm >= em)` lets the pair through. */
  predicate StartsBefore(start: (int, int), end: (int, int)) {
    !(start.0 > end.0 || (start.0 == end.0 && start.1 >= end.1))
  }

  function MinutesSinceMidnight(hm: (int, int)): int {
    hm.0 * 60 + hm.1
  }

  /** For minutes in range, the lexicographic comparison is the comparison of
      minutes since midnight. */
  lemma StartsBeforeIffEarlier(start: (int, int), end: (int, int))
    requires 0 <= start.1 <= 59 && 0 <= end.1 <= 59
    ensures StartsBefore(start, end) <==> MinutesSinceMidnight(start) < MinutesSinceMidnight(end)
  {
    if start.0 < end.0 {
      calc {
        MinutesSinceMidnight(start);
      <= start.0 * 60 + 59;
      < (start.0 + 1) * 60;
      <= end.0 * 60;
      <= MinutesSinceMidnight(end);
      }
    } else if start.0 > end.0 {
      calc {
        MinutesSinceMidnight(end);
      <= end.0 * 60 + 59;
      < (end.0 + 1) * 60;
      <= start.0 * 60;
      <= MinutesSinceMidnight(start);
      }
    }
  }

  /** A slot's two times are well-formed, in range, and the start is before the end. */
  predicate ValidSlot(start: string, end: string) {
    IsHHMM(start) && IsHHMM(end) && InRange(Clock(start)) && InRange(Clock(end))
    && StartsBefore(Clock(start), Clock(end))
  }

  /** A stored slot lies within one day and ends strictly after it starts. */
  lemma ValidSlotBounds(start: string, end: string)
    requires ValidSlot(start, end)
    ensures var s, e := Clock(start), Clock(end);
      0 <= s.0 <= 23 && 0 <= s.1 <= 59 && 0 <= e.0 <= 23 && 0 <= e.1 <= 59
      && MinutesSinceMidnight(s) < MinutesSinceMidnight(e)
  {
    StartsBeforeIffEarlier(Clock(start), Clock(end));
  }

  /** The `HH:MM` rendering of an hour and minute below 100. */
  function Format(hm: (nat, nat)): (s: string)
    requires hm.0 <= 99 && hm.1 <= 99
    ensures IsHHMM(s)
  {
    [DigitChar(hm.0 / 10), DigitChar(hm.0 % 10), ':', DigitChar(hm.1 / 10), DigitChar(hm.1 % 10)]
  }

  /** Reading an `HH:MM` string and writing it back gives the same string. */
  lemma FormatClock(s: string)
    requires IsHHMM(s)
    ensures Clock(s).0 >= 0 && Clock(s).1 >= 0 && Format((Clock(s).0, Clock(s).1)) == s
  {
    var f := Format((Clock(s).0, Clock(s).1));
    assert DigitValue(f[0]) == DigitValue(s[0]) && DigitValue(f[1]) == DigitValue(s[1]);
    assert DigitValue(f[3]) == DigitValue(s[3]) && DigitValue(f[4]) == DigitValue(s[4]);
  }

  /** Writing an hour and minute and reading them back gives the same pair. */
  lemma ClockFormat(hm: (nat, nat))
    requires hm.0 <= 99 && hm.1 <= 99
    ensures Clock(Format(hm)) == (hm.0 as int, hm.1 as int)
  {
  }
}
