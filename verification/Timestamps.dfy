/** Timestamps as text: printing Unix time in ISO 8601 and parsing it back. */
module Timestamps {
  import opened Octets
  import opened Wrappers
  import opened CivilTime

  const I64_MAX: nat := 0x7fff_ffff_ffff_ffff

  // ----- Decimal numbers

  function Digit(n: nat): (c: char)
    requires n < 10
    ensures IsDigit(c) && DigitValue(c) == n
  {
    "0123456789"[n]
  }

  predicate IsDigit(c: char) { '0' <= c <= '9' }

  function DigitValue(c: char): nat
    requires IsDigit(c)
  { (c - '0') as nat }

  predicate AllDigits(s: string) {
    forall i :: 0 <= i < |s| ==> IsDigit(s[i])
  }

  function Decimal(n: nat): (s: string)
    ensures |s| > 0 && AllDigits(s)
  {
    if n < 10 then [Digit(n)] else Decimal(n / 10) + [Digit(n % 10)]
  }

  /** Decimal, padded with zeros to the width. */
  function Padded(n: nat, width: nat): (s: string)
    ensures |s| > 0 && AllDigits(s)
  {
    var s := Decimal(n);
    if |s| < width then seq(width - |s|, i => '0') + s else s
  }

  function Value(s: string): nat
    requires AllDigits(s)
  {
    if |s| == 0 then 0 else Value(s[..|s| - 1]) * 10 + DigitValue(s[|s| - 1])
  }

  lemma {:induction false} DecimalValue(n: nat)
    ensures Value(Decimal(n)) == n
  {
    if n >= 10 {
      DecimalValue(n / 10);
      assert Decimal(n)[..|Decimal(n)| - 1] == Decimal(n / 10);
    } else {
      assert Decimal(n)[..0] == "";
    }
  }

  lemma {:induction false} ZerosValue(zeros: string, s: string)
    requires AllDigits(zeros) && AllDigits(s) && forall i :: 0 <= i < |zeros| ==> zeros[i] == '0'
    ensures AllDigits(zeros + s) && Value(zeros + s) == Value(s)
  {
    if |s| > 0 {
      ZerosValue(zeros, s[..|s| - 1]);
      assert (zeros + s)[..|zeros + s| - 1] == zeros + s[..|s| - 1];
    } else if |zeros| > 0 {
      ZerosValue(zeros[..|zeros| - 1], "");
      assert zeros[..|zeros| - 1] + "" == zeros[..|zeros| - 1];
      assert zeros + s == zeros;
    }
  }

  lemma PaddedValue(n: nat, width: nat)
    ensures Value(Padded(n, width)) == n
  {
    DecimalValue(n);
    var s := Decimal(n);
    if |s| < width {
      ZerosValue(seq(width - |s|, i => '0'), s);
    }
  }

  // ----- The library's string operations

  /** Parse as u64: an optional plus sign, then digits within range. */
  function ParseU64(s: string): Option<nat> {
    var body := if |s| > 0 && s[0] == '+' then s[1..] else s;
    if |body| == 0 || !AllDigits(body) || Value(body) > U64_MAX then None else Some(Value(body))
  }

  /** Parse as i64: an optional sign, then digits within range. */
  function ParseI64(s: string): Option<int> {
    var negative := |s| > 0 && s[0] == '-';
    var body := if |s| > 0 && (s[0] == '+' || s[0] == '-') then s[1..] else s;
    if |body| == 0 || !AllDigits(body) then None
    else
      var v: int := Value(body);
      if negative then if v > I64_MAX + 1 then None else Some(-v)
      else if v > I64_MAX then None else Some(v)
  }

  predicate IsSpace(c: char) {
    c == ' ' || '\t' <= c <= '\r'
  }

  function TrimStart(s: string): string {
    if |s| > 0 && IsSpace(s[0]) then TrimStart(s[1..]) else s
  }

  function TrimEnd(s: string): string {
    if |s| > 0 && IsSpace(s[|s| - 1]) then TrimEnd(s[..|s| - 1]) else s
  }

  /** Index of the first 'T' or space, or the length. */
  function FindSeparator(s: string): (n: nat)
    ensures n <= |s|
  {
    if |s| == 0 || s[0] == 'T' || s[0] == ' ' then 0 else 1 + FindSeparator(s[1..])
  }

  function Split(s: string, c: char): (parts: seq<string>)
    ensures |parts| > 0
  {
    if |s| == 0 then [""]
    else if s[0] == c then [""] + Split(s[1..], c)
    else var rest := Split(s[1..], c); [[s[0]] + rest[0]] + rest[1..]
  }

  // ----- Printing and parsing

  /** YYYY-MM-DD. */
  function DateText(y: nat, m: nat, d: nat): string {
    Padded(y, 4) + "-" + Padded(m, 2) + "-" + Padded(d, 2)
  }

  /** HH:MM:SS. */
  function TimeText(hh: nat, mm: nat, ss: nat): string {
    Padded(hh, 2) + ":" + Padded(mm, 2) + ":" + Padded(ss, 2)
  }

  function Iso8601(unix: nat): string {
    var days, secs := unix / 86400, unix % 86400;
    var t := CivilFromDays(days);
    DayRoundTrip(days);
    YearPositive(days);
    DateText(t.y, t.m, t.d) + "T" + TimeText(secs / 3600, secs / 60 % 60, secs % 60) + "Z"
  }

  lemma YearPositive(days: nat)
    ensures 0 <= CivilFromDays(days).y
  {
    hide CivilFromDays, DaysBefore, MonthStart, Leap, MonthNumber;
    var era, yoe, doy, mp := DayParts(days);
    if era < 0 {
      DaysBeforeBound(yoe);
    }
  }

  lemma DaysBeforeBound(yoe: int)
    requires 0 <= yoe < 400
    ensures 0 <= DaysBefore(yoe) <= 365 * yoe + 100
  {}

  /** The time part: hours and minutes required, seconds optional. */
  function ParseTime(s: string): Option<(nat, nat, nat)> {
    var p := Split(s, ':');
    if |p| < 2 then None
    else
      var hh, mm, ss := ParseU64(p[0]), ParseU64(p[1]), if |p| > 2 then ParseU64(p[2]) else Some(0);
      if hh.None? || mm.None? || ss.None? then None
      else if hh.value > 23 || mm.value > 59 || ss.value > 60 then None
      else Some((hh.value, mm.value, ss.value))
  }

  function ParseDate(s: string): Option<Date> {
    var p := Split(s, '-');
    if |p| != 3 then None
    else
      var y, m, d := ParseI64(p[0]), ParseI64(p[1]), ParseI64(p[2]);
      if y.None? || m.None? || d.None? || !(1 <= m.value <= 12) || !(1 <= d.value <= 31) then None
      else Some(Date(y.value, m.value, d.value))
  }

  /** Unix seconds, or YYYY-MM-DD[THH:MM[:SS]][Z]. */
  function ParseTimestamp(text: string): Option<nat> {
    var s0 := TrimEnd(TrimStart(text));
    var n := ParseU64(s0);
    if n.Some? then n
    else
      var s := if |s0| > 0 && s0[|s0| - 1] == 'Z' then s0[..|s0| - 1] else s0;
      var at := FindSeparator(s);
      var date := ParseDate(s[..at]);
      var time := if at < |s| then ParseTime(s[at + 1..]) else Some((0, 0, 0));
      if date.None? || time.None? then None
      else
        var days := DaysFromCivil(date.value);
        if days < 0 then None
        else Some(days * 86400 + time.value.0 * 3600 + time.value.1 * 60 + time.value.2)
  }

  // ----- The round trip

  predicate Free(s: string, c: char) {
    forall i :: 0 <= i < |s| ==> s[i] != c
  }

  lemma {:induction false} SplitFree(s: string, c: char)
    requires Free(s, c)
    ensures Split(s, c) == [s]
  {
    if |s| > 0 {
      SplitFree(s[1..], c);
      assert s == [s[0]] + s[1..];
    }
  }

  lemma {:induction false} SplitAt(a: string, c: char, b: string)
    requires Free(a, c)
    ensures Split(a + [c] + b, c) == [a] + Split(b, c)
  {
    var s := a + [c] + b;
    if |a| == 0 {
      assert s[1..] == b;
    } else {
      assert s[1..] == a[1..] + [c] + b;
      SplitAt(a[1..], c, b);
      assert a == [a[0]] + a[1..];
    }
  }

  lemma SplitThree(a: string, b: string, d: string, c: char)
    requires Free(a, c) && Free(b, c) && Free(d, c)
    ensures Split(a + [c] + b + [c] + d, c) == [a, b, d]
  {
    hide Split, Free;
    SplitFree(d, c);
    SplitAt(b, c, d);
    SplitAt(a, c, b + [c] + d);
    assert a + [c] + b + [c] + d == a + [c] + (b + [c] + d);
    assert [a] + ([b] + [d]) == [a, b, d];
  }

  lemma DigitsFree(s: string, c: char)
    requires AllDigits(s) && !IsDigit(c)
    ensures Free(s, c)
  {}

  lemma {:induction false} FindSeparatorAt(a: string, b: string)
    requires Free(a, 'T') && Free(a, ' ')
    ensures FindSeparator(a + ['T'] + b) == |a|
  {
    var s := a + ['T'] + b;
    if |a| > 0 {
      assert s[1..] == a[1..] + ['T'] + b;
      FindSeparatorAt(a[1..], b);
    }
  }

  lemma PaddedParses(n: nat, width: nat)
    ensures n <= U64_MAX ==> ParseU64(Padded(n, width)) == Some(n)
    ensures n <= I64_MAX ==> ParseI64(Padded(n, width)) == Some(n)
    ensures Free(Padded(n, width), '-') && Free(Padded(n, width), ':') && Free(Padded(n, width), 'T') && Free(Padded(n, width), ' ')
  {
    PaddedValue(n, width);
    var s := Padded(n, width);
    assert IsDigit(s[0]);
    DigitsFree(s, '-');
    DigitsFree(s, ':');
    DigitsFree(s, 'T');
    DigitsFree(s, ' ');
  }

  lemma DateParses(y: nat, m: nat, d: nat)
    requires y <= I64_MAX && 1 <= m <= 12 && 1 <= d <= 31
    ensures ParseDate(DateText(y, m, d)) == Some(Date(y, m, d))
    ensures var s := DateText(y, m, d); |s| > 0 && IsDigit(s[0]) && !AllDigits(s) && Free(s, 'T') && Free(s, ' ')
  {
    hide Padded, ParseI64, Split;
    PaddedParses(y, 4);
    PaddedParses(m, 2);
    PaddedParses(d, 2);
    SplitThree(Padded(y, 4), Padded(m, 2), Padded(d, 2), '-');
    var s := DateText(y, m, d);
    assert s[0] == Padded(y, 4)[0] && s[|Padded(y, 4)|] == '-';
  }

  lemma TimeParses(hh: nat, mm: nat, ss: nat)
    requires hh <= 23 && mm <= 59 && ss <= 59
    ensures ParseTime(TimeText(hh, mm, ss)) == Some((hh, mm, ss))
  {
    hide Padded, ParseU64, Split;
    PaddedParses(hh, 2);
    PaddedParses(mm, 2);
    PaddedParses(ss, 2);
    SplitThree(Padded(hh, 2), Padded(mm, 2), Padded(ss, 2), ':');
  }

  /** A date and a time joined as iso8601 joins them parse to their parts. */
  lemma JoinedParses(date: string, time: string, t: Date, hms: (nat, nat, nat))
    requires |date| > 0 && IsDigit(date[0]) && !AllDigits(date) && Free(date, 'T') && Free(date, ' ')
    requires ParseDate(date) == Some(t) && ParseTime(time) == Some(hms) && DaysFromCivil(t) >= 0
    ensures ParseTimestamp(date + "T" + time + "Z") == Some(DaysFromCivil(t) * 86400 + hms.0 * 3600 + hms.1 * 60 + hms.2)
  {
    hide ParseDate, ParseTime, DaysFromCivil;
    var text := date + "T" + time + "Z";
    var bad :| 0 <= bad < |date| && !IsDigit(date[bad]);
    assert text[0] == date[0] && text[bad] == date[bad] && text[|text| - 1] == 'Z';
    assert TrimEnd(TrimStart(text)) == text;
    assert ParseU64(text) == None;
    var s := text[..|text| - 1];
    assert s == date + ['T'] + time;
    FindSeparatorAt(date, time);
    assert s[..|date|] == date && s[|date| + 1..] == time;
  }

  /** Printing a Unix time and parsing the text gives the time back. */
  lemma TimestampRoundTrip(unix: nat)
    requires unix <= U64_MAX
    ensures ParseTimestamp(Iso8601(unix)) == Some(unix)
  {
    hide CivilFromDays, DaysFromCivil, DateText, TimeText, ParseDate, ParseTime, ParseTimestamp;
    var days, secs := unix / 86400, unix % 86400;
    var t := CivilFromDays(days);
    var hh, mm, ss := secs / 3600, secs / 60 % 60, secs % 60;
    DayRoundTrip(days);
    YearPositive(days);
    YearBound(days);
    DateParses(t.y, t.m, t.d);
    TimeParses(hh, mm, ss);
    JoinedParses(DateText(t.y, t.m, t.d), TimeText(hh, mm, ss), t, (hh, mm, ss));
  }

  lemma YearBound(days: nat)
    requires days <= U64_MAX / 86400
    ensures CivilFromDays(days).y <= I64_MAX
  {
    hide CivilFromDays, DaysBefore, MonthStart, Leap, MonthNumber;
    var era, yoe, doy, mp := DayParts(days);
    DaysBeforeBound(yoe);
  }
}
