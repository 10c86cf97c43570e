/** The `end_duration` text of a stream key record: its parse with the format
    "%d/%m/%Y, %I:%M:%S %p", the same format used for rendering, the reading of
    the parsed wall time in Asia/Kolkata (fixed +05:30) and the expiry test
    against the UTC clock. */
module Timestamp {
  import opened Wrappers
  import opened Calendar

  /** Asia/Kolkata is five and a half hours ahead of UTC. */
  const KolkataOffset := 19800

  /** A value read from the front of a text, with the text left after it. */
  datatype Scan<T> = Scan(value: T, rest: string)

  predicate IsDigit(c: char) {
    '0' <= c <= '9'
  }

  function DigitValue(c: char): nat
    requires IsDigit(c)
  {
    (c - '0') as nat
  }

  function DigitChar(n: nat): (c: char)
    requires n < 10
    ensures IsDigit(c) && DigitValue(c) == n
  {
    '0' + n as char
  }

  /** Length of the run of digits at the front of `s`, stopping after `max`. */
  function DigitRun(s: string, max: nat): (k: nat)
    ensures k <= max && k <= |s|
    ensures forall i :: 0 <= i < k ==> IsDigit(s[i])
    ensures k < max && k < |s| ==> !IsDigit(s[k])
  {
    if max == 0 || |s| == 0 || !IsDigit(s[0]) then 0
    else 1 + DigitRun(s[1..], max - 1)
  }

  /** Decimal value of a string of digits. */
  function DigitsValue(s: string): nat
    requires forall i :: 0 <= i < |s| ==> IsDigit(s[i])
  {
    if |s| == 0 then 0 else DigitsValue(s[..|s| - 1]) * 10 + DigitValue(s[|s| - 1])
  }

  /** A numeric field: one up to `max` digits, taken greedily. */
  function ScanNumber(s: string, max: nat): Option<Scan<nat>> {
    var k := DigitRun(s, max);
    if k == 0 then None else Some(Scan(DigitsValue(s[..k]), s[k..]))
  }

  /** A literal piece of the format, matched exactly. */
  function ScanLiteral(s: string, lit: string): Option<string> {
    if lit <= s then Some(s[|lit|..]) else None
  }

  /** The %p field: AM or PM in either letter case; true for PM. */
  function ScanMeridiem(s: string): Option<Scan<bool>> {
    if |s| < 2 || !(s[1] == 'm' || s[1] == 'M') then None
    else if s[0] == 'a' || s[0] == 'A' then Some(Scan(false, s[2..]))
    else if s[0] == 'p' || s[0] == 'P' then Some(Scan(true, s[2..]))
    else None
  }

  /** 12-hour clock reading to hour of day: 12 AM is 0, 12 PM is 12. */
  function To24(hour12: int, pm: bool): (h: int)
    requires 1 <= hour12 <= 12
    ensures 0 <= h <= 23
    ensures h >= 12 <==> pm
    ensures h % 12 == hour12 % 12
  {
    (if pm then 12 else 0) + hour12 % 12
  }

  /** Hour of day to the 12-hour clock reading shown by %I. */
  function To12(h: int): (hour12: int)
    requires 0 <= h <= 23
    ensures 1 <= hour12 <= 12
    ensures hour12 % 12 == h % 12
  {
    if h % 12 == 0 then 12 else h % 12
  }

  /** The two clock conversions are inverse to each other. */
  lemma ClockRoundTrip(h: int, hour12: int, pm: bool)
    requires 0 <= h <= 23 && 1 <= hour12 <= 12
    ensures To24(To12(h), h >= 12) == h
    ensures To12(To24(hour12, pm)) == hour12
  {
  }

  /** Range checks of the parsed fields and the calendar check of the date. */
  function Assemble(day: int, month: int, year: int, hour12: int, minute: int, second: int, pm: bool): (r: Option<DateTime>)
    ensures r.Some? ==> Valid(r.value)
  {
    if ValidDate(year, month, day) && 1 <= hour12 <= 12 && 0 <= minute <= 59 && 0 <= second <= 60
    then Some(DateTime(year, month, day, To24(hour12, pm), minute, second))
    else None
  }

  /** The numbers read for "%d/%m/%Y". */
  datatype DateFields = DateFields(day: nat, month: nat, year: nat)

  /** The numbers read for "%I:%M:%S %p"; `pm` is true for PM. */
  datatype ClockFields = ClockFields(hour12: nat, minute: nat, second: nat, pm: bool)

  /** The date part "%d/%m/%Y" at the front of a text. */
  function ParseDate(s: string): Option<Scan<DateFields>> {
    var day :- ScanNumber(s, 2);
    var s1 :- ScanLiteral(day.rest, "/");
    var month :- ScanNumber(s1, 2);
    var s2 :- ScanLiteral(month.rest, "/");
    var year :- ScanNumber(s2, 4);
    Some(Scan(DateFields(day.value, month.value, year.value), year.rest))
  }

  /** The clock part "%I:%M:%S %p" at the front of a text. */
  function ParseClock(s: string): Option<Scan<ClockFields>> {
    var hour :- ScanNumber(s, 2);
    var s1 :- ScanLiteral(hour.rest, ":");
    var minute :- ScanNumber(s1, 2);
    var s2 :- ScanLiteral(minute.rest, ":");
    var second :- ScanNumber(s2, 2);
    var s3 :- ScanLiteral(second.rest, " ");
    var half :- ScanMeridiem(s3);
    Some(Scan(ClockFields(hour.value, minute.value, second.value, half.value), half.rest))
  }

  /** Parse of a text with "%d/%m/%Y, %I:%M:%S %p". None is a parse error,
      which the caller turns into a panic. Text left over is an error too. */
  function ParseExpiry(s: string): (r: Option<DateTime>)
    ensures r.Some? ==> Valid(r.value)
  {
    var date :- ParseDate(s);
    var s1 :- ScanLiteral(date.rest, ", ");
    var clock :- ParseClock(s1);
    if clock.rest != "" then None
    else
      var d, c := date.value, clock.value;
      Assemble(d.day, d.month, d.year, c.hour12, c.minute, c.second, c.pm)
  }

  /** Two digits, zero-padded. */
  function Pad2(n: nat): string
    requires n < 100
  {
    [DigitChar(n / 10), DigitChar(n % 10)]
  }

  /** Four digits, zero-padded. */
  function Pad4(n: nat): string
    requires n < 10000
  {
    var high, low := n / 100, n % 100;
    [DigitChar(high / 10), DigitChar(high % 10), DigitChar(low / 10), DigitChar(low % 10)]
  }

  function Meridiem(pm: bool): string {
    if pm then "PM" else "AM"
  }

  /** The canonical text "DD/MM/YYYY" of the given fields. */
  function DateText(day: nat, month: nat, year: nat): string
    requires day < 100 && month < 100 && year < 10000
  {
    Pad2(day) + "/" + Pad2(month) + "/" + Pad4(year)
  }

  /** The canonical text "hh:mm:ss AM" of the given fields. */
  function ClockText(hour12: nat, minute: nat, second: nat, pm: bool): string
    requires hour12 < 100 && minute < 100 && second < 100
  {
    Pad2(hour12) + ":" + Pad2(minute) + ":" + Pad2(second) + " " + Meridiem(pm)
  }

  /** The canonical text "DD/MM/YYYY, hh:mm:ss AM" of the given fields. */
  function Text(day: nat, month: nat, year: nat, hour12: nat, minute: nat, second: nat, pm: bool): string
    requires day < 100 && month < 100 && year < 10000 && hour12 < 100 && minute < 100 && second < 100
  {
    DateText(day, month, year) + (", " + ClockText(hour12, minute, second, pm))
  }

  /** Rendering of a date-time with "%d/%m/%Y, %I:%M:%S %p" (years 0..9999). */
  function Format(dt: DateTime): string
    requires Valid(dt) && 0 <= dt.year <= 9999
  {
    Text(dt.day, dt.month, dt.year, To12(dt.hour), dt.minute, dt.second, dt.hour >= 12)
  }

  lemma Pad2Value(n: nat)
    requires n < 100
    ensures DigitsValue(Pad2(n)) == n
  {
    var p := Pad2(n);
    assert p[..1] == [p[0]];
    assert DigitsValue(p[..1]) == n / 10 by {
      assert p[..1][..0] == [];
    }
  }

  lemma Pad4Value(n: nat)
    requires n < 10000
    ensures DigitsValue(Pad4(n)) == n
  {
    var p := Pad4(n);
    var high, low := n / 100, n % 100;
    var p1, p2, p3 := p[..1], p[..2], p[..3];
    assert p1 == [p[0]] && p2 == p1 + [p[1]] && p3 == p2 + [p[2]] && p == p3 + [p[3]];
    assert p1[..0] == [] && p2[..1] == p1 && p3[..2] == p2 && p[..3] == p3;
    assert DigitsValue(p1) == high / 10;
    assert DigitsValue(p2) == high;
    assert DigitsValue(p3) == high * 10 + low / 10;
    assert DigitsValue(p) == high * 100 + low;
  }

  lemma ScanPad2(n: nat, rest: string)
    requires n < 100
    ensures ScanNumber(Pad2(n) + rest, 2) == Some(Scan(n, rest))
  {
    var s := Pad2(n) + rest;
    assert DigitRun(s, 2) == 2 by {
      assert s[1..] == [s[1]] + rest;
      assert DigitRun(s[1..], 1) == 1 by {
        assert s[1..][1..] == rest;
      }
    }
    assert s[..2] == Pad2(n) && s[2..] == rest;
    Pad2Value(n);
  }

  lemma ScanPad4(n: nat, rest: string)
    requires n < 10000
    ensures ScanNumber(Pad4(n) + rest, 4) == Some(Scan(n, rest))
  {
    var p := Pad4(n);
    var s := p + rest;
    assert DigitRun(s, 4) == 4 by {
      assert s[1..] == p[1..] + rest;
      assert s[1..][1..] == p[2..] + rest;
      assert s[1..][1..][1..] == p[3..] + rest;
      assert s[1..][1..][1..][1..] == rest;
    }
    assert s[..4] == p && s[4..] == rest;
    Pad4Value(n);
  }

  lemma ScanLiteralPrefix(lit: string, rest: string)
    ensures ScanLiteral(lit + rest, lit) == Some(rest)
  {
    assert (lit + rest)[|lit|..] == rest;
  }

  lemma ParseDateText(day: nat, month: nat, year: nat, rest: string)
    requires day < 100 && month < 100 && year < 10000
    ensures ParseDate(DateText(day, month, year) + rest) == Some(Scan(DateFields(day, month, year), rest))
  {
    var q := Pad4(year) + rest;
    var p := "/" + q;
    var o := Pad2(month) + p;
    var n := "/" + o;
    Regroup(Pad2(day), "/", Pad2(month), "/", Pad4(year), rest);
    ScanPad2(day, n);
    ScanLiteralPrefix("/", o);
    ScanPad2(month, p);
    ScanLiteralPrefix("/", q);
    ScanPad4(year, rest);
    ParseDateSteps(Pad2(day) + n, Scan(day, n), o, Scan(month, p), q, Scan(year, rest));
  }

  /** Re-nests a text built left to right as one built right to left. */
  lemma Regroup<T>(a: seq<T>, b: seq<T>, c: seq<T>, d: seq<T>, e: seq<T>, f: seq<T>)
    ensures a + b + c + d + e + f == a + (b + (c + (d + (e + f))))
  {
  }

  lemma ParseClockText(hour12: nat, minute: nat, second: nat, pm: bool)
    requires hour12 < 100 && minute < 100 && second < 100
    ensures ParseClock(ClockText(hour12, minute, second, pm)) == Some(Scan(ClockFields(hour12, minute, second, pm), ""))
  {
    var h, m, c, half := Pad2(hour12), Pad2(minute), Pad2(second), Meridiem(pm);
    Pad2Digits(hour12);
    Pad2Digits(minute);
    Pad2Digits(second);
    assert ClockText(hour12, minute, second, pm) == h + ":" + m + ":" + c + (" " + half);
    Regroup(h, ":", m, ":", c, " " + half);
    ParseClockOf(h, m, c, half, pm);
  }

  lemma Pad2Digits(n: nat)
    requires n < 100
    ensures Digits(Pad2(n), 2) && DigitsValue(Pad2(n)) == n
  {
    Pad2Value(n);
  }

  lemma ParseJoined(date: string, clock: string, d: DateFields, c: ClockFields)
    requires ParseDate(date + (", " + clock)) == Some(Scan(d, ", " + clock))
    requires ParseClock(clock) == Some(Scan(c, ""))
    ensures ParseExpiry(date + (", " + clock)) == Assemble(d.day, d.month, d.year, c.hour12, c.minute, c.second, c.pm)
  {
    ScanLiteralPrefix(", ", clock);
  }

  /** The canonical text is cut into exactly the fields it was made of. */
  lemma ParseTextFields(day: nat, month: nat, year: nat, hour12: nat, minute: nat, second: nat, pm: bool)
    requires day < 100 && month < 100 && year < 10000 && hour12 < 100 && minute < 100 && second < 100
    ensures ParseExpiry(Text(day, month, year, hour12, minute, second, pm)) == Assemble(day, month, year, hour12, minute, second, pm)
  {
    var date := DateText(day, month, year);
    var clock := ClockText(hour12, minute, second, pm);
    ParseDateText(day, month, year, ", " + clock);
    ParseClockText(hour12, minute, second, pm);
    ParseJoined(date, clock, DateFields(day, month, year), ClockFields(hour12, minute, second, pm));
  }

  /** The canonical text of any field values parses exactly when the fields
      are in range and name a real calendar date, and then yields those fields
      with the hour converted to the 24-hour clock. */
  lemma ParseText(day: nat, month: nat, year: nat, hour12: nat, minute: nat, second: nat, pm: bool)
    requires day < 100 && month < 100 && year < 10000 && hour12 < 100 && minute < 100 && second < 100
    ensures ParseExpiry(Text(day, month, year, hour12, minute, second, pm)) ==
      if ValidDate(year, month, day) && 1 <= hour12 <= 12 && minute <= 59 && second <= 60
      then Some(DateTime(year, month, day, To24(hour12, pm), minute, second))
      else None
  {
    ParseTextFields(day, month, year, hour12, minute, second, pm);
  }

  /** Rendering then parsing gives back the same date-time. */
  lemma FormatRoundTrip(dt: DateTime)
    requires Valid(dt) && 0 <= dt.year <= 9999
    ensures ParseExpiry(Format(dt)) == Some(dt)
  {
    ParseText(dt.day, dt.month, dt.year, To12(dt.hour), dt.minute, dt.second, dt.hour >= 12);
    ClockRoundTrip(dt.hour, To12(dt.hour), dt.hour >= 12);
  }

  /** The pieces of an `end_duration` text in the layout
      "DD/MM/YYYY, hh:mm:ss AM": the digit strings of the six numeric fields
      and the two letters of the half-day marker. */
  datatype Pieces = Pieces(day: string, month: string, year: string, hour: string, minute: string, second: string, half: string)

  /** The text the pieces make, with the layout's literals between them. */
  function Layout(p: Pieces): string {
    p.day + ("/" + (p.month + ("/" + (p.year + (", " +
      (p.hour + (":" + (p.minute + (":" + (p.second + (" " + p.half)))))))))))
  }

  /** One up to `max` decimal digits. */
  predicate Digits(s: string, max: nat) {
    1 <= |s| <= max && forall i :: 0 <= i < |s| ==> IsDigit(s[i])
  }

  /** "AM" (or "PM" when `pm`) in any letter case. */
  predicate IsMeridiem(s: string, pm: bool) {
    && |s| == 2
    && (s[1] == 'm' || s[1] == 'M')
    && (if pm then s[0] == 'p' || s[0] == 'P' else s[0] == 'a' || s[0] == 'A')
  }

  /** The pieces spell out the date-time: day, month and year with one or two
      (year: up to four) digits of their values, the hour on the 12-hour
      clock, minute and second, and the marker of its half of the day. */
  predicate Shows(p: Pieces, dt: DateTime) {
    && Digits(p.day, 2) && DigitsValue(p.day) == dt.day
    && Digits(p.month, 2) && DigitsValue(p.month) == dt.month
    && Digits(p.year, 4) && DigitsValue(p.year) == dt.year
    && 0 <= dt.hour <= 23
    && Digits(p.hour, 2) && DigitsValue(p.hour) == To12(dt.hour)
    && Digits(p.minute, 2) && DigitsValue(p.minute) == dt.minute
    && Digits(p.second, 2) && DigitsValue(p.second) == dt.second
    && IsMeridiem(p.half, dt.hour >= 12)
  }

  lemma ScanNumberCut(s: string, max: nat) returns (digits: string)
    requires ScanNumber(s, max).Some?
    ensures Digits(digits, max) && DigitsValue(digits) == ScanNumber(s, max).value.value
    ensures s == digits + ScanNumber(s, max).value.rest
  {
    var k := DigitRun(s, max);
    digits := s[..k];
    assert s == s[..k] + s[k..];
  }

  lemma ScanLiteralCut(s: string, lit: string)
    requires ScanLiteral(s, lit).Some?
    ensures s == lit + ScanLiteral(s, lit).value
  {
    assert s == s[..|lit|] + s[|lit|..];
  }

  lemma ScanMeridiemCut(s: string) returns (half: string)
    requires ScanMeridiem(s).Some?
    ensures IsMeridiem(half, ScanMeridiem(s).value.value)
    ensures s == half + ScanMeridiem(s).value.rest
  {
    half := s[..2];
    assert s == s[..2] + s[2..];
  }

  lemma ParseDateCut(s: string) returns (day: string, month: string, year: string)
    requires ParseDate(s).Some?
    ensures var f := ParseDate(s).value.value;
      && Digits(day, 2) && DigitsValue(day) == f.day
      && Digits(month, 2) && DigitsValue(month) == f.month
      && Digits(year, 4) && DigitsValue(year) == f.year
    ensures s == day + ("/" + (month + ("/" + (year + ParseDate(s).value.rest))))
  {
    var d := ScanNumber(s, 2).value;
    day := ScanNumberCut(s, 2);
    var s1 := ScanLiteral(d.rest, "/").value;
    ScanLiteralCut(d.rest, "/");
    var m := ScanNumber(s1, 2).value;
    month := ScanNumberCut(s1, 2);
    var s2 := ScanLiteral(m.rest, "/").value;
    ScanLiteralCut(m.rest, "/");
    var y := ScanNumber(s2, 4).value;
    year := ScanNumberCut(s2, 4);
  }

  lemma ParseClockCut(s: string) returns (hour: string, minute: string, second: string, half: string)
    requires ParseClock(s).Some?
    ensures var f := ParseClock(s).value.value;
      && Digits(hour, 2) && DigitsValue(hour) == f.hour12
      && Digits(minute, 2) && DigitsValue(minute) == f.minute
      && Digits(second, 2) && DigitsValue(second) == f.second
      && IsMeridiem(half, f.pm)
    ensures s == hour + (":" + (minute + (":" + (second + (" " + (half + ParseClock(s).value.rest))))))
  {
    var h := ScanNumber(s, 2).value;
    hour := ScanNumberCut(s, 2);
    var s1 := ScanLiteral(h.rest, ":").value;
    ScanLiteralCut(h.rest, ":");
    var m := ScanNumber(s1, 2).value;
    minute := ScanNumberCut(s1, 2);
    var s2 := ScanLiteral(m.rest, ":").value;
    ScanLiteralCut(m.rest, ":");
    var c := ScanNumber(s2, 2).value;
    second := ScanNumberCut(s2, 2);
    var s3 := ScanLiteral(c.rest, " ").value;
    ScanLiteralCut(c.rest, " ");
    half := ScanMeridiemCut(s3);
  }

  /** Only text in the layout parses: a successful parse is the text of
      pieces that spell out the parsed date-time. */
  lemma ParsedTextHasLayout(s: string)
    requires ParseExpiry(s).Some?
    ensures exists p :: Layout(p) == s && Shows(p, ParseExpiry(s).value)
  {
    var date := ParseDate(s).value;
    var day, month, year := ParseDateCut(s);
    var s1 := ScanLiteral(date.rest, ", ").value;
    ScanLiteralCut(date.rest, ", ");
    var clock := ParseClock(s1).value;
    var hour, minute, second, half := ParseClockCut(s1);
    var p := Pieces(day, month, year, hour, minute, second, half);
    var c := clock.value;
    var dt := ParseExpiry(s).value;
    assert dt.hour == To24(c.hour12, c.pm);
    ClockRoundTrip(dt.hour, c.hour12, c.pm);
    assert half + clock.rest == half;
    assert Shows(p, dt);
  }

  lemma {:induction false} DigitRunOf(d: string, rest: string, max: nat)
    requires |d| <= max && forall i :: 0 <= i < |d| ==> IsDigit(d[i])
    requires |d| == max || rest == [] || !IsDigit(rest[0])
    ensures DigitRun(d + rest, max) == |d|
    decreases |d|
  {
    if |d| > 0 {
      assert (d + rest)[1..] == d[1..] + rest;
      DigitRunOf(d[1..], rest, max - 1);
    } else {
      assert d + rest == rest;
    }
  }

  /** A digit string ended by a non-digit (or at the field's width) is read
      whole. */
  lemma ScanDigits(d: string, rest: string, max: nat)
    requires Digits(d, max)
    requires |d| == max || rest == [] || !IsDigit(rest[0])
    ensures ScanNumber(d + rest, max) == Some(Scan(DigitsValue(d), rest))
  {
    DigitRunOf(d, rest, max);
    assert (d + rest)[..|d|] == d && (d + rest)[|d|..] == rest;
  }

  lemma ScanMeridiemOf(half: string, pm: bool, rest: string)
    requires IsMeridiem(half, pm)
    ensures ScanMeridiem(half + rest) == Some(Scan(pm, rest))
  {
    assert (half + rest)[2..] == rest;
  }

  /** A numeric field and the literal that follows it in the layout. */
  lemma ScanField(d: string, lit: string, rest: string, max: nat)
    requires Digits(d, max) && |lit| >= 1 && !IsDigit(lit[0])
    ensures ScanNumber(d + (lit + rest), max) == Some(Scan(DigitsValue(d), lit + rest))
    ensures ScanLiteral(lit + rest, lit) == Some(rest)
  {
    ScanDigits(d, lit + rest, max);
    ScanLiteralPrefix(lit, rest);
  }

  lemma ParseDateOf(day: string, month: string, year: string, rest: string)
    requires Digits(day, 2) && Digits(month, 2) && Digits(year, 4)
    requires rest == [] || !IsDigit(rest[0])
    ensures ParseDate(day + ("/" + (month + ("/" + (year + rest))))) ==
      Some(Scan(DateFields(DigitsValue(day), DigitsValue(month), DigitsValue(year)), rest))
  {
    var o := month + ("/" + (year + rest));
    ScanField(day, "/", o, 2);
    ScanField(month, "/", year + rest, 2);
    ScanDigits(year, rest, 4);
    ParseDateSteps(day + ("/" + o), Scan(DigitsValue(day), "/" + o), o,
      Scan(DigitsValue(month), "/" + (year + rest)), year + rest, Scan(DigitsValue(year), rest));
  }

  /** The date parse, step by step: when every scan succeeds in turn, the
      parse yields the values read and the text after the year. */
  lemma ParseDateSteps(s: string, d: Scan<nat>, s1: string, m: Scan<nat>, s2: string, y: Scan<nat>)
    requires ScanNumber(s, 2) == Some(d) && ScanLiteral(d.rest, "/") == Some(s1)
    requires ScanNumber(s1, 2) == Some(m) && ScanLiteral(m.rest, "/") == Some(s2)
    requires ScanNumber(s2, 4) == Some(y)
    ensures ParseDate(s) == Some(Scan(DateFields(d.value, m.value, y.value), y.rest))
  {
  }

  /** The clock parse, step by step: when every scan succeeds in turn, the
      parse yields the values read and the text after the marker. */
  lemma ParseClockSteps(s: string, h: Scan<nat>, s1: string, m: Scan<nat>, s2: string, c: Scan<nat>, s3: string, half: Scan<bool>)
    requires ScanNumber(s, 2) == Some(h) && ScanLiteral(h.rest, ":") == Some(s1)
    requires ScanNumber(s1, 2) == Some(m) && ScanLiteral(m.rest, ":") == Some(s2)
    requires ScanNumber(s2, 2) == Some(c) && ScanLiteral(c.rest, " ") == Some(s3)
    requires ScanMeridiem(s3) == Some(half)
    ensures ParseClock(s) == Some(Scan(ClockFields(h.value, m.value, c.value, half.value), half.rest))
  {
  }

  /** The tail "ss AM" of the clock: the second, the space and the marker. */
  lemma ClockTail(second: string, half: string, pm: bool)
    requires Digits(second, 2) && IsMeridiem(half, pm)
    ensures ScanNumber(second + (" " + half), 2) == Some(Scan(DigitsValue(second), " " + half))
    ensures ScanLiteral(" " + half, " ") == Some(half)
    ensures ScanMeridiem(half) == Some(Scan(pm, ""))
  {
    ScanField(second, " ", half, 2);
    assert half + "" == half;
    ScanMeridiemOf(half, pm, "");
  }

  lemma ParseClockOf(hour: string, minute: string, second: string, half: string, pm: bool)
    requires Digits(hour, 2) && Digits(minute, 2) && Digits(second, 2) && IsMeridiem(half, pm)
    ensures ParseClock(hour + (":" + (minute + (":" + (second + (" " + half)))))) ==
      Some(Scan(ClockFields(DigitsValue(hour), DigitsValue(minute), DigitsValue(second), pm), ""))
  {
    var t2 := second + (" " + half);
    var t0 := minute + (":" + t2);
    ScanField(hour, ":", t0, 2);
    ScanField(minute, ":", t2, 2);
    ClockTail(second, half, pm);
    ParseClockSteps(hour + (":" + t0), Scan(DigitsValue(hour), ":" + t0), t0, Scan(DigitsValue(minute), ":" + t2), t2,
      Scan(DigitsValue(second), " " + half), half, Scan(pm, ""));
  }

  /** Conversely, any text in the layout whose pieces spell out a valid
      date-time parses to it; unpadded fields are read too. */
  lemma LayoutParses(p: Pieces, dt: DateTime)
    requires Valid(dt) && Shows(p, dt)
    ensures ParseExpiry(Layout(p)) == Some(dt)
  {
    var clock := p.hour + (":" + (p.minute + (":" + (p.second + (" " + p.half)))));
    ParseDateOf(p.day, p.month, p.year, ", " + clock);
    ScanLiteralPrefix(", ", clock);
    ParseClockOf(p.hour, p.minute, p.second, p.half, dt.hour >= 12);
    ClockRoundTrip(dt.hour, To12(dt.hour), dt.hour >= 12);
  }

  /** The parse succeeds with a date-time exactly when the date-time is valid
      and the text is that date-time written in the layout. */
  lemma ParseExpiryIff(s: string, dt: DateTime)
    ensures ParseExpiry(s) == Some(dt) <==> Valid(dt) && exists p :: Layout(p) == s && Shows(p, dt)
  {
    if ParseExpiry(s) == Some(dt) {
      ParsedTextHasLayout(s);
    }
    if Valid(dt) && exists p :: Layout(p) == s && Shows(p, dt) {
      var p :| Layout(p) == s && Shows(p, dt);
      LayoutParses(p, dt);
    }
  }

  /** The UTC instant, in seconds since the epoch, of a Kolkata wall time.
      The offset is fixed, so the conversion keeps the naive order: the
      instant is at or before that of any other Kolkata clock reading exactly
      when the wall time is not after it field by field. */
  function KolkataToUtc(local: DateTime): (u: int)
    requires Valid(local)
    ensures forall other :: Valid(other) && other.second <= 59 ==>
      (u <= ToSeconds(other) - KolkataOffset <==> NotAfter(local, other))
  {
    SecondsOrderAll(local);
    ToSeconds(local) - KolkataOffset
  }

  /** The shift runs the right way: half past five in the morning of
      1 January 1970 in Kolkata is the epoch instant itself. */
  lemma KolkataEpoch()
    ensures KolkataToUtc(DateTime(1970, 1, 1, 5, 30, 0)) == 0
  {
  }

  /** Expiry test of a stored `end_duration` against the UTC clock `now`
      (whole seconds since the epoch): None when the text does not parse;
      otherwise expired exactly when the expiry instant is at or before now,
      which is when the stored wall time is not after the Kolkata wall time
      of now (the boundary instant itself counts as expired). */
  function IsExpired(endDuration: string, now: int): (r: Option<bool>)
    ensures r.None? <==> ParseExpiry(endDuration).None?
    ensures r.Some? ==> (r.value <==> ToSeconds(ParseExpiry(endDuration).value) <= now + KolkataOffset)
    ensures r.Some? ==> forall nowLocal :: Valid(nowLocal) && nowLocal.second <= 59 && ToSeconds(nowLocal) == now + KolkataOffset ==>
      (r.value <==> NotAfter(ParseExpiry(endDuration).value, nowLocal))
  {
    var local :- ParseExpiry(endDuration);
    Some(KolkataToUtc(local) <= now)
  }

  /* The worked cases below take their constants as parameters fixed by a
     requires clause (twelve == 12, one == 1, year == 2099, ...) rather than
     as literals: a literal argument lets the verifier evaluate Pad2, Pad4
     and the parse on its own, digit by digit, which is slow and uneven,
     while a parameter makes it use the lemmas about them. Each of these
     lemmas therefore states a fact about one fixed value. */

  /** Midnight on the 12-hour clock is written "12:00:00 AM". */
  lemma MidnightClock(twelve: nat, zero: nat)
    requires twelve == 12 && zero == 0
    ensures ClockText(twelve, zero, zero, false) == "12:00:00 AM"
  {
    assert Pad2(twelve) == "12" && Pad2(zero) == "00";
  }

  /** The first of January of `year` is written "01/01/" and the padded year. */
  lemma FirstOfJanuary(one: nat, year: nat)
    requires one == 1 && year < 10000
    ensures DateText(one, one, year) == "01/01/" + Pad4(year)
  {
    assert Pad2(one) == "01";
  }

  /** Midnight opening a year, written as the records write it, parses to
      hour 0 of 1 January. */
  lemma NewYearMidnight(year: nat)
    requires year < 10000
    ensures ParseExpiry("01/01/" + Pad4(year) + ", 12:00:00 AM") == Some(DateTime(year, 1, 1, 0, 0, 0))
  {
    var one, twelve, zero: nat := 1, 12, 0;
    MidnightClock(twelve, zero);
    FirstOfJanuary(one, year);
    var date, clock := "01/01/" + Pad4(year), "12:00:00 AM";
    assert date + (", " + clock) == "01/01/" + Pad4(year) + ", 12:00:00 AM";
    ParseText(one, one, year, twelve, zero, zero, false);
  }

  /** An example expiry: the start of 2099 in the records' layout. */
  lemma ExampleExpiry(text: string)
    requires text == "01/01/2099, 12:00:00 AM"
    ensures ParseExpiry(text) == Some(DateTime(2099, 1, 1, 0, 0, 0))
  {
    var year: nat := 2099;
    ExampleText(year);
    NewYearMidnight(year);
  }

  /** The padded year 2099 completes the example text (`year` is fixed to
      2099, as in the worked cases above). */
  lemma ExampleText(year: nat)
    requires year == 2099
    ensures "01/01/" + Pad4(year) + ", 12:00:00 AM" == "01/01/2099, 12:00:00 AM"
  {
    assert Pad4(year) == "2099" by {
      assert year / 100 == 20 && year % 100 == 99;
    }
  }

}
