/** Dates, timestamps and decimals as text, written and read back. */
module Literals {
  import opened Common
  import opened Bytes
  import opened Decimals
  import opened Calendar
  import opened Texts

  const MIN_DATE_DAYS := -2_441_474
  const MAX_DATE_DAYS := 2_145_148_992
  const MIN_TIMESTAMP_MICROS := -62_135_596_800_000_000
  const MAX_TIMESTAMP_MICROS := 253_402_300_799_999_999
  const DAY_MICROS := 86_400_000_000
  const I64_MIN := -0x8000_0000_0000_0000
  const I64_MAX := 0x7FFF_FFFF_FFFF_FFFF

  // ---- dates ---------------------------------------------------------------

  function CivilText(c: Civil): string
    requires c.month >= 0 && c.day >= 0
  {
    PaddedSigned(c.year, 4) + "-" + Padded(c.month, 2) + "-" + Padded(c.day, 2)
  }

  function DateText(days: int): string {
    DaysRoundTrip(days);
    CivilText(CivilFromDays(days))
  }

  function ParseDate(text: string): (r: Result<i32>)
    ensures r.Ok? ==> -719_528 <= r.value <= 2_932_896
  {
    var t := Trim(text);
    if |t| != 10 || t[4] != '-' || t[7] != '-' then Err(InvalidState)
    else ParseFields(t[..4], t[5..7], t[8..])
  }

  function ParseFields(year: string, month: string, day: string): (r: Result<i32>)
    requires |year| == 4
    ensures r.Ok? ==> -719_528 <= r.value <= 2_932_896
  {
    if !AllDigits(year) || !AllDigits(month) || !AllDigits(day) then Err(InvalidState)
    else
      var c := Civil(NumberOf(year), NumberOf(month), NumberOf(day));
      if !(1 <= c.month <= 12) || !(1 <= c.day <= 31) || !ValidDate(c) then Err(InvalidState)
      else
        FourDigits(year);
        var days := ParsedDays(c);
        YearBounds(c);
        if MIN_DATE_DAYS <= days <= MAX_DATE_DAYS then Ok(days) else Err(OutOfRange)
  }

  lemma {:induction false} NumberBound(s: string)
    requires AllDigits(s)
    ensures NumberOf(s) < Pow10(|s|)
  {
    if s != [] {
      NumberBound(s[..|s| - 1]);
    }
  }

  lemma FourDigits(s: string)
    requires AllDigits(s) && |s| == 4
    ensures NumberOf(s) <= 9999
  {
    NumberBound(s);
    SmallPowers();
  }

  lemma SmallPowers()
    ensures Pow10(1) == 10 && Pow10(2) == 100 && Pow10(3) == 1000 && Pow10(4) == 10_000 && Pow10(6) == 1_000_000
  {
    assert Pow10(3) == 10 * Pow10(2);
    assert Pow10(5) == 10 * Pow10(4);
  }

  /** The years a date text can hold are those of a range of day numbers. */
  lemma YearBounds(c: Civil)
    requires ValidDate(c)
    ensures 0 <= c.year <= 9999 <==> -719_528 <= DaysFromCivil(c) <= 2_932_896
  {
    hide Leap, Era, YearStart;
    var y := if c.month <= 2 then c.year - 1 else c.year;
    var mp := if c.month > 2 then c.month - 3 else c.month + 9;
    EraIsFloor(y, 400);
    var era := y / 400;
    LeapPeriodic(y - era * 400, era);
    LeapPeriodic(y - era * 400 + 1, era);
    MonthReads(y - era * 400, mp, c.day);
    YearStartRange(y - era * 400);
  }

  lemma YearStartRange(y: int)
    requires 0 <= y < 400
    ensures 0 <= YearStart(y) <= 145_731 && (y < 399 ==> YearStart(y) <= 145_366) && (y == 399 ==> YearStart(y) == 145_731)
  {
  }

  /** The text of a date of a four-digit year has fixed fields. */
  lemma FixedCivil(c: Civil)
    requires ValidDate(c) && 0 <= c.year <= 9999
    ensures CivilText(c) == FixedDigits(c.year, 4) + "-" + FixedDigits(c.month, 2) + "-" + FixedDigits(c.day, 2)
  {
    SmallPowers();
    PaddedFixed(c.year, 4);
    PaddedFixed(c.month, 2);
    PaddedFixed(c.day, 2);
  }

  lemma DateParses(y: string, m: string, d: string, c: Civil)
    requires AllDigits(y) && AllDigits(m) && AllDigits(d) && |y| == 4 && |m| == |d| == 2
    requires c == Civil(NumberOf(y), NumberOf(m), NumberOf(d)) && ValidDate(c)
    ensures ParseDate(y + "-" + m + "-" + d) == Ok(DaysFromCivil(c))
  {
    hide NumberOf, ParseFields, Trim, DaysFromCivil;
    var t := y + "-" + m + "-" + d;
    assert t[..4] == y && t[5..7] == m && t[8..] == d;
    assert t[9] == d[1];
    TrimKeeps(t);
    FieldsParse(y, m, d, c);
  }

  lemma FieldsParse(y: string, m: string, d: string, c: Civil)
    requires AllDigits(y) && AllDigits(m) && AllDigits(d) && |y| == 4
    requires c == Civil(NumberOf(y), NumberOf(m), NumberOf(d)) && ValidDate(c)
    ensures ParseFields(y, m, d) == Ok(DaysFromCivil(c))
  {
    hide NumberOf, DaysFromCivil, Leap, ParsedDays;
    FourDigits(y);
    YearBounds(c);
  }

  /** Every date is read back from its text if its year has four digits, and no other is. */
  lemma DateTextReads(days: i32)
    ensures ParseDate(DateText(days)) == if -719_528 <= days <= 2_932_896 then Ok(days) else Err(InvalidState)
  {
    hide CivilFromDays, DaysFromCivil, ParseDate, CivilText;
    DaysRoundTrip(days);
    var c := CivilFromDays(days);
    YearBounds(c);
    if 0 <= c.year <= 9999 {
      FixedCivil(c);
      SmallPowers();
      SmallReads(c.year, 4);
      SmallReads(c.month, 2);
      SmallReads(c.day, 2);
      DateParses(FixedDigits(c.year, 4), FixedDigits(c.month, 2), FixedDigits(c.day, 2), c);
    } else {
      OddYear(c);
    }
  }

  /** A text is read as a date exactly when, trimmed, it is that date's text and the year has
      four digits. */
  lemma DateParsedIff(text: string, days: i32)
    ensures ParseDate(text) == Ok(days) <==> -719_528 <= days <= 2_932_896 && Trim(text) == DateText(days)
  {
    hide ParseDate, DateText, Trim;
    DateTextReads(days);
    if ParseDate(text) == Ok(days) {
      ParsedIsText(text);
    }
    if -719_528 <= days <= 2_932_896 && Trim(text) == DateText(days) {
      DateTextTrimmed(days);
      SameTrim(text, DateText(days));
    }
  }

  lemma SameTrim(text: string, other: string)
    requires Trim(text) == Trim(other)
    ensures ParseDate(text) == ParseDate(other)
  {
  }

  lemma DateTextTrimmed(days: int)
    requires -719_528 <= days <= 2_932_896
    ensures Trim(DateText(days)) == DateText(days)
  {
    hide CivilFromDays, DaysFromCivil, CivilText, FixedDigits, Trim;
    DaysRoundTrip(days);
    var c := CivilFromDays(days);
    YearBounds(c);
    FixedCivil(c);
    var t := CivilText(c);
    assert t[0] == FixedDigits(c.year, 4)[0] && t[|t| - 1] == FixedDigits(c.day, 2)[1];
    TrimKeeps(t);
  }

  lemma FieldsAreText(y: string, m: string, d: string)
    requires |y| == 4 && |m| == |d| == 2 && ParseFields(y, m, d).Ok?
    ensures DateText(ParseFields(y, m, d).value) == y + "-" + m + "-" + d
  {
    hide NumberOf, DaysFromCivil, CivilFromDays, ParsedDays, Leap, CivilText;
    var c := Civil(NumberOf(y), NumberOf(m), NumberOf(d));
    FourDigits(y);
    CivilRoundTrip(c);
    FixedCivil(c);
    FixedBack(y);
    FixedBack(m);
    FixedBack(d);
  }

  lemma ParsedIsText(text: string)
    requires ParseDate(text).Ok?
    ensures Trim(text) == DateText(ParseDate(text).value)
  {
    hide Trim, ParseFields, DateText;
    var t := Trim(text);
    FieldsAreText(t[..4], t[5..7], t[8..]);
    assert t == t[..4] + "-" + t[5..7] + "-" + t[8..];
  }

  lemma OddYear(c: Civil)
    requires ValidDate(c) && !(0 <= c.year <= 9999)
    ensures ParseDate(CivilText(c)) == Err(InvalidState)
  {
    hide NumberOf, Leap, NatText, Trim, ParsedDays;
    var t := CivilText(c);
    var m, d := Padded(c.month, 2), Padded(c.day, 2);
    SmallPowers();
    PaddedFixed(c.month, 2);
    PaddedFixed(c.day, 2);
    assert t[|t| - 1] == d[1];
    if c.year < 0 {
      assert t[0] == '-' && t[..4][0] == '-';
    } else {
      PaddedWide(c.year, 4);
    }
    TrimKeeps(t);
  }

  // ---- timestamps ----------------------------------------------------------

  function ClockText(time: nat): string
    requires time < DAY_MICROS
  {
    var fraction := time % 1_000_000;
    var clock := Padded(time / 3_600_000_000, 2) + ":" + Padded(time / 60_000_000 % 60, 2) + ":" + Padded(time / 1_000_000 % 60, 2);
    if fraction == 0 then clock else clock + "." + TrimZeros(Padded(fraction, 6))
  }

  function TrimZeros(s: string): (t: string)
    ensures |t| <= |s| && t == s[..|t|] && forall i :: |t| <= i < |s| ==> s[i] == '0'
  {
    if s != [] && s[|s| - 1] == '0' then TrimZeros(s[..|s| - 1]) else s
  }

  function TimestampText(micros: i64): string {
    var days := micros / DAY_MICROS;
    DateText(if -0x8000_0000 <= days < 0x8000_0000 then days else 0) + " " + ClockText(micros % DAY_MICROS)
  }

  function ParseTimestamp(text: string): (r: Result<i64>)
    ensures r.Ok? ==> MIN_TIMESTAMP_MICROS <= r.value <= MAX_TIMESTAMP_MICROS
  {
    var t := Trim(text);
    var i := IndexOf(t, {'T', ' '});
    var datePart, timePart := t[..i], if i < |t| then t[i + 1..] else "00:00:00";
    if timePart == "" then Err(InvalidState)
    else
      var days :- ParseDate(datePart);
      var time :- ParseClock(timePart);
      var micros: i64 := days * DAY_MICROS + time;
      if MIN_TIMESTAMP_MICROS <= micros <= MAX_TIMESTAMP_MICROS then Ok(micros) else Err(OutOfRange)
  }

  function ParseClock(text: string): (r: Result<nat>)
    ensures r.Ok? ==> r.value < 2 * DAY_MICROS
  {
    var i := IndexOf(text, {'.'});
    var fields, fraction := SplitAt(text[..i], ':'), if i < |text| then text[i + 1..] else "";
    if |fields| < 2 || |fields| > 3 then Err(InvalidState)
    else
      var hour, minute := ParseInteger(fields[0], I64_MIN, I64_MAX), ParseInteger(fields[1], I64_MIN, I64_MAX);
      var second := if |fields| == 3 then ParseInteger(fields[2], I64_MIN, I64_MAX) else Some(0);
      if hour.None? || minute.None? || second.None? then Err(InvalidState)
      else if !(0 <= hour.value <= 24) || !(0 <= minute.value <= 60) || !(0 <= second.value <= 60) then Err(InvalidState)
      else
        var scaled :- ParseFraction(fraction);
        Ok(hour.value * 3_600_000_000 + minute.value * 60_000_000 + second.value * 1_000_000 + scaled)
  }

  function ParseFraction(fraction: string): (r: Result<nat>)
    ensures r.Ok? ==> r.value < 1_000_000
  {
    if fraction == "" then Ok(0)
    else if |fraction| > 6 || !AllDigits(fraction) then Err(InvalidState)
    else
      var six := (fraction + "000000")[..6];
      NumberBound(six);
      SmallPowers();
      Ok(NumberOf(six))
  }

  /** Trailing zeros dropped from six fraction digits are supplied again. */
  lemma FractionReads(fraction: nat)
    requires fraction < 1_000_000
    ensures ParseFraction(TrimZeros(Padded(fraction, 6))) == Ok(fraction)
    ensures fraction > 0 ==> TrimZeros(Padded(fraction, 6)) != ""
  {
    hide NumberOf, FixedDigits, Padded, TrimZeros;
    SmallPowers();
    PaddedFixed(fraction, 6);
    SmallReads(fraction, 6);
    var s := FixedDigits(fraction, 6);
    var t := TrimZeros(s);
    assert (t + "000000")[..6] == s;
    if t == "" {
      assert s == "000000";
      ZeroText();
    }
  }

  lemma EmptyFraction()
    ensures ParseFraction("") == Ok(0)
  {
  }

  lemma ZeroText()
    ensures NumberOf("000000") == 0
  {
    assert NumberOf("0") == 0 by { assert "0"[..0] == ""; }
    assert "00"[..1] == "0" && "000"[..2] == "00" && "0000"[..3] == "000" && "00000"[..4] == "0000" && "000000"[..5] == "00000";
  }

  predicate Reads(text: string, n: int) {
    AllDigits(text) && |text| == 2 && ParseInteger(text, I64_MIN, I64_MAX) == Some(n)
  }

  lemma ClockParses(h: string, m: string, s: string, f: string, hour: nat, minute: nat, second: nat, fraction: nat)
    requires Reads(h, hour) && Reads(m, minute) && Reads(s, second) && hour <= 24 && minute <= 60 && second <= 60
    requires ParseFraction(f) == Ok(fraction)
    ensures ParseClock(h + ":" + m + ":" + s + "." + f) == Ok(hour * 3_600_000_000 + minute * 60_000_000 + second * 1_000_000 + fraction)
    ensures f == "" ==> ParseClock(h + ":" + m + ":" + s) == Ok(hour * 3_600_000_000 + minute * 60_000_000 + second * 1_000_000 + fraction)
  {
    hide ParseFraction, SplitAt, ParseInteger;
    var clock := h + ":" + m + ":" + s;
    ClockFields(h, m, s);
    NoMark(clock, {'.'});
    FirstMark(clock, '.', f, {'.'});
    assert (clock + "." + f)[..|clock|] == clock && (clock + "." + f)[|clock| + 1..] == f;
    assert clock[..|clock|] == clock;
  }

  lemma TimeParts(time: nat)
    requires time < DAY_MICROS
    ensures time / 3_600_000_000 < 24
    ensures time == time / 3_600_000_000 * 3_600_000_000 + time / 60_000_000 % 60 * 60_000_000 + time / 1_000_000 % 60 * 1_000_000 + time % 1_000_000
  {
  }

  lemma ClockReads(time: nat)
    requires time < DAY_MICROS
    ensures ParseClock(ClockText(time)) == Ok(time)
    ensures ClockText(time) != "" && !IsSpace(ClockText(time)[|ClockText(time)| - 1])
  {
    hide NumberOf, Padded, TrimZeros, ParseFraction, ParseClock, Reads;
    var fraction, hour, minute, second := time % 1_000_000, time / 3_600_000_000, time / 60_000_000 % 60, time / 1_000_000 % 60;
    TimeParts(time);
    TwoDigitsRead(hour);
    TwoDigitsRead(minute);
    TwoDigitsRead(second);
    FractionReads(fraction);
    EmptyFraction();
    var f := if fraction == 0 then "" else TrimZeros(Padded(fraction, 6));
    ClockParses(Padded(hour, 2), Padded(minute, 2), Padded(second, 2), f, hour, minute, second, fraction);
  }

  lemma TwoDigitsRead(n: nat)
    requires n < 60
    ensures Reads(Padded(n, 2), n)
  {
    hide NumberOf, FixedDigits, Padded;
    SmallPowers();
    PaddedFixed(n, 2);
    SmallReads(n, 2);
  }

  lemma ClockFields(h: string, m: string, s: string)
    requires AllDigits(h) && AllDigits(m) && AllDigits(s)
    ensures SplitAt(h + ":" + m + ":" + s, ':') == [h, m, s]
  {
    hide SplitAt;
    assert h + ":" + m + ":" + s == h + ":" + (m + ":" + s);
    SplitFirst(h, ':', m + ":" + s);
    SplitFirst(m, ':', s);
    SplitFirst(s, ':', "");
  }

  lemma NoMark(s: string, marks: set<char>)
    requires forall i :: 0 <= i < |s| ==> s[i] !in marks
    ensures IndexOf(s, marks) == |s|
  {
  }

  /** Every representable timestamp is read back from its text. */
  lemma TimestampTextReads(micros: i64)
    requires MIN_TIMESTAMP_MICROS <= micros <= MAX_TIMESTAMP_MICROS
    ensures ParseTimestamp(TimestampText(micros)) == Ok(micros)
  {
    hide DateText, ParseDate, ClockText, ParseClock, Trim;
    var days, time := micros / DAY_MICROS, micros % DAY_MICROS;
    DateTextReads(days);
    ClockReads(time);
    DateShape(days);
    var d, c := DateText(days), ClockText(time);
    var t := d + " " + c;
    assert t[|t| - 1] == c[|c| - 1];
    TrimKeeps(t);
    FirstMark(d, ' ', c, {'T', ' '});
    assert t[..|d|] == d && t[|d| + 1..] == c;
  }

  lemma DateShape(days: int)
    requires -719_528 <= days <= 2_932_896
    ensures var d := DateText(days);
            d != "" && !IsSpace(d[0]) && forall i :: 0 <= i < |d| ==> d[i] !in {'T', ' '}
  {
    hide CivilFromDays, DaysFromCivil, CivilText, FixedDigits;
    DaysRoundTrip(days);
    var c := CivilFromDays(days);
    YearBounds(c);
    FixedCivil(c);
  }
}
