/**
 * The text of UTC timestamps: `timestamp` (src/adapters/approval.rs:28-87) reads it, `iso8601`
 * (src/adapters/report_store.rs:222-228) writes it.
 */
module Timestamps {
  import opened Text
  import opened Calendar

  /** The last second of the year 9999. */
  const LAST_SECOND := 253402300799
  const I64_MAX := 9223372036854775807

  datatype Instant = Instant(date: Civil, hour: int, minute: int, second: int)

  predicate IsInstant(t: Instant) {
    && IsDate(t.date) && 1970 <= t.date.year <= 9999
    && 0 <= t.hour <= 23 && 0 <= t.minute <= 59 && 0 <= t.second <= 59
  }

  /** Seconds since the epoch, counting days by years and months. */
  function Seconds(t: Instant): int
    requires IsInstant(t)
  {
    DayNumber(t.date) * 86400 + t.hour * 3600 + t.minute * 60 + t.second
  }

  // ----- zero-padded decimals -----

  function Pow10(w: nat): (p: nat)
    ensures p >= 1
  {
    if w == 0 then 1 else 10 * Pow10(w - 1)
  }

  function Zeros(k: int): (s: string)
    ensures AllDigits(s) && |s| == if k > 0 then k else 0
  {
    if k <= 0 then "" else Zeros(k - 1) + "0"
  }

  /** `format!("{n:0w}")`. */
  function Pad(n: nat, w: nat): (s: string)
    ensures AllDigits(s) && |s| >= w
  {
    Zeros(w - |Dec(n)|) + Dec(n)
  }

  lemma {:induction false} DecLength(n: nat, w: nat)
    requires w >= 1
    ensures |Dec(n)| <= w <==> n < Pow10(w)
  {
    if n >= 10 && w > 1 { DecLength(n / 10, w - 1); }
    if w == 1 { assert Pow10(1) == 10 * Pow10(0); }
  }

  lemma {:induction false} PadStep(n: nat, w: nat)
    requires w >= 1
    ensures Pad(n, w + 1) == Pad(n / 10, w) + [DigitChar(n % 10)]
  {
    if n < 10 {
      assert Zeros(w) == Zeros(w - 1) + "0";
    }
  }

  lemma DigitsSnoc(s: string, c: nat)
    requires AllDigits(s) && c < 10
    ensures AllDigits(s + [DigitChar(c)]) && DigitsValue(s + [DigitChar(c)]) == DigitsValue(s) * 10 + c
  {
    var t := s + [DigitChar(c)];
    assert t[..|t| - 1] == s && t[|t| - 1] == DigitChar(c);
  }

  lemma PowStep(w: nat)
    ensures Pow10(w + 1) == 10 * Pow10(w)
  {
  }

  lemma PadOne(n: nat)
    requires n < Pow10(1)
    ensures |Pad(n, 1)| == 1 && DigitsValue(Pad(n, 1)) == n
  {
    PowStep(0);
    DecValue(n);
    assert Pad(n, 1) == Dec(n);
  }

  /** A field of `w` characters reads as exactly the numbers below 10 to the power `w`. */
  lemma {:induction false} PadValue(n: nat, w: nat)
    requires w >= 1 && n < Pow10(w)
    ensures |Pad(n, w)| == w && DigitsValue(Pad(n, w)) == n
  {
    hide Pad, DigitsValue, Dec;
    if w == 1 {
      PadOne(n);
    } else {
      PowStep(w - 1);
      PadStep(n, w - 1);
      PadValue(n / 10, w - 1);
      DigitsSnoc(Pad(n / 10, w - 1), n % 10);
    }
  }

  lemma PadSnoc(v: nat, c: nat, w: nat)
    requires w >= 1 && c < 10
    ensures Pad(v * 10 + c, w + 1) == Pad(v, w) + [DigitChar(c)]
    ensures v < Pow10(w) ==> v * 10 + c < Pow10(w + 1)
  {
    PadStep(v * 10 + c, w);
    PowStep(w);
    hide Pad, Pow10;
    assert (v * 10 + c) / 10 == v && (v * 10 + c) % 10 == c;
  }

  lemma PadDigit(c: nat)
    requires c < 10
    ensures Pad(c, 1) == [DigitChar(c)]
  {
    assert Zeros(0) == "";
  }

  lemma OneDigit(c: nat)
    requires c < 10
    ensures DigitsValue([DigitChar(c)]) == c < Pow10(1) && Pad(c, 1) == [DigitChar(c)]
  {
    hide Pad;
    PadDigit(c);
    PowStep(0);
    DigitsSnoc("", c);
    assert DigitsValue("") == 0;
    hide DigitsValue;
    assert "" + [DigitChar(c)] == [DigitChar(c)];
  }

  lemma {:induction false} PadOfDigits(s: string)
    requires |s| >= 1 && AllDigits(s)
    ensures DigitsValue(s) < Pow10(|s|) && Pad(DigitsValue(s), |s|) == s
  {
    hide DigitsValue, Pad, Pow10;
    var front, c := s[..|s| - 1], LastDigit(s);
    assert s == front + [DigitChar(c)];
    DigitsSnoc(front, c);
    if |s| == 1 {
      OneDigit(c);
      assert s == [DigitChar(c)] == "" + [DigitChar(c)] && front == "";
    } else {
      PadOfDigits(front);
      PadSnoc(DigitsValue(front), c, |front|);
    }
  }

  function LastDigit(s: string): (c: nat)
    requires |s| >= 1 && AllDigits(s)
    ensures c < 10 && DigitChar(c) == s[|s| - 1]
  {
    assert IsDigit(s[|s| - 1]);
    s[|s| - 1] as int - '0' as int
  }

  // ----- writing -----

  function Render(t: Instant): string
    requires t.date.year >= 0 && t.date.month >= 0 && t.date.day >= 0
    requires t.hour >= 0 && t.minute >= 0 && t.second >= 0
  {
    Pad(t.date.year, 4) + "-" + Pad(t.date.month, 2) + "-" + Pad(t.date.day, 2) + "T" +
    Pad(t.hour, 2) + ":" + Pad(t.minute, 2) + ":" + Pad(t.second, 2) + "Z"
  }

  /** The fields `iso8601` computes; times before the epoch are clamped to it by its caller's clock. */
  function InstantAt(secs: nat): Instant {
    var days := secs / 86400;
    var rem := secs % 86400;
    Instant(CivilFromDays(days), rem / 3600, rem % 3600 / 60, rem % 60)
  }

  function Iso8601(secs: nat): string {
    CivilOfDays(secs / 86400);
    Render(InstantAt(secs))
  }

  // ----- reading -----

  predicate IsAscii(s: string) { forall i :: 0 <= i < |s| ==> s[i] as int < 128 }

  /** `str::parse::<i64>()`: an optional sign, then digits, no overflow. */
  function ParseI64(s: string): Option<int> {
    if |s| > 1 && s[0] == '-' then
      if AllDigits(s[1..]) && DigitsValue(s[1..]) <= I64_MAX + 1 then Some(0 - DigitsValue(s[1..])) else None
    else
      var digits := if |s| > 1 && s[0] == '+' then s[1..] else s;
      if |digits| > 0 && AllDigits(digits) && DigitsValue(digits) <= I64_MAX then Some(DigitsValue(digits)) else None
  }

  predicate HasShape(text: string) {
    && IsAscii(text) && |text| == 20
    && text[4] == '-' && text[7] == '-' && text[10] == 'T' && text[13] == ':' && text[16] == ':' && text[19] == 'Z'
  }

  /** `timestamp`: zero for anything it does not accept. `value` is the JSON string, if it is one. */
  function Timestamp(value: Option<string>): int {
    if value.None? || !HasShape(value.value) then 0 else
    var text := value.value;
    match (ParseI64(text[0..4]), ParseI64(text[5..7]), ParseI64(text[8..10]),
           ParseI64(text[11..13]), ParseI64(text[14..16]), ParseI64(text[17..19]))
    case (Some(y), Some(m), Some(d), Some(h), Some(min), Some(sec)) =>
      if || !(forall i :: 0 <= i < |text| ==>
                i == 4 || i == 7 || i == 10 || i == 13 || i == 16 || i == 19 || IsDigit(text[i]))
         || !(1970 <= y <= 9999) || !(1 <= m <= 12) || d < 1 || d > DaysInMonth(y, m)
         || h > 23 || min > 59 || sec > 59
      then 0
      else EpochDays(Civil(y, m, d)) * 86400 + h * 3600 + min * 60 + sec
    case _ => 0
  }

  // ----- the two agree -----

  lemma SmallPowers()
    ensures Pow10(1) == 10 && Pow10(2) == 100 && Pow10(3) == 1000 && Pow10(4) == 10000
  {
    assert Pow10(0) == 1;
    assert Pow10(1) == 10 * Pow10(0);
    assert Pow10(3) == 10 * Pow10(2);
  }

  lemma SmallValue(s: string)
    requires 1 <= |s| <= 4 && AllDigits(s)
    ensures DigitsValue(s) < 10000
  {
    hide DigitsValue, Pow10, Pad;
    PadOfDigits(s);
    SmallPowers();
  }

  lemma ReadField(s: string)
    requires 1 <= |s| <= 4 && AllDigits(s)
    ensures ParseI64(s) == Some(DigitsValue(s))
  {
    SmallValue(s);
    assert IsDigit(s[0]);
    hide DigitsValue, AllDigits;
  }

  /** The six fields of a text of the right shape, read as numbers. */
  predicate Fields(text: string, t: Instant) {
    && HasShape(text)
    && AllDigits(text[0..4]) && AllDigits(text[5..7]) && AllDigits(text[8..10])
    && AllDigits(text[11..13]) && AllDigits(text[14..16]) && AllDigits(text[17..19])
    && t == Instant(Civil(DigitsValue(text[0..4]), DigitsValue(text[5..7]), DigitsValue(text[8..10])),
                    DigitsValue(text[11..13]), DigitsValue(text[14..16]), DigitsValue(text[17..19]))
  }

  lemma SixFields(y: string, m: string, d: string, h: string, min: string, sec: string, s: string)
    requires |y| == 4 && |m| == |d| == |h| == |min| == |sec| == 2
    requires s == y + "-" + m + "-" + d + "T" + h + ":" + min + ":" + sec + "Z"
    ensures |s| == 20 && s[4] == '-' && s[7] == '-' && s[10] == 'T' && s[13] == ':' && s[16] == ':' && s[19] == 'Z'
    ensures s[0..4] == y && s[5..7] == m && s[8..10] == d && s[11..13] == h && s[14..16] == min && s[17..19] == sec
  {
    var date, time := y + "-" + m + "-" + d, h + ":" + min + ":" + sec;
    assert s == date + ("T" + time + "Z");
    assert |date| == 10 && |time| == 8;
    assert s[..10] == date && s[11..19] == time;
    assert date[0..4] == y && date[5..7] == m && date[8..10] == d;
    assert time[0..2] == h && time[3..5] == min && time[6..8] == sec;
    assert s[0..4] == date[0..4] && s[5..7] == date[5..7] && s[8..10] == date[8..10];
    assert s[11..13] == time[0..2] && s[14..16] == time[3..5] && s[17..19] == time[6..8];
  }

  lemma Assemble(s: string)
    requires |s| == 20 && s[4] == '-' && s[7] == '-' && s[10] == 'T' && s[13] == ':' && s[16] == ':' && s[19] == 'Z'
    ensures s == s[0..4] + "-" + s[5..7] + "-" + s[8..10] + "T" + s[11..13] + ":" + s[14..16] + ":" + s[17..19] + "Z"
  {
    assert s[0..4] + "-" == s[..5];
    assert s[..5] + s[5..7] == s[..7];
    assert s[..7] + "-" == s[..8];
    assert s[..8] + s[8..10] == s[..10];
    assert s[..10] + "T" == s[..11];
    assert s[..11] + s[11..13] == s[..13];
    assert s[..13] + ":" == s[..14];
    assert s[..14] + s[14..16] == s[..16];
    assert s[..16] + ":" == s[..17];
    assert s[..17] + s[17..19] == s[..19];
    assert s[..19] + "Z" == s;
  }

  lemma RenderFields(t: Instant)
    requires IsInstant(t)
    ensures Fields(Render(t), t)
  {
    SmallPowers();
    PadValue(t.date.year, 4);
    PadValue(t.date.month, 2);
    PadValue(t.date.day, 2);
    PadValue(t.hour, 2);
    PadValue(t.minute, 2);
    PadValue(t.second, 2);
    var s := Render(t);
    SixFields(Pad(t.date.year, 4), Pad(t.date.month, 2), Pad(t.date.day, 2),
              Pad(t.hour, 2), Pad(t.minute, 2), Pad(t.second, 2), s);
    hide Pad, DigitsValue, Pow10, IsDate, Render;
    Cover(s);
  }

  lemma Cover(s: string)
    requires |s| == 20 && s[4] == '-' && s[7] == '-' && s[10] == 'T' && s[13] == ':' && s[16] == ':' && s[19] == 'Z'
    requires AllDigits(s[0..4]) && AllDigits(s[5..7]) && AllDigits(s[8..10])
    requires AllDigits(s[11..13]) && AllDigits(s[14..16]) && AllDigits(s[17..19])
    ensures IsAscii(s)
    ensures forall i :: 0 <= i < |s| ==> i == 4 || i == 7 || i == 10 || i == 13 || i == 16 || i == 19 || IsDigit(s[i])
  {
    forall i | 0 <= i < |s|
      ensures s[i] as int < 128
      ensures i == 4 || i == 7 || i == 10 || i == 13 || i == 16 || i == 19 || IsDigit(s[i])
    {
      if i < 4 { assert IsDigit(s[0..4][i]); }
      else if 5 <= i < 7 { assert IsDigit(s[5..7][i - 5]); }
      else if 8 <= i < 10 { assert IsDigit(s[8..10][i - 8]); }
      else if 11 <= i < 13 { assert IsDigit(s[11..13][i - 11]); }
      else if 14 <= i < 16 { assert IsDigit(s[14..16][i - 14]); }
      else if 17 <= i < 19 { assert IsDigit(s[17..19][i - 17]); }
    }
  }

  lemma FieldsRender(text: string, t: Instant)
    requires Fields(text, t)
    ensures text == Render(t)
  {
    PadOfDigits(text[0..4]);
    PadOfDigits(text[5..7]);
    PadOfDigits(text[8..10]);
    PadOfDigits(text[11..13]);
    PadOfDigits(text[14..16]);
    PadOfDigits(text[17..19]);
    hide Pad, DigitsValue, Pow10, AllDigits, IsAscii;
    Assemble(text);
  }

  /** `timestamp` in terms of the fields it reads. */
  lemma TimestampOfFields(text: string, t: Instant)
    requires Fields(text, t)
    ensures Timestamp(Some(text)) == if IsInstant(t) then Seconds(t) else 0
  {
    ReadField(text[0..4]);
    ReadField(text[5..7]);
    ReadField(text[8..10]);
    ReadField(text[11..13]);
    ReadField(text[14..16]);
    ReadField(text[17..19]);
    Cover(text);
    if IsInstant(t) { EpochDaysCounts(t.date); }
    hide ParseI64, EpochDays, DayNumber, DigitsValue;
  }

  lemma NoFields(text: string)
    requires HasShape(text)
    requires !(AllDigits(text[0..4]) && AllDigits(text[5..7]) && AllDigits(text[8..10])
               && AllDigits(text[11..13]) && AllDigits(text[14..16]) && AllDigits(text[17..19]))
    ensures Timestamp(Some(text)) == 0
  {
    hide ParseI64, EpochDays, DaysInMonth;
  }

  lemma ReadsRendered(t: Instant)
    requires IsInstant(t)
    ensures Timestamp(Some(Render(t))) == Seconds(t)
  {
    RenderFields(t);
    hide Timestamp, Seconds, Fields, Render;
    TimestampOfFields(Render(t), t);
  }

  lemma ReadsNothingElse(text: string)
    requires forall u :: IsInstant(u) ==> text != Render(u)
    ensures Timestamp(Some(text)) == 0
  {
    assert !HasShape(text) ==> Timestamp(Some(text)) == 0;
    assert HasShape(text) ==> |text| == 20;
    if HasShape(text) {
      hide Timestamp, HasShape, AllDigits, DigitsValue, Render;
      if && AllDigits(text[0..4]) && AllDigits(text[5..7]) && AllDigits(text[8..10])
         && AllDigits(text[11..13]) && AllDigits(text[14..16]) && AllDigits(text[17..19]) {
        var u := Instant(Civil(DigitsValue(text[0..4]), DigitsValue(text[5..7]), DigitsValue(text[8..10])),
                         DigitsValue(text[11..13]), DigitsValue(text[14..16]), DigitsValue(text[17..19]));
        FieldsRender(text, u);
        TimestampOfFields(text, u);
      } else {
        NoFields(text);
      }
    }
  }

  /** A calendar instant of the years 1970 to 9999 reads as its second; every other value reads as zero. */
  lemma TimestampIsExact(text: string, t: Instant)
    ensures IsInstant(t) && text == Render(t) ==> Timestamp(Some(text)) == Seconds(t)
    ensures (forall u :: IsInstant(u) ==> text != Render(u)) ==> Timestamp(Some(text)) == 0
  {
    hide Timestamp, Seconds, Render;
    if IsInstant(t) && text == Render(t) { ReadsRendered(t); }
    if forall u :: IsInstant(u) ==> text != Render(u) { ReadsNothingElse(text); }
  }

  lemma LastDay()
    ensures DayNumber(Civil(9999, 12, 31)) == LAST_SECOND / 86400
  {
    hide DayNumber, DaysInMonth;
    EpochDaysCounts(Civil(9999, 12, 31));
    assert EpochDays(Civil(9999, 12, 31)) == 2932896;
  }

  /** Splitting a second into a day and a time of day. */
  lemma DayAndTime(secs: nat)
    ensures var rem := secs % 86400;
      && 0 <= rem / 3600 <= 23 && 0 <= rem % 3600 / 60 <= 59 && 0 <= rem % 60 <= 59
      && secs == secs / 86400 * 86400 + rem / 3600 * 3600 + rem % 3600 / 60 * 60 + rem % 60
  {
    var rem := secs % 86400;
    assert rem % 3600 % 60 == rem % 60;
  }

  lemma TimeOfDay(day: nat, h: nat, min: nat, sec: nat)
    requires h <= 23 && min <= 59 && sec <= 59
    ensures var secs := day * 86400 + h * 3600 + min * 60 + sec; var rem := secs % 86400;
      secs / 86400 == day && rem / 3600 == h && rem % 3600 / 60 == min && rem % 60 == sec
  {
    var secs := day * 86400 + h * 3600 + min * 60 + sec;
    assert secs / 86400 == day;
    assert secs % 86400 == h * 3600 + min * 60 + sec;
  }

  lemma DateOfDays(days: nat)
    ensures var c := CivilFromDays(days);
      && IsDate(c) && c.year >= 1970 && DayNumber(c) == days
      && (c.year <= 9999 <==> days <= LAST_SECOND / 86400)
  {
    var c := CivilFromDays(days);
    var last := Civil(9999, 12, 31);
    CivilOfDays(days);
    EpochDaysCounts(c);
    LastDay();
    DatesInOrder(last, c);
    assert IsDate(last);
    hide CivilFromDays, DayNumber, EpochDays, DaysInMonth;
    if c.year <= 9999 { OnOrBefore(c); }
  }

  lemma OnOrBefore(c: Civil)
    requires IsDate(c) && c.year <= 9999
    ensures !Before(Civil(9999, 12, 31), c)
  {
  }

  lemma InstantOfSeconds(secs: nat)
    ensures var t := InstantAt(secs);
      && IsDate(t.date) && t.date.year >= 1970 && (IsInstant(t) <==> secs <= LAST_SECOND)
      && (IsInstant(t) ==> Seconds(t) == secs)
  {
    DayAndTime(secs);
    DateOfDays(secs / 86400);
    hide CivilFromDays, DayNumber, IsDate;
  }

  lemma InstantAtTime(day: nat, h: nat, min: nat, sec: nat)
    requires h <= 23 && min <= 59 && sec <= 59
    ensures InstantAt(day * 86400 + h * 3600 + min * 60 + sec) == Instant(CivilFromDays(day), h, min, sec)
  {
    TimeOfDay(day, h, min, sec);
    hide CivilFromDays;
  }

  lemma SecondsOfInstant(t: Instant)
    requires IsInstant(t)
    ensures 0 <= Seconds(t) <= LAST_SECOND && InstantAt(Seconds(t)) == t
  {
    hide CivilFromDays, DayNumber, DaysInMonth, InstantAt;
    DaysOfCivil(t.date);
    var day := DayNumber(t.date);
    DateOfDays(day);
    InstantAtTime(day, t.hour, t.minute, t.second);
    assert day <= 2932896;
  }

  /** Reading what was written: exactly up to the end of the year 9999. */
  lemma WriteThenRead(secs: nat)
    ensures Timestamp(Some(Iso8601(secs))) == secs <==> secs <= LAST_SECOND
  {
    InstantOfSeconds(secs);
    var t := InstantAt(secs);
    if secs <= LAST_SECOND {
      TimestampIsExact(Iso8601(secs), t);
    } else {
      SmallPowers();
      DecLength(t.date.year, 4);
      assert |Iso8601(secs)| > 20;
    }
  }

  lemma InstantOfText(text: string) returns (t: Instant)
    requires Timestamp(Some(text)) != 0
    ensures IsInstant(t) && text == Render(t)
  {
    hide Timestamp, Render, Seconds;
    TimestampIsExact(text, Instant(Civil(1970, 1, 1), 0, 0, 0));
    t :| IsInstant(t) && text == Render(t);
  }

  /** Writing what was read gives back every text that the reader accepts. */
  lemma ReadThenWrite(text: string)
    requires Timestamp(Some(text)) != 0
    ensures Timestamp(Some(text)) > 0 && Iso8601(Timestamp(Some(text))) == text
  {
    hide Timestamp, Render, Seconds, InstantAt;
    var t := InstantOfText(text);
    TimestampIsExact(text, t);
    SecondsOfInstant(t);
  }
}
