/** The validators and the minute arithmetic of `DateUtility` in the browser
    client. Each validator is a whole-string regular-expression match
    (`String.matches`); here each is a hand-written recogniser that follows
    the grammar group by group, and lemmas state which texts it accepts in
    terms of numeric values. */
module DateUtility {
  import opened JavaLang

  // ---------------------------------------------------------------------
  // The regular-expression groups, alternative by alternative

  /** `(0?[1-9]|1[012])` */
  predicate MonthField(t: string)
  {
    || (|t| == 1 && '1' <= t[0] <= '9')
    || (|t| == 2 && t[0] == '0' && '1' <= t[1] <= '9')
    || (|t| == 2 && t[0] == '1' && '0' <= t[1] <= '2')
  }

  /** `(0?[1-9]|[12][0-9]|3[01])` */
  predicate DayField(t: string)
  {
    || (|t| == 1 && '1' <= t[0] <= '9')
    || (|t| == 2 && t[0] == '0' && '1' <= t[1] <= '9')
    || (|t| == 2 && '1' <= t[0] <= '2' && IsDigit(t[1]))
    || (|t| == 2 && t[0] == '3' && '0' <= t[1] <= '1')
  }

  /** `[0-9]{4,4}` */
  predicate YearField(t: string)
  {
    |t| == 4 && AllDigits(t)
  }

  /** `([0]?[0-9]|1[0-2])` */
  predicate HourField(t: string)
  {
    || (|t| == 1 && IsDigit(t[0]))
    || (|t| == 2 && t[0] == '0' && IsDigit(t[1]))
    || (|t| == 2 && t[0] == '1' && '0' <= t[1] <= '2')
  }

  /** `[0-5]?[0-9]` */
  predicate MinuteField(t: string)
  {
    || (|t| == 1 && IsDigit(t[0]))
    || (|t| == 2 && '0' <= t[0] <= '5' && IsDigit(t[1]))
  }

  // ---------------------------------------------------------------------
  // The four validators

  /** `checkAMOrPM`: the whole text is one of the four meridiem tokens. */
  predicate CheckAMOrPM(token: string)
  {
    token == "am" || token == "AM" || token == "pm" || token == "PM"
  }

  /** `checkDateFormat`: month, '/', day, '/', four-digit year. A regular
      expression made of concatenated groups matches the whole text exactly
      when some cut of the text lets every group match its piece. */
  predicate CheckDateFormat(date: string)
  {
    exists i, j | 0 < i < j < |date| :: DateCut(date, i, j)
  }

  /** The cut of a date text at its two '/' separators, positions i and j. */
  predicate DateCut(date: string, i: int, j: int)
    requires 0 < i < j < |date|
  {
    && date[i] == '/' && date[j] == '/'
    && MonthField(date[..i]) && DayField(date[i + 1..j]) && YearField(date[j + 1..])
  }

  /** `checkTimeFormat`: hour, ':', minute. */
  predicate CheckTimeFormat(time: string)
  {
    exists i | 0 < i < |time| :: TimeCut(time, i)
  }

  predicate TimeCut(time: string, i: int)
    requires 0 < i < |time|
  {
    time[i] == ':' && HourField(time[..i]) && MinuteField(time[i + 1..])
  }

  /** `checkDateTimeFormat`: the date grammar, one space, the time grammar,
      one space and a meridiem token, matched as one expression. */
  predicate CheckDateTimeFormat(datetime: string)
  {
    exists i, j | 0 < i < j < |datetime| :: DateTimeCut(datetime, i, j)
  }

  predicate DateTimeCut(datetime: string, i: int, j: int)
    requires 0 < i < j < |datetime|
  {
    && datetime[i] == ' ' && datetime[j] == ' '
    && CheckDateFormat(datetime[..i])
    && CheckTimeFormat(datetime[i + 1..j])
    && CheckAMOrPM(datetime[j + 1..])
  }

  // ---------------------------------------------------------------------
  // Cutting a text at separators

  lemma CutTwo(s: string, i: int)
    requires 0 <= i < |s|
    ensures s == s[..i] + [s[i]] + s[i + 1..]
  {
  }

  lemma CutThree(s: string, i: int, j: int)
    requires 0 <= i < j < |s|
    ensures s == s[..i] + [s[i]] + s[i + 1..j] + [s[j]] + s[j + 1..]
  {
  }

  lemma JoinTwo(a: string, x: char, b: string)
    ensures var s := a + [x] + b;
      |s| == |a| + 1 + |b| && s[..|a|] == a && s[|a|] == x && s[|a| + 1..] == b
  {
    var s := a + [x] + b;
    assert s[..|a|] == a;
    assert s[|a| + 1..] == b;
  }

  lemma JoinThree(a: string, x: char, b: string, y: char, c: string)
    ensures var s := a + [x] + b + [y] + c; var j := |a| + 1 + |b|;
      && |s| == j + 1 + |c| && s[..|a|] == a && s[|a|] == x
      && s[|a| + 1..j] == b && s[j] == y && s[j + 1..] == c
  {
    var s := a + [x] + b + [y] + c;
    var j := |a| + 1 + |b|;
    assert s[..|a|] == a;
    assert s[|a| + 1..j] == b;
    assert s[j + 1..] == c;
  }

  // ---------------------------------------------------------------------
  // What the groups mean as numbers

  /** One or two decimal digits whose value lies in [lo, hi]; a leading zero
      is allowed. */
  predicate NumberIn(t: string, lo: nat, hi: nat)
  {
    1 <= |t| <= 2 && AllDigits(t) && lo <= DigitsValue(t) <= hi
  }

  lemma DigitsValueShort(t: string)
    requires 1 <= |t| <= 2 && AllDigits(t)
    ensures |t| == 1 ==> DigitsValue(t) == t[0] as int - '0' as int
    ensures |t| == 2 ==> DigitsValue(t) == (t[0] as int - '0' as int) * 10 + (t[1] as int - '0' as int)
  {
    if |t| == 1 {
      assert t[..0] == [];
    } else {
      assert t[..1][..0] == [];
      assert t[..1][0] == t[0];
    }
  }

  lemma MonthFieldMeaning(t: string)
    ensures MonthField(t) <==> NumberIn(t, 1, 12)
  {
    if 1 <= |t| <= 2 && AllDigits(t) { DigitsValueShort(t); }
  }

  lemma DayFieldMeaning(t: string)
    ensures DayField(t) <==> NumberIn(t, 1, 31)
  {
    if 1 <= |t| <= 2 && AllDigits(t) { DigitsValueShort(t); }
  }

  lemma HourFieldMeaning(t: string)
    ensures HourField(t) <==> NumberIn(t, 0, 12)
  {
    if 1 <= |t| <= 2 && AllDigits(t) { DigitsValueShort(t); }
  }

  lemma MinuteFieldMeaning(t: string)
    ensures MinuteField(t) <==> NumberIn(t, 0, 59)
  {
    if 1 <= |t| <= 2 && AllDigits(t) { DigitsValueShort(t); }
  }

  /** A date written as month/day/year with a month number 1..12, a day
      number 1..31 (one or two digits each) and four year digits. */
  ghost predicate DateParts(date: string, m: string, d: string, y: string)
  {
    date == m + "/" + d + "/" + y
    && NumberIn(m, 1, 12) && NumberIn(d, 1, 31) && |y| == 4 && AllDigits(y)
  }

  /** A date is accepted exactly when it reads M/D/YYYY with the ranges of
      `DateParts`. There is no check of the day against the month. */
  lemma CheckDateFormatMeaning(date: string)
    ensures CheckDateFormat(date) <==> exists m, d, y :: DateParts(date, m, d, y)
  {
    if CheckDateFormat(date) {
      var i, j :| 0 < i < j < |date| && DateCut(date, i, j);
      var m, d, y := date[..i], date[i + 1..j], date[j + 1..];
      MonthFieldMeaning(m);
      DayFieldMeaning(d);
      CutThree(date, i, j);
      assert DateParts(date, m, d, y);
    }
    if exists m, d, y :: DateParts(date, m, d, y) {
      var m, d, y :| DateParts(date, m, d, y);
      MonthFieldMeaning(m);
      DayFieldMeaning(d);
      JoinThree(m, '/', d, '/', y);
      assert DateCut(date, |m|, |m| + 1 + |d|);
    }
  }

  /** A time written as hour:minute with an hour number 0..12 and a minute
      number 0..59, one or two digits each. */
  ghost predicate TimeParts(time: string, h: string, m: string)
  {
    time == h + ":" + m && NumberIn(h, 0, 12) && NumberIn(m, 0, 59)
  }

  lemma CheckTimeFormatMeaning(time: string)
    ensures CheckTimeFormat(time) <==> exists h, m :: TimeParts(time, h, m)
  {
    if CheckTimeFormat(time) {
      var i :| 0 < i < |time| && TimeCut(time, i);
      var h, m := time[..i], time[i + 1..];
      HourFieldMeaning(h);
      MinuteFieldMeaning(m);
      CutTwo(time, i);
      assert TimeParts(time, h, m);
    }
    if exists h, m :: TimeParts(time, h, m) {
      var h, m :| TimeParts(time, h, m);
      HourFieldMeaning(h);
      MinuteFieldMeaning(m);
      JoinTwo(h, ':', m);
      assert TimeCut(time, |h|);
    }
  }

  /** Accepted dates are 8 to 10 characters long and accepted times 3 to 5;
      neither contains a space. */
  lemma AcceptedShapes(date: string, time: string)
    ensures CheckDateFormat(date) ==> 8 <= |date| <= 10 && ' ' !in date
    ensures CheckTimeFormat(time) ==> 3 <= |time| <= 5 && ' ' !in time
  {
    CheckDateFormatMeaning(date);
    CheckTimeFormatMeaning(time);
    if CheckDateFormat(date) {
      var m, d, y :| DateParts(date, m, d, y);
      assert ' ' !in m && ' ' !in d && ' ' !in y;
    }
    if CheckTimeFormat(time) {
      var h, m :| TimeParts(time, h, m);
      assert ' ' !in h && ' ' !in m;
    }
  }

  /** A date-time made of parts each accepted by its own validator. */
  ghost predicate DateTimeParts(datetime: string, d: string, t: string, m: string)
  {
    datetime == d + " " + t + " " + m && CheckDateFormat(d) && CheckTimeFormat(t) && CheckAMOrPM(m)
  }

  /** The combined validator accepts exactly a date, a space, a time, a
      space and a meridiem token, each accepted by its own validator. */
  lemma CheckDateTimeFormatMeaning(datetime: string)
    ensures CheckDateTimeFormat(datetime) <==> exists d, t, m :: DateTimeParts(datetime, d, t, m)
  {
    if CheckDateTimeFormat(datetime) {
      DateTimeCutGivesParts(datetime);
    }
    if exists d, t, m :: DateTimeParts(datetime, d, t, m) {
      var d, t, m :| DateTimeParts(datetime, d, t, m);
      DateTimePartsGiveCut(datetime, d, t, m);
    }
  }

  lemma DateTimeCutGivesParts(datetime: string)
    requires CheckDateTimeFormat(datetime)
    ensures exists d, t, m :: DateTimeParts(datetime, d, t, m)
  {
    var d, t, m := DateTimeSplit(datetime);
  }

  /** Reads the three parts off a cut the combined validator found. */
  lemma DateTimeSplit(datetime: string) returns (d: string, t: string, m: string)
    requires CheckDateTimeFormat(datetime)
    ensures DateTimeParts(datetime, d, t, m)
  {
    var i, j :| 0 < i < j < |datetime| && DateTimeCut(datetime, i, j);
    d, t, m := datetime[..i], datetime[i + 1..j], datetime[j + 1..];
    CutThree(datetime, i, j);
  }

  lemma DateTimePartsGiveCut(datetime: string, d: string, t: string, m: string)
    requires DateTimeParts(datetime, d, t, m)
    ensures CheckDateTimeFormat(datetime)
  {
    AcceptedShapes(d, t);
    JoinThree(d, ' ', t, ' ', m);
    assert datetime == d + [' '] + t + [' '] + m;
    assert DateTimeCut(datetime, |d|, |d| + 1 + |t|);
  }

  /** No part of an accepted date-time contains a space, so the text fixes
      its date, time and meridiem parts. */
  lemma DateTimeSplitUnique(datetime: string, d1: string, t1: string, m1: string, d2: string, t2: string, m2: string)
    requires DateTimeParts(datetime, d1, t1, m1) && DateTimeParts(datetime, d2, t2, m2)
    ensures d1 == d2 && t1 == t2 && m1 == m2
  {
    AcceptedShapes(d1, t1);
    AcceptedShapes(d2, t2);
    SpaceFreeSplitUnique(d1, t1, m1, d2, t2, m2);
  }

  lemma SpaceFreeSplitUnique(d1: string, t1: string, m1: string, d2: string, t2: string, m2: string)
    requires ' ' !in d1 && ' ' !in t1 && ' ' !in d2 && ' ' !in t2
    requires d1 + " " + t1 + " " + m1 == d2 + " " + t2 + " " + m2
    ensures d1 == d2 && t1 == t2 && m1 == m2
  {
    var rest1, rest2 := t1 + " " + m1, t2 + " " + m2;
    assert d1 + " " + t1 + " " + m1 == d1 + " " + rest1;
    assert d2 + " " + t2 + " " + m2 == d2 + " " + rest2;
    FirstSpace(d1, rest1);
    FirstSpace(d2, rest2);
    assert |d1| == |d2|;
    JoinTwo(d1, ' ', rest1);
    JoinTwo(d2, ' ', rest2);
    assert rest1 == rest2;
    FirstSpace(t1, m1);
    FirstSpace(t2, m2);
    assert |t1| == |t2|;
    JoinTwo(t1, ' ', m1);
    JoinTwo(t2, ' ', m2);
  }

  /** In an accepted date-time, the text before the first space is an
      accepted date. */
  lemma FirstSpaceEndsDate(datetime: string, k: int)
    requires CheckDateTimeFormat(datetime)
    requires 0 <= k < |datetime| && datetime[k] == ' '
    requires forall i :: 0 <= i < k ==> datetime[i] != ' '
    ensures CheckDateFormat(datetime[..k])
  {
    var d, t, m := DateTimeSplit(datetime);
    AcceptedShapes(d, t);
    FirstSpacePrefix(d, t, m, datetime, k);
  }

  /** The text before the first space of `a + " " + b + " " + c` is `a`,
      when `a` has no space. */
  lemma FirstSpacePrefix(a: string, b: string, c: string, s: string, k: int)
    requires ' ' !in a && s == a + " " + b + " " + c
    requires 0 <= k < |s| && s[k] == ' '
    requires forall i :: 0 <= i < k ==> s[i] != ' '
    ensures s[..k] == a
  {
    var rest := b + " " + c;
    assert s == a + " " + rest;
    FirstSpace(a, rest);
    assert k == |a|;
    JoinTwo(a, ' ', rest);
  }

  /** In `a + " " + b` with no space in `a`, the first space is at |a|. */
  lemma FirstSpace(a: string, b: string)
    requires ' ' !in a
    ensures (a + " " + b)[|a|] == ' '
    ensures forall k :: 0 <= k < |a| ==> (a + " " + b)[k] != ' '
  {
    forall k | 0 <= k < |a|
      ensures (a + " " + b)[k] != ' '
    {
      assert (a + " " + b)[k] == a[k];
    }
  }

  // ---------------------------------------------------------------------
  // Minutes between two instants

  const MillisPerMinute: int := 60000

  /** The spans, in milliseconds, whose minute count fits in a Java `int`. */
  predicate SpanFits(begin: Long, end: Long)
  {
    Abs(end - begin) < TwoTo31 * MillisPerMinute
  }

  /** `getMinutesBetweenDates`: the `long` difference of the two millisecond
      counts, divided by 60000 with Java's truncating `/`, then cast to `int`. */
  function MinutesBetween(begin: Long, end: Long): int
  {
    NarrowToInt(Quot(LongSub(end, begin), MillisPerMinute))
  }

  /** Within the `int` range the result is the exact number of whole minutes
      in the span, rounded toward zero. */
  lemma MinutesBetweenWholeMinutes(begin: Long, end: Long)
    requires SpanFits(begin, end)
    ensures var r := MinutesBetween(begin, end);
      && MillisPerMinute * Abs(r) <= Abs(end - begin) < MillisPerMinute * (Abs(r) + 1)
      && (end >= begin ==> r >= 0) && (end <= begin ==> r <= 0)
  {
    QuotIsJavaQuotient(end - begin, MillisPerMinute);
  }

  lemma MinutesBetweenSame(t: Long)
    ensures MinutesBetween(t, t) == 0
  {
  }

  /** Exchanging the instants negates the result: truncation is symmetric
      about zero, and so is the cast unless the result is -2^31. This holds
      whenever neither `long` difference wraps, in particular on every span
      that `SpanFits`. */
  lemma MinutesBetweenAntisymmetric(begin: Long, end: Long)
    requires IsLong(end - begin) && IsLong(begin - end)
    requires MinutesBetween(begin, end) != -TwoTo31
    ensures MinutesBetween(begin, end) == -MinutesBetween(end, begin)
  {
    QuotNegate(end - begin, MillisPerMinute);
    NarrowToIntNegate(Quot(end - begin, MillisPerMinute));
  }

  /** Every span that `SpanFits` meets the conditions of
      `MinutesBetweenAntisymmetric`. */
  lemma SpanFitsAntisymmetric(begin: Long, end: Long)
    requires SpanFits(begin, end)
    ensures IsLong(end - begin) && IsLong(begin - end)
    ensures MinutesBetween(begin, end) != -TwoTo31
  {
    MinutesBetweenWholeMinutes(begin, end);
  }

  /** A later end never gives fewer minutes. */
  lemma MinutesBetweenMonotone(begin: Long, end1: Long, end2: Long)
    requires SpanFits(begin, end1) && SpanFits(begin, end2) && end1 <= end2
    ensures MinutesBetween(begin, end1) <= MinutesBetween(begin, end2)
  {
    QuotMonotone(end1 - begin, end2 - begin, MillisPerMinute);
    QuotIsJavaQuotient(end1 - begin, MillisPerMinute);
    QuotIsJavaQuotient(end2 - begin, MillisPerMinute);
  }

  /** Past the `int` range the cast wraps: a span of exactly 2^31 minutes
      comes out as -2^31, in either direction, so exchanging the instants
      does not negate it. */
  lemma MinutesBetweenWrapsPastIntRange()
    ensures MinutesBetween(0, TwoTo31 * MillisPerMinute) == -TwoTo31
    ensures MinutesBetween(TwoTo31 * MillisPerMinute, 0) == -TwoTo31
  {
  }

  // ---------------------------------------------------------------------
  // Sample texts

  lemma SampleTimes()
    ensures CheckTimeFormat("9:05") && CheckTimeFormat("12:59") && CheckTimeFormat("00:00")
    ensures !CheckTimeFormat("25:00") && !CheckTimeFormat("12:60") && !CheckTimeFormat("13:00")
  {
    assert TimeCut("9:05", 1);
    assert TimeCut("12:59", 2);
    assert TimeCut("00:00", 2);
  }

  lemma SampleDates()
    ensures CheckDateFormat("2/31/2024") && CheckDateFormat("03/01/2024")
  {
    var d1, d2 := "2/31/2024", "03/01/2024";
    assert d1[..1] == "2" && d1[2..4] == "31" && d1[5..] == "2024";
    assert MonthField("2") && DayField("31") && YearField("2024");
    assert DateCut(d1, 1, 4);
    assert d2[..2] == "03" && d2[3..5] == "01" && d2[6..] == "2024";
    assert MonthField("03") && DayField("01");
    assert DateCut(d2, 2, 5);
  }

  lemma SampleRejectedDates()
    ensures !CheckDateFormat("13/40/2024") && !CheckDateFormat("0/1/2024") && !CheckDateFormat("1/1/24")
  {
  }

  /** Character by character: two letters, 'a' or 'p' then 'm', both lower
      case or both upper case; so a mixed-case token such as "Am" fails. */
  lemma MeridiemMeaning(token: string)
    ensures CheckAMOrPM(token) <==>
      && |token| == 2
      && ((token[0] in "ap" && token[1] == 'm') || (token[0] in "AP" && token[1] == 'M'))
  {
    if |token| == 2 {
      assert token == [token[0], token[1]];
    }
  }

  lemma SampleMeridiem()
    ensures CheckAMOrPM("am") && CheckAMOrPM("PM")
    ensures !CheckAMOrPM("Am") && !CheckAMOrPM(" am") && !CheckAMOrPM("amx") && !CheckAMOrPM("")
  {
  }

  lemma SampleDateTime()
    ensures CheckDateTimeFormat("3/1/2024 9:00 AM")
  {
    assert DateCut("3/1/2024", 1, 3);
    assert TimeCut("9:00", 1);
    var s := "3/1/2024 9:00 AM";
    assert s[..8] == "3/1/2024" && s[9..13] == "9:00" && s[14..] == "AM";
    assert DateTimeCut(s, 8, 13);
  }

  /** The date part "13/40/2024" has month 13 and day 40. */
  lemma SampleBadDateTime()
    ensures !CheckDateTimeFormat("13/40/2024 09:00 AM")
  {
    var bad := "13/40/2024 09:00 AM";
    assert bad[..10] == "13/40/2024";
    SampleRejectedDates();
    RejectedDateRejectsDateTime(bad, 10);
  }

  /** A text whose first word is not an accepted date is not an accepted
      date-time. */
  lemma RejectedDateRejectsDateTime(datetime: string, k: int)
    requires 0 <= k < |datetime| && datetime[k] == ' '
    requires forall i :: 0 <= i < k ==> datetime[i] != ' '
    requires !CheckDateFormat(datetime[..k])
    ensures !CheckDateTimeFormat(datetime)
  {
    if CheckDateTimeFormat(datetime) {
      FirstSpaceEndsDate(datetime, k);
    }
  }
}
