/** The command-line `Appointment` record: a description, the two date-time
    texts as typed, and the two instants parsed from them. Every field is set
    once, by the constructor, so the record is a value. Instants are the
    millisecond counts of `Date.getTime()`; the Java getters hand out the
    mutable `Date` objects themselves, an aliasing this value does not have. */
module Appointments {
  import opened Results
  import opened JavaLang
  import DateUtility

  /** The locale's short date-time parser (`DateFormat.parse`): the instant a
      text denotes, or None where it throws `ParseException`. Its grammar and
      time zone live in the Java library, so it is a parameter here. */
  type DateParser = string -> Option<Long>

  datatype Appointment = Appointment(
    description: string,
    beginInput: string,
    endInput: string,
    beginTime: Long,
    endTime: Long)

  /** What construction can throw. */
  datatype ConstructionError =
    | ParseException(unparseable: string)
    | IndexOutOfBounds(index: nat)

  /** `Appointment(desc, begin, end)`: the begin text is parsed first, then
      the end text; the first that fails to parse is reported and nothing is
      built. Nothing checks that the end follows the begin. */
  function NewAppointment(desc: string, begin: string, end: string, parse: DateParser)
    : (r: Result<Appointment, ConstructionError>)
    ensures r.Ok? <==> parse(begin).Some? && parse(end).Some?
    ensures parse(begin).None? ==> r == Err(ParseException(begin))
    ensures parse(begin).Some? && parse(end).None? ==> r == Err(ParseException(end))
    ensures r.Ok? ==>
      && r.value.description == desc
      && r.value.beginInput == begin && r.value.endInput == end
      && r.value.beginTime == parse(begin).value && r.value.endTime == parse(end).value
  {
    match parse(begin)
    case None => Err(ParseException(begin))
    case Some(b) =>
      match parse(end)
      case None => Err(ParseException(end))
      case Some(e) => Ok(Appointment(desc, begin, end, b, e))
  }

  /** `Appointment(List<String>)`: elements 0, 1 and 2 are read in that
      order, so a short list fails at the first missing index; further
      elements are ignored. */
  function NewAppointmentFromList(arguments: seq<string>, parse: DateParser)
    : (r: Result<Appointment, ConstructionError>)
    ensures |arguments| < 3 ==> r == Err(IndexOutOfBounds(|arguments|))
    ensures |arguments| >= 3 ==> r == NewAppointment(arguments[0], arguments[1], arguments[2], parse)
  {
    if |arguments| < 3 then Err(IndexOutOfBounds(|arguments|))
    else NewAppointment(arguments[0], arguments[1], arguments[2], parse)
  }

  // ---------------------------------------------------------------------
  // Duration

  /** `TimeUnit.MILLISECONDS.toMinutes`: a `long` division by 60000. */
  function MillisToMinutes(d: Long): int
  {
    Quot(d, DateUtility.MillisPerMinute)
  }

  /** `getDurationInMinutes`: the `long` difference end - begin converted to
      minutes, then cast to `int`. */
  function DurationInMinutes(a: Appointment): int
  {
    NarrowToInt(MillisToMinutes(LongSub(a.endTime, a.beginTime)))
  }

  /** The duration is the minute count the browser client computes for the
      same two instants. */
  lemma DurationIsMinutesBetween(a: Appointment)
    ensures DurationInMinutes(a) == DateUtility.MinutesBetween(a.beginTime, a.endTime)
  {
  }

  /** Within the `int` range: the whole minutes of the span, rounded toward
      zero, negative when the end precedes the begin by a minute or more. */
  lemma DurationMeaning(a: Appointment)
    requires DateUtility.SpanFits(a.beginTime, a.endTime)
    ensures var r := DurationInMinutes(a); var span := a.endTime - a.beginTime;
      && DateUtility.MillisPerMinute * Abs(r) <= Abs(span) < DateUtility.MillisPerMinute * (Abs(r) + 1)
      && (span >= 0 ==> r >= 0) && (span <= 0 ==> r <= 0)
  {
    DateUtility.MinutesBetweenWholeMinutes(a.beginTime, a.endTime);
  }

  /** Construction accepts an end before the begin; the duration is then
      zero or negative. */
  lemma EndBeforeBeginAccepted(desc: string, begin: string, end: string, parse: DateParser)
    requires parse(begin).Some? && parse(end).Some?
    requires parse(end).value < parse(begin).value
    requires DateUtility.SpanFits(parse(begin).value, parse(end).value)
    ensures NewAppointment(desc, begin, end, parse).Ok?
    ensures DurationInMinutes(NewAppointment(desc, begin, end, parse).value) <= 0
    ensures parse(end).value + DateUtility.MillisPerMinute <= parse(begin).value ==>
      DurationInMinutes(NewAppointment(desc, begin, end, parse).value) < 0
  {
    DurationMeaning(NewAppointment(desc, begin, end, parse).value);
  }

  /** Past the `int` range the cast can turn an end before the begin into a
      positive duration: 2^31 + 1 minutes back comes out as 2^31 - 1. */
  lemma EndBeforeBeginWrapsPositive()
    ensures DurationInMinutes(Appointment("d", "", "", 0, -(TwoTo31 + 1) * DateUtility.MillisPerMinute)) == TwoTo31 - 1
  {
  }

  // ---------------------------------------------------------------------
  // Ordering

  /** `Date.compareTo`: -1, 0 or 1 by the millisecond counts. */
  function CompareDates(x: Long, y: Long): (c: int)
    ensures -1 <= c <= 1
    ensures c < 0 <==> x < y
    ensures c == 0 <==> x == y
  {
    if x < y then -1 else if x == y then 0 else 1
  }

  /** `compareTo`: begin instants first, then end instants, then the
      descriptions by `String.compareTo`. */
  function CompareTo(a: Appointment, b: Appointment): int
  {
    var byBegin := CompareDates(a.beginTime, b.beginTime);
    if byBegin != 0 then byBegin
    else
      var byEnd := CompareDates(a.endTime, b.endTime);
      if byEnd != 0 then byEnd
      else CompareStrings(a.description, b.description)
  }

  /** The three fields `compareTo` looks at. */
  datatype SortKey = SortKey(beginTime: Long, endTime: Long, description: string)

  function Key(a: Appointment): SortKey
  {
    SortKey(a.beginTime, a.endTime, a.description)
  }

  /** Lexicographic order of keys, with ordinal string order last. */
  ghost predicate KeyLess(k1: SortKey, k2: SortKey)
  {
    || k1.beginTime < k2.beginTime
    || (k1.beginTime == k2.beginTime && k1.endTime < k2.endTime)
    || (k1.beginTime == k2.beginTime && k1.endTime == k2.endTime && LexLess(k1.description, k2.description))
  }

  lemma CompareToNegativeIff(a: Appointment, b: Appointment)
    ensures CompareTo(a, b) < 0 <==> KeyLess(Key(a), Key(b))
  {
    CompareStringsNegativeIsLexLess(a.description, b.description);
  }

  /** `compareTo` is 0 exactly when the three keys agree; the two input
      texts play no part. */
  lemma CompareToZeroIff(a: Appointment, b: Appointment)
    ensures CompareTo(a, b) == 0 <==> Key(a) == Key(b)
  {
    CompareStringsZeroIff(a.description, b.description);
  }

  lemma CompareToReflexive(a: Appointment)
    ensures CompareTo(a, a) == 0
  {
    CompareToZeroIff(a, a);
  }

  /** Swapping the arguments negates the result, so the signs are opposite. */
  lemma CompareToAntisymmetric(a: Appointment, b: Appointment)
    ensures CompareTo(b, a) == -CompareTo(a, b)
  {
    CompareStringsAntisymmetric(a.description, b.description);
  }

  lemma CompareToTransitive(a: Appointment, b: Appointment, c: Appointment)
    requires CompareTo(a, b) < 0 && CompareTo(b, c) < 0
    ensures CompareTo(a, c) < 0
  {
    if a.beginTime == b.beginTime == c.beginTime && a.endTime == b.endTime == c.endTime {
      CompareStringsTransitive(a.description, b.description, c.description);
    }
  }

  /** Non-positive results chain, with a negative step making the whole chain
      negative: `compareTo` is a total preorder fit for sorting. */
  lemma CompareToTransitiveLe(a: Appointment, b: Appointment, c: Appointment)
    requires CompareTo(a, b) <= 0 && CompareTo(b, c) <= 0
    ensures CompareTo(a, c) <= 0
    ensures CompareTo(a, b) < 0 || CompareTo(b, c) < 0 ==> CompareTo(a, c) < 0
  {
    CompareToZeroIff(a, b);
    CompareToZeroIff(b, c);
    CompareToZeroIff(a, c);
    if CompareTo(a, b) < 0 && CompareTo(b, c) < 0 {
      CompareToTransitive(a, b, c);
    }
  }

  /** Ties on both instants return the description comparison unchanged, so
      the result is not limited to -1, 0 and 1: "a" against "c" gives -2. */
  lemma CompareToBeyondUnit(begin: Long, end: Long)
    ensures CompareTo(Appointment("a", "", "", begin, end), Appointment("c", "", "", begin, end)) == -2
  {
    assert "a"[0] == 'a' && "c"[0] == 'c';
  }

  lemma CompareToTotal(a: Appointment, b: Appointment)
    ensures CompareTo(a, b) <= 0 || CompareTo(b, a) <= 0
  {
    CompareToAntisymmetric(a, b);
  }
}
