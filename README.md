# Appointment book core in Dafny

This project models the core of a student appointment-book application in three parts.

- **DateUtility** is the browser client's date helper. It models:
  - the four whole-string validators for date, time, meridiem and combined date-time texts;
  - the minute count between two instants.
- **Appointment** is the command-line appointment record. It models:
  - the two constructors, which parse the begin and end texts;
  - the getters;
  - the duration in minutes;
  - the `compareTo` ordering over begin, end and description.
- **PrettyPrinter** is the server's report renderer. It models `dump`, which forwards to `dumpToFile`. `dumpToFile`:
  1. sorts the book's list in place with `Collections.sort`;
  2. writes a fixed header and a numbered four-line block per appointment to a `PrintWriter`;
  3. closes the writer.

Modules, one file each:

- `Results`: Option and Result.
- `JavaLang`: the Java behaviour the core relies on, written out because Dafny's integers and division differ from Java's.
  - `long` subtraction wraps modulo 2^64.
  - The `(int)` cast keeps the low 32 bits.
  - `/` truncates toward zero.
  - `String.compareTo` and `Integer.toString` are modelled as written.
- `DateUtility`: the regular expressions as hand-written recognisers, plus `getMinutesBetweenDates`.
  - Each validator accepts a text exactly when some cut of it lets each group of the expression match its piece.
  - Lemmas restate acceptance in terms of numeric ranges.
- `Appointments`: the record as a datatype value (its fields are set only by the constructor), its constructors as functions returning a `Result`, the duration and the comparison.
- `Sorting`: `Collections.sort` as a stable insertion sort.
  - It is specified by the function `StableSorted`.
  - It is proved sorted, a permutation and stable.
  - It is implemented by the method `Sort`.
- `PrettyPrinting`: the imperative part. It has three classes:
  - `PrintWriter` holds one record per `println` and a closed flag;
  - `AppointmentBook` holds the owner and the list;
  - `PrettyPrinter` has `Dump`, `DumpToFile`, and the loop of `dumpToFile` as `PrintAppointments` and `PrintBlock`.

  What is written is stated through the function `Report`: the header records followed by the blocks.

Two parameters replace library code that is not visible here:
- the locale's date-time parser, a partial function from text to a millisecond count (`DateParser`);
- the pretty date formatter (`PrettyFormat`).

`dumpToFile` writes 3 header records. The second record, the owner line, ends in a line feed, so with n appointments the report is 3 + 4n `println` records. As text it is 4 + 4n lines: `ReportShape` states the record count and `ReportLineCount` the line count.

The doc comment of `compareTo` says it returns 0, -1 or 1, and -1 "if the other object is smaller". The code differs in two ways, and the model follows the code:
- it returns a negative value when `this` is the smaller one, which is the reverse of the comment;
- it returns `String.compareTo` on the descriptions when both instants tie, and that can be any `int`. `CompareToBeyondUnit` exhibits a result of -2.

The ordering laws hold for every result: `CompareToAntisymmetric` proves exact negation, and the other laws are stated on the sign.

## Model

| member | source | states |
|---|---|---|
| JavaLang.NarrowToInt | apptbook-gwt/src/main/java/edu/pdx/cs410J/jsl/client/DateUtility.java:67 | the `(int)` cast gives an `int` equal to its input modulo 2^32, and the input itself when it already fits |
| JavaLang.NarrowToIntUnique | apptbook-gwt/src/main/java/edu/pdx/cs410J/jsl/client/DateUtility.java:67 | two `int`s equal modulo 2^32 are equal, so the cast has exactly one result |
| JavaLang.NarrowToIntNegate | apptbook-gwt/src/main/java/edu/pdx/cs410J/jsl/client/DateUtility.java:67 | the cast commutes with negation whenever its result is not -2^31 |
| JavaLang.LongSub | apptbook-gwt/src/main/java/edu/pdx/cs410J/jsl/client/DateUtility.java:67 | `long` subtraction gives a `long` equal to the true difference modulo 2^64, and the true difference when it fits |
| JavaLang.QuotIsJavaQuotient | apptbook-gwt/src/main/java/edu/pdx/cs410J/jsl/client/DateUtility.java:67 | the modelled `/` meets the Java definition: the remainder is smaller than the divisor and has the sign of the dividend |
| JavaLang.JavaQuotientUnique | apptbook-gwt/src/main/java/edu/pdx/cs410J/jsl/client/DateUtility.java:67 | any quotient meeting the Java definition is the modelled one |
| JavaLang.QuotNegate | apptbook-gwt/src/main/java/edu/pdx/cs410J/jsl/client/DateUtility.java:67 | truncating division is symmetric about zero |
| JavaLang.QuotMonotone | apptbook-gwt/src/main/java/edu/pdx/cs410J/jsl/client/DateUtility.java:67 | a larger dividend never gives a smaller quotient |
| JavaLang.CompareStringsAntisymmetric | apptbook-cmdline/src/main/java/edu/pdx/cs410J/jsl/Appointment.java:149 | swapping the strings negates `String.compareTo` |
| JavaLang.CompareStringsZeroIff | apptbook-cmdline/src/main/java/edu/pdx/cs410J/jsl/Appointment.java:149 | `String.compareTo` is 0 exactly for equal strings |
| JavaLang.CompareStringsNegativeIsLexLess | apptbook-cmdline/src/main/java/edu/pdx/cs410J/jsl/Appointment.java:149 | `String.compareTo` is negative exactly when the first string is lexicographically smaller: a smaller character at the first difference, or a proper prefix |
| JavaLang.CompareStringsTransitive | apptbook-cmdline/src/main/java/edu/pdx/cs410J/jsl/Appointment.java:149 | negative results of `String.compareTo` chain |
| JavaLang.NatDigits | apptbook/src/main/java/edu/pdx/cs410J/jsl/PrettyPrinter.java:65 | a non-negative number prints as canonical decimal digits (at least one, a leading zero only in "0", and exactly "0" for zero) that read back as the number |
| JavaLang.IntToStringRoundTrip | apptbook/src/main/java/edu/pdx/cs410J/jsl/PrettyPrinter.java:68 | an `int` prints as its canonical digits, with a '-' first when negative followed by the digits of the magnitude (never a leading zero), and reads back as itself |
| JavaLang.CanonicalDigitsUnique | apptbook/src/main/java/edu/pdx/cs410J/jsl/PrettyPrinter.java:65 | a canonical digit string with value n is exactly the text printed for n, so the printed form is the only one |
| DateUtility.MeridiemMeaning | apptbook-gwt/src/main/java/edu/pdx/cs410J/jsl/client/DateUtility.java:107-109 | a token is accepted iff it is two characters, 'a' or 'p' then 'm', both lower case or both upper case |
| DateUtility.SampleMeridiem | apptbook-gwt/src/main/java/edu/pdx/cs410J/jsl/client/DateUtility.java:107-109 | "am" and "PM" are accepted; "Am", " am", "amx" and "" are not, because the match is whole-string |
| DateUtility.MonthFieldMeaning | apptbook-gwt/src/main/java/edu/pdx/cs410J/jsl/client/DateUtility.java:88 | the month group matches exactly one or two digits with value 1..12 |
| DateUtility.DayFieldMeaning | apptbook-gwt/src/main/java/edu/pdx/cs410J/jsl/client/DateUtility.java:88 | the day group matches exactly one or two digits with value 1..31 |
| DateUtility.HourFieldMeaning | apptbook-gwt/src/main/java/edu/pdx/cs410J/jsl/client/DateUtility.java:98 | the hour group matches exactly one or two digits with value 0..12 |
| DateUtility.MinuteFieldMeaning | apptbook-gwt/src/main/java/edu/pdx/cs410J/jsl/client/DateUtility.java:98 | the minute group matches exactly one or two digits with value 0..59 |
| DateUtility.CheckDateFormatMeaning | apptbook-gwt/src/main/java/edu/pdx/cs410J/jsl/client/DateUtility.java:87-89 | a date is accepted iff it is M/D/YYYY with month 1..12, day 1..31 and four year digits; the day is not checked against the month |
| DateUtility.CheckTimeFormatMeaning | apptbook-gwt/src/main/java/edu/pdx/cs410J/jsl/client/DateUtility.java:97-99 | a time is accepted iff it is H:M with hour 0..12 and minute 0..59 |
| DateUtility.AcceptedShapes | apptbook-gwt/src/main/java/edu/pdx/cs410J/jsl/client/DateUtility.java:87-99 | accepted dates are 8..10 characters and accepted times 3..5, neither with a space |
| DateUtility.CheckDateTimeFormatMeaning | apptbook-gwt/src/main/java/edu/pdx/cs410J/jsl/client/DateUtility.java:76-79 | a date-time is accepted iff it is an accepted date, a space, an accepted time, a space and an accepted meridiem token |
| DateUtility.DateTimeSplitUnique | apptbook-gwt/src/main/java/edu/pdx/cs410J/jsl/client/DateUtility.java:76-79 | an accepted date-time has exactly one such split |
| DateUtility.FirstSpaceEndsDate | apptbook-gwt/src/main/java/edu/pdx/cs410J/jsl/client/DateUtility.java:76-79 | in an accepted date-time, the text before the first space is an accepted date |
| DateUtility.RejectedDateRejectsDateTime | apptbook-gwt/src/main/java/edu/pdx/cs410J/jsl/client/DateUtility.java:76-79 | a text whose first word is not an accepted date is not an accepted date-time |
| DateUtility.SampleDates | apptbook-gwt/src/main/java/edu/pdx/cs410J/jsl/client/DateUtility.java:87-89 | "2/31/2024" and "03/01/2024" are accepted |
| DateUtility.SampleRejectedDates | apptbook-gwt/src/main/java/edu/pdx/cs410J/jsl/client/DateUtility.java:87-89 | "13/40/2024", "0/1/2024" and "1/1/24" are rejected |
| DateUtility.SampleTimes | apptbook-gwt/src/main/java/edu/pdx/cs410J/jsl/client/DateUtility.java:97-99 | "9:05", "12:59" and "00:00" are accepted; "25:00", "12:60" and "13:00" are rejected |
| DateUtility.SampleDateTime | apptbook-gwt/src/main/java/edu/pdx/cs410J/jsl/client/DateUtility.java:76-79 | "3/1/2024 9:00 AM" is accepted |
| DateUtility.SampleBadDateTime | apptbook-gwt/src/main/java/edu/pdx/cs410J/jsl/client/DateUtility.java:76-79 | "13/40/2024 09:00 AM" is rejected |
| DateUtility.MinutesBetweenWholeMinutes | apptbook-gwt/src/main/java/edu/pdx/cs410J/jsl/client/DateUtility.java:66-68 | within the `int` range the result is the whole minutes in the span, truncated toward zero, with the sign of the span |
| DateUtility.MinutesBetweenSame | apptbook-gwt/src/main/java/edu/pdx/cs410J/jsl/client/DateUtility.java:66-68 | equal instants give 0 minutes |
| DateUtility.MinutesBetweenAntisymmetric | apptbook-gwt/src/main/java/edu/pdx/cs410J/jsl/client/DateUtility.java:66-68 | exchanging the instants negates the result whenever neither `long` difference wraps and the result is not -2^31 |
| DateUtility.SpanFitsAntisymmetric | apptbook-gwt/src/main/java/edu/pdx/cs410J/jsl/client/DateUtility.java:66-68 | every span under 2^31 minutes meets those conditions |
| DateUtility.MinutesBetweenMonotone | apptbook-gwt/src/main/java/edu/pdx/cs410J/jsl/client/DateUtility.java:66-68 | a later end never gives fewer minutes |
| DateUtility.MinutesBetweenWrapsPastIntRange | apptbook-gwt/src/main/java/edu/pdx/cs410J/jsl/client/DateUtility.java:67 | a span of exactly 2^31 minutes wraps to -2^31 through the `int` cast in both directions, so there exchanging the instants does not negate the result |
| Appointments.NewAppointment | apptbook-cmdline/src/main/java/edu/pdx/cs410J/jsl/Appointment.java:47-117 | construction succeeds iff both texts parse; otherwise the begin text is reported first, then the end text; on success the description and both input texts are kept verbatim with the two parsed instants, which is what the getters return |
| Appointments.NewAppointmentFromList | apptbook-cmdline/src/main/java/edu/pdx/cs410J/jsl/Appointment.java:36-38 | a list shorter than three fails at the first missing index; otherwise elements 0, 1 and 2 go to the three-text constructor |
| Appointments.DurationIsMinutesBetween | apptbook-cmdline/src/main/java/edu/pdx/cs410J/jsl/Appointment.java:124-126 | the duration equals the minute count of the client's `getMinutesBetweenDates` for the same instants |
| Appointments.DurationMeaning | apptbook-cmdline/src/main/java/edu/pdx/cs410J/jsl/Appointment.java:124-126 | within the `int` range the duration is the whole minutes of end - begin, truncated toward zero, with its sign |
| Appointments.EndBeforeBeginAccepted | apptbook-cmdline/src/main/java/edu/pdx/cs410J/jsl/Appointment.java:47-57 | an end before the begin is accepted, and within the `int` range (`SpanFits`) the duration is then at most 0, and negative from one minute back |
| Appointments.EndBeforeBeginWrapsPositive | apptbook-cmdline/src/main/java/edu/pdx/cs410J/jsl/Appointment.java:124-126 | an end 2^31 + 1 minutes before the begin gives the positive duration 2^31 - 1 through the `int` cast |
| Appointments.CompareDates | apptbook-cmdline/src/main/java/edu/pdx/cs410J/jsl/Appointment.java:137 | `Date.compareTo` is -1, 0 or 1, negative iff the first instant is earlier and 0 iff they are equal |
| Appointments.CompareToNegativeIff | apptbook-cmdline/src/main/java/edu/pdx/cs410J/jsl/Appointment.java:135-150 | `compareTo` is negative exactly when (begin, end, description) is lexicographically smaller |
| Appointments.CompareToZeroIff | apptbook-cmdline/src/main/java/edu/pdx/cs410J/jsl/Appointment.java:135-150 | `compareTo` is 0 exactly when begin, end and description all agree |
| Appointments.CompareToReflexive | apptbook-cmdline/src/main/java/edu/pdx/cs410J/jsl/Appointment.java:135-150 | an appointment compares equal to itself |
| Appointments.CompareToAntisymmetric | apptbook-cmdline/src/main/java/edu/pdx/cs410J/jsl/Appointment.java:135-150 | swapping the appointments negates the result |
| Appointments.CompareToTransitive | apptbook-cmdline/src/main/java/edu/pdx/cs410J/jsl/Appointment.java:135-150 | negative results chain |
| Appointments.CompareToTransitiveLe | apptbook-cmdline/src/main/java/edu/pdx/cs410J/jsl/Appointment.java:135-150 | non-positive results chain, and strictly when either step is strict |
| Appointments.CompareToTotal | apptbook-cmdline/src/main/java/edu/pdx/cs410J/jsl/Appointment.java:135-150 | of any two appointments one compares at most equal to the other |
| Appointments.CompareToBeyondUnit | apptbook-cmdline/src/main/java/edu/pdx/cs410J/jsl/Appointment.java:128-149 | with both instants tied, descriptions "a" and "c" give -2, outside the documented -1/0/1 |
| Sorting.Sort | apptbook/src/main/java/edu/pdx/cs410J/jsl/PrettyPrinter.java:56 | the insertion sort computes `StableSorted` of its input |
| Sorting.InsertAfterEquals | apptbook/src/main/java/edu/pdx/cs410J/jsl/PrettyPrinter.java:56 | the scan computes `Insert`: the element goes in front of the first element that compares greater |
| Sorting.InsertPosition | apptbook/src/main/java/edu/pdx/cs410J/jsl/PrettyPrinter.java:56 | in a sorted list, insertion puts the element behind every element comparing at most equal to it and in front of every element comparing greater |
| Sorting.InsertPermutation | apptbook/src/main/java/edu/pdx/cs410J/jsl/PrettyPrinter.java:56 | insertion adds exactly the one element |
| Sorting.InsertSorted | apptbook/src/main/java/edu/pdx/cs410J/jsl/PrettyPrinter.java:56 | insertion into a sorted list keeps it sorted |
| Sorting.InsertKeyRun | apptbook/src/main/java/edu/pdx/cs410J/jsl/PrettyPrinter.java:56 | in a sorted list, insertion puts the element behind those comparing equal to it and keeps their order |
| Sorting.StableSortedPermutation | apptbook/src/main/java/edu/pdx/cs410J/jsl/PrettyPrinter.java:56 | sorting drops and duplicates nothing |
| Sorting.StableSortedIsSorted | apptbook/src/main/java/edu/pdx/cs410J/jsl/PrettyPrinter.java:56 | the sorted list is in non-decreasing `compareTo` order |
| Sorting.StableSortedIsStable | apptbook/src/main/java/edu/pdx/cs410J/jsl/PrettyPrinter.java:56 | appointments that compare equal keep their relative order |
| Sorting.StableSortedOfSorted | apptbook/src/main/java/edu/pdx/cs410J/jsl/PrettyPrinter.java:56 | a list already sorted is left as it is |
| Sorting.SortedRunsDetermine | apptbook/src/main/java/edu/pdx/cs410J/jsl/PrettyPrinter.java:56 | two sorted lists with the same key runs are equal |
| Sorting.StableSortedUnique | apptbook/src/main/java/edu/pdx/cs410J/jsl/PrettyPrinter.java:56 | any sorted list with the key runs of the input is `StableSorted` of it, so every stable sort gives the insertion sort's result |
| Sorting.SortIdempotent | apptbook/src/main/java/edu/pdx/cs410J/jsl/PrettyPrinter.java:56 | sorting twice gives the same list as sorting once |
| PrettyPrinting.PrintWriter.Println | apptbook/src/main/java/edu/pdx/cs410J/jsl/PrettyPrinter.java:60-68 | an open writer gains the text as one more record; a closed one drops it |
| PrettyPrinting.PrintWriter.Close | apptbook/src/main/java/edu/pdx/cs410J/jsl/PrettyPrinter.java:70 | the writer is closed and keeps what it holds |
| PrettyPrinting.PrettyPrinter.constructor | apptbook/src/main/java/edu/pdx/cs410J/jsl/PrettyPrinter.java:24-26 | the renderer writes to the given writer |
| PrettyPrinting.PrettyPrinter.Dump | apptbook/src/main/java/edu/pdx/cs410J/jsl/PrettyPrinter.java:37-42 | a book of another kind leaves the writer untouched (the call does not close it); this model's book is rendered as by `DumpToFile` |
| PrettyPrinting.PrettyPrinter.DumpToFile | apptbook/src/main/java/edu/pdx/cs410J/jsl/PrettyPrinter.java:52-71 | the book's list becomes its stable sort; the writer gains the report of the sorted list after what it held, and is closed |
| PrettyPrinting.PrettyPrinter.PrintAppointments | apptbook/src/main/java/edu/pdx/cs410J/jsl/PrettyPrinter.java:58-69 | the loop writes the blocks of the list in order, numbered from 1 |
| PrettyPrinting.PrettyPrinter.PrintBlock | apptbook/src/main/java/edu/pdx/cs410J/jsl/PrettyPrinter.java:65-68 | one iteration writes the four records of one appointment |
| PrettyPrinting.BlocksAppend | apptbook/src/main/java/edu/pdx/cs410J/jsl/PrettyPrinter.java:64-69 | one more appointment adds its block, numbered one past the previous ones, at the end |
| PrettyPrinting.BlocksAt | apptbook/src/main/java/edu/pdx/cs410J/jsl/PrettyPrinter.java:64-69 | the j-th group of four records is the block of the j-th appointment, numbered first + j |
| PrettyPrinting.ReportShape | apptbook/src/main/java/edu/pdx/cs410J/jsl/PrettyPrinter.java:60-69 | the report is 3 + 4n records beginning with the three header records |
| PrettyPrinting.ReportEmpty | apptbook/src/main/java/edu/pdx/cs410J/jsl/PrettyPrinter.java:60-64 | with no appointments only the header is written |
| PrettyPrinting.ReportEntry | apptbook/src/main/java/edu/pdx/cs410J/jsl/PrettyPrinter.java:64-69 | records 3 + 4j to 6 + 4j are the number j + 1, the description, the two pretty instants and the duration line of the j-th appointment, and the number reads back as j + 1 |
| PrettyPrinting.ReportLineCount | apptbook/src/main/java/edu/pdx/cs410J/jsl/PrettyPrinter.java:60-69 | with single-line owner name, descriptions and pretty instants, the records make 4 + 4n lines of text |
| PrettyPrinting.HeaderLineCount | apptbook/src/main/java/edu/pdx/cs410J/jsl/PrettyPrinter.java:60-62 | with a single-line owner name, the header records make four lines of text |
| PrettyPrinting.PrintedLineCount | apptbook/src/main/java/edu/pdx/cs410J/jsl/PrettyPrinter.java:60-69 | the printed text (each record followed by its line feed) has exactly as many line feeds as the records make lines |
| PrettyPrinting.HeaderText | apptbook/src/main/java/edu/pdx/cs410J/jsl/PrettyPrinter.java:60-62 | the header prints as "1. Appointment Book Information", the owner line, an empty line and "2. Appointments", each ended by a line feed |
| PrettyPrinting.ReportText | apptbook/src/main/java/edu/pdx/cs410J/jsl/PrettyPrinter.java:60-69 | the dumped text is that header text followed by the printed blocks |
| PrettyPrinting.BlockLineCount | apptbook/src/main/java/edu/pdx/cs410J/jsl/PrettyPrinter.java:65-68 | a block of a single-line appointment is four lines of text |
| PrettyPrinting.DumpedListIsSortedPermutation | apptbook/src/main/java/edu/pdx/cs410J/jsl/PrettyPrinter.java:55-56 | after a dump the book's list is sorted, a permutation of the old list, and stable |

## Left out

- Date parsing is a parameter (`DateParser`). This covers `DateFormat.getDateTimeInstance(SHORT, SHORT, Locale.ENGLISH).parse`, its locale, its time zone and its acceptance of a valid prefix of the text. The model shows only where the constructor calls the parser and what it does with the result.
- The pretty date formatter that `dumpToFile` calls is a parameter (`PrettyFormat`). It belongs to a `DateUtility` class of the server, which is not part of this model.
- The browser client's format and parse helpers (`parseDateToStringWithoutTime`, `parseDateToStringPrettyPrint`, `parseDateToString`, `parseStringToDate`) wrap library formatters. They are not modelled.
- `getBeginTimeString` and `getEndTimeString` return `Date.toString()`, which depends on the default time zone. They are not modelled. The other getters are the fields of the `Appointment` datatype.
- The Java classes `AbstractAppointment`, `AbstractAppointmentBook` and `AppointmentBook` are not shown. The model's `AppointmentBook` class holds only the owner name and the list. `getAppointments` is taken to hand out the book's own list, so the sort reorders the book.
- Sorting.Sort: sorts a sequence value that `DumpToFile` assigns back to the book, rather than swapping the elements of a shared list in place. Another holder of the same list object is therefore not modelled.
- `Collections.sort` is modelled by an insertion sort, not by the library's merge sort. Both are stable, and `StableSortedUnique` proves that a sorted list keeping every key run in order is the insertion sort's result.
- The server's `Appointment` class, which `PrettyPrinter` sorts (`Collections.sort` at apptbook/src/main/java/edu/pdx/cs410J/jsl/PrettyPrinter.java:56) and whose `getDurationInMinutes` it prints (:68), is not shown. It is assumed to behave as the command-line `Appointment`: its constructor, `compareTo` and `getDurationInMinutes`. The servlet builds it the same way, with `new Appointment(description, beginTime, endTime)` catching `ParseException` (apptbook/src/main/java/edu/pdx/cs410J/jsl/AppointmentBookServlet.java:93-95). The report's order and every Duration line depend on this assumption.
- `getBeginTime` and `getEndTime` (apptbook-cmdline/src/main/java/edu/pdx/cs410J/jsl/Appointment.java:95, 103) hand out the record's own mutable `Date` objects. A caller could change an appointment's instants, and with them its order and duration, after construction. The modelled code never does, and the datatype does not model that aliasing.
- `PrintWriter` is modelled as the list of `println` texts and a closed flag. The following are not modelled: buffering, the platform line separator, character encoding, and the I/O errors a `PrintWriter` swallows. The `IOException` in the signatures is never thrown by this code.
- The appointment counter `i` is a Java `int`. Its wrap-around after 2^31 - 1 appointments is not modelled; the model numbers with unbounded integers.
- DateUtility.MinutesBetweenWholeMinutes: proved only while |end - begin| < 2^31 minutes (`SpanFits`), slightly short of every case where the result fits an `int`. Past that range the cast wraps, as `MinutesBetweenWrapsPastIntRange` shows.
- DateUtility.MinutesBetweenAntisymmetric: excludes a result of -2^31 and a `long` difference that wraps. At -2^31 the law fails, as `MinutesBetweenWrapsPastIntRange` shows; only Java's wrapping `int` negation would restore it.
- DateUtility.MinutesBetweenMonotone: proved only under `SpanFits`. Past that range the `int` cast wraps and a longer span can give fewer minutes.
- Appointments.DurationMeaning: holds only under `SpanFits`, for the same reason.
- Appointments.EndBeforeBeginAccepted: states the sign of the duration only under `SpanFits`. Past that range the `(int)` cast can make the duration of an end before the begin positive, as `EndBeforeBeginWrapsPositive` shows. Acceptance itself needs no such condition; `NewAppointment` states it.
- PrettyPrinting.ReportLineCount: assumes that the owner name, the descriptions and the pretty instants contain no line feed. A line feed in any of them adds text lines.
- Java `char` is a UTF-16 code unit; Dafny's `char` is a Unicode scalar value. `String.compareTo` is modelled on Dafny characters, so strings outside the Basic Multilingual Plane may compare differently.
- Null arguments, and the `NullPointerException`s they would cause, are not modelled.
- The servlet (`AppointmentBookServlet`) is HTTP glue around a map and is not modelled.
