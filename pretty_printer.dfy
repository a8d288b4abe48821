/** The server's `PrettyPrinter`: it sorts an appointment book's list in
    place, then writes a fixed header and a four-line block per appointment,
    numbered from 1, to its `PrintWriter`, and closes it. */
module PrettyPrinting {
  import opened JavaLang
  import opened Appointments
  import opened Sorting

  /** The pretty date formatter the renderer calls on each instant. It
      belongs to the server's own date utility class, which is not part of
      this model, so it is a parameter. */
  type PrettyFormat = Long -> string

  /** A `PrintWriter`: the text of each `println` call, one entry per call,
      and whether the writer has been closed. A closed `PrintWriter` drops
      what is written to it. */
  class PrintWriter {
    var lines: seq<string>
    var closed: bool

    constructor ()
      ensures lines == [] && !closed
    {
      lines := [];
      closed := false;
    }

    method Println(text: string)
      modifies this
      ensures closed == old(closed)
      ensures lines == if old(closed) then old(lines) else old(lines) + [text]
    {
      if !closed {
        lines := lines + [text];
      }
    }

    method Close()
      modifies this
      ensures closed && lines == old(lines)
    {
      closed := true;
    }
  }

  /** An appointment book: its owner and the list `getAppointments` hands
      out, which a caller may reorder in place. */
  class AppointmentBook {
    const ownerName: string
    var appointments: seq<Appointment>

    constructor (ownerName: string, appointments: seq<Appointment>)
      ensures this.ownerName == ownerName && this.appointments == appointments
    {
      this.ownerName := ownerName;
      this.appointments := appointments;
    }
  }

  /** The argument of `dump`: a book of the class above, or a book of some
      other subclass of the abstract appointment book. */
  datatype DumpArgument = JslBook(book: AppointmentBook) | OtherBook
  {
    function Footprint(): set<object>
    {
      if JslBook? then {book} else {}
    }
  }

  // ---------------------------------------------------------------------
  // The report, as the sequence of printed lines

  function Header(ownerName: string): seq<string>
  {
    ["1. Appointment Book Information", " 1) Owner Name: " + ownerName + "\n", "2. Appointments"]
  }

  function AppointmentBlock(a: Appointment, number: int, pretty: PrettyFormat): seq<string>
  {
    [ " " + IntToString(number) + ") Appointment: " + a.description,
      "    Begin Time:  " + pretty(a.beginTime),
      "    End Time:    " + pretty(a.endTime),
      "    Duration:    " + IntToString(DurationInMinutes(a)) + " Minutes" ]
  }

  /** The blocks of `apps`, numbered from `first` on. */
  function Blocks(apps: seq<Appointment>, first: int, pretty: PrettyFormat): seq<string>
  {
    if apps == [] then []
    else AppointmentBlock(apps[0], first, pretty) + Blocks(apps[1..], first + 1, pretty)
  }

  function Report(ownerName: string, apps: seq<Appointment>, pretty: PrettyFormat): seq<string>
  {
    Header(ownerName) + Blocks(apps, 1, pretty)
  }

  lemma {:induction false} BlocksAppend(apps: seq<Appointment>, x: Appointment, first: int, pretty: PrettyFormat)
    ensures Blocks(apps + [x], first, pretty)
      == Blocks(apps, first, pretty) + AppointmentBlock(x, first + |apps|, pretty)
  {
    if apps == [] {
      assert [x][1..] == [];
    } else {
      assert (apps + [x])[1..] == apps[1..] + [x];
      BlocksAppend(apps[1..], x, first + 1, pretty);
    }
  }

  lemma {:induction false} BlocksLength(apps: seq<Appointment>, first: int, pretty: PrettyFormat)
    ensures |Blocks(apps, first, pretty)| == 4 * |apps|
  {
    if apps != [] {
      BlocksLength(apps[1..], first + 1, pretty);
    }
  }

  lemma {:induction false} BlocksAt(apps: seq<Appointment>, first: int, pretty: PrettyFormat, j: nat)
    requires j < |apps|
    ensures |Blocks(apps, first, pretty)| == 4 * |apps|
    ensures Blocks(apps, first, pretty)[4 * j..4 * j + 4] == AppointmentBlock(apps[j], first + j, pretty)
  {
    BlocksLength(apps, first, pretty);
    var head := AppointmentBlock(apps[0], first, pretty);
    var rest := Blocks(apps[1..], first + 1, pretty);
    assert Blocks(apps, first, pretty) == head + rest;
    if j > 0 {
      BlocksAt(apps[1..], first + 1, pretty, j - 1);
    }
    QuadAfterHead(head, rest, j);
  }

  /** The j-th group of four lines behind a four-line head. */
  lemma QuadAfterHead(head: seq<string>, rest: seq<string>, j: nat)
    requires |head| == 4 && 4 * j <= |rest|
    ensures (head + rest)[4 * j..4 * j + 4] == if j == 0 then head else rest[4 * j - 4..4 * j]
  {
    if j == 0 {
      assert (head + rest)[..4] == head;
    }
  }

  /** The report is the three header lines followed by four lines per
      appointment. */
  lemma ReportShape(ownerName: string, apps: seq<Appointment>, pretty: PrettyFormat)
    ensures |Report(ownerName, apps, pretty)| == 3 + 4 * |apps|
    ensures Report(ownerName, apps, pretty)[..3] ==
      ["1. Appointment Book Information", " 1) Owner Name: " + ownerName + "\n", "2. Appointments"]
  {
    if apps != [] {
      BlocksAt(apps, 1, pretty, 0);
    }
  }

  /** With no appointments only the header is written. */
  lemma ReportEmpty(ownerName: string, pretty: PrettyFormat)
    ensures Report(ownerName, [], pretty) == Header(ownerName)
  {
  }

  /** The j-th appointment (from 0) fills lines 3 + 4j to 6 + 4j: its number
      j + 1, its description, its two pretty-printed instants and its
      duration in minutes. */
  lemma ReportEntry(ownerName: string, apps: seq<Appointment>, pretty: PrettyFormat, j: nat)
    requires j < |apps|
    ensures var r := Report(ownerName, apps, pretty); var a := apps[j];
      && |r| == 3 + 4 * |apps|
      && r[3 + 4 * j] == " " + IntToString(j + 1) + ") Appointment: " + a.description
      && r[4 + 4 * j] == "    Begin Time:  " + pretty(a.beginTime)
      && r[5 + 4 * j] == "    End Time:    " + pretty(a.endTime)
      && r[6 + 4 * j] == "    Duration:    " + IntToString(DurationInMinutes(a)) + " Minutes"
    ensures AllDigits(IntToString(j + 1)) && DigitsValue(IntToString(j + 1)) == j + 1
  {
    ReportBlockAt(ownerName, apps, pretty, j);
    var block := Report(ownerName, apps, pretty)[3 + 4 * j..7 + 4 * j];
    assert block[0] == Report(ownerName, apps, pretty)[3 + 4 * j];
    assert block[1] == Report(ownerName, apps, pretty)[4 + 4 * j];
    assert block[2] == Report(ownerName, apps, pretty)[5 + 4 * j];
    assert block[3] == Report(ownerName, apps, pretty)[6 + 4 * j];
    IntToStringRoundTrip(j + 1);
  }

  /** The four lines of the j-th appointment sit behind the header and the
      j blocks before them. */
  lemma ReportBlockAt(ownerName: string, apps: seq<Appointment>, pretty: PrettyFormat, j: nat)
    requires j < |apps|
    ensures |Report(ownerName, apps, pretty)| == 3 + 4 * |apps|
    ensures Report(ownerName, apps, pretty)[3 + 4 * j..7 + 4 * j] == AppointmentBlock(apps[j], j + 1, pretty)
  {
    BlocksAt(apps, 1, pretty, j);
    var b := Blocks(apps, 1, pretty);
    assert Report(ownerName, apps, pretty)[3 + 4 * j..7 + 4 * j] == b[4 * j..4 * j + 4];
  }

  /** Writing the block of `apps[k]` behind those of `apps[..k]` gives
      the blocks of `apps[..k + 1]`. */
  lemma BlocksStep(lines: seq<string>, apps: seq<Appointment>, k: nat, pretty: PrettyFormat)
    requires k < |apps|
    ensures lines + Blocks(apps[..k], 1, pretty) + AppointmentBlock(apps[k], k + 1, pretty)
      == lines + Blocks(apps[..k + 1], 1, pretty)
  {
    assert apps[..k + 1] == apps[..k] + [apps[k]];
    BlocksAppend(apps[..k], apps[k], 1, pretty);
    AppendAssociative(lines, Blocks(apps[..k], 1, pretty), AppointmentBlock(apps[k], k + 1, pretty));
  }

  lemma AppendAssociative(a: seq<string>, b: seq<string>, c: seq<string>)
    ensures a + b + c == a + (b + c)
  {
  }

  // ---------------------------------------------------------------------
  // The report as text

  /** The line feeds in a printed record. */
  function NewlineCount(s: string): nat
  {
    if s == [] then 0 else (if s[0] == '\n' then 1 else 0) + NewlineCount(s[1..])
  }

  /** The lines of text the records make once printed: each `println` ends
      one line, and each line feed inside a record ends another. */
  function LineCount(records: seq<string>): nat
  {
    if records == [] then 0 else 1 + NewlineCount(records[0]) + LineCount(records[1..])
  }

  lemma {:induction false} NewlineCountAppend(a: string, b: string)
    ensures NewlineCount(a + b) == NewlineCount(a) + NewlineCount(b)
  {
    if a == [] {
      assert a + b == b;
    } else {
      assert (a + b)[1..] == a[1..] + b;
      NewlineCountAppend(a[1..], b);
    }
  }

  lemma {:induction false} NewlineFree(s: string)
    requires '\n' !in s
    ensures NewlineCount(s) == 0
  {
    if s != [] {
      assert s[0] in s;
      assert forall c | c in s[1..] :: c in s;
      NewlineFree(s[1..]);
    }
  }

  lemma {:induction false} LineCountAppend(a: seq<string>, b: seq<string>)
    ensures LineCount(a + b) == LineCount(a) + LineCount(b)
  {
    if a == [] {
      assert a + b == b;
    } else {
      assert (a + b)[1..] == a[1..] + b;
      LineCountAppend(a[1..], b);
    }
  }

  /** A number in decimal has no line feed. */
  lemma IntToStringNewlineFree(i: int)
    ensures '\n' !in IntToString(i)
  {
    IntToStringRoundTrip(i);
    var s := IntToString(i);
    forall k | 0 <= k < |s|
      ensures s[k] != '\n'
    {
      if i < 0 && k > 0 {
        assert s[k] == s[1..][k - 1];
      }
    }
  }

  /** The texts an appointment block is made of, other than its constant
      labels, are free of line feeds. */
  predicate PrintsOnOneLine(a: Appointment, pretty: PrettyFormat)
  {
    '\n' !in a.description && '\n' !in pretty(a.beginTime) && '\n' !in pretty(a.endTime)
  }

  /** Each block is four lines of text. */
  lemma BlockLineCount(a: Appointment, number: int, pretty: PrettyFormat)
    requires PrintsOnOneLine(a, pretty)
    ensures LineCount(AppointmentBlock(a, number, pretty)) == 4
  {
    IntToStringNewlineFree(number);
    IntToStringNewlineFree(DurationInMinutes(a));
    var b := AppointmentBlock(a, number, pretty);
    NewlineFree(b[0]);
    NewlineFree(b[1]);
    NewlineFree(b[2]);
    NewlineFree(b[3]);
    LineCountOfFour(b);
  }

  lemma LineCountOfFour(b: seq<string>)
    requires |b| == 4
    ensures LineCount(b) == 4 + NewlineCount(b[0]) + NewlineCount(b[1]) + NewlineCount(b[2]) + NewlineCount(b[3])
  {
    var b1 := b[1..];
    var b2 := b1[1..];
    var b3 := b2[1..];
    assert b1[0] == b[1] && b2[0] == b[2] && b3[0] == b[3] && b3[1..] == [];
    assert LineCount(b) == 1 + NewlineCount(b[0]) + LineCount(b1);
    assert LineCount(b1) == 1 + NewlineCount(b[1]) + LineCount(b2);
    assert LineCount(b2) == 1 + NewlineCount(b[2]) + LineCount(b3);
    assert LineCount(b3) == 1 + NewlineCount(b[3]);
  }

  lemma LineCountOfThree(b: seq<string>)
    requires |b| == 3
    ensures LineCount(b) == 3 + NewlineCount(b[0]) + NewlineCount(b[1]) + NewlineCount(b[2])
  {
    var b1 := b[1..];
    var b2 := b1[1..];
    assert b1[0] == b[1] && b2[0] == b[2];
    assert LineCount(b2) == 1 + NewlineCount(b[2]) + LineCount(b2[1..]);
    assert b2[1..] == [];
  }

  lemma {:induction false} BlocksLineCount(apps: seq<Appointment>, first: int, pretty: PrettyFormat)
    requires forall j :: 0 <= j < |apps| ==> PrintsOnOneLine(apps[j], pretty)
    ensures LineCount(Blocks(apps, first, pretty)) == 4 * |apps|
  {
    if apps != [] {
      BlockLineCount(apps[0], first, pretty);
      BlocksLineCount(apps[1..], first + 1, pretty);
      LineCountAppend(AppointmentBlock(apps[0], first, pretty), Blocks(apps[1..], first + 1, pretty));
    }
  }

  /** When the owner's name and the appointment texts are single lines, the
      report is four header lines (the owner line is followed by an empty line) and
      four lines per appointment. */
  lemma ReportLineCount(ownerName: string, apps: seq<Appointment>, pretty: PrettyFormat)
    requires '\n' !in ownerName
    requires forall j :: 0 <= j < |apps| ==> PrintsOnOneLine(apps[j], pretty)
    ensures LineCount(Report(ownerName, apps, pretty)) == 4 + 4 * |apps|
  {
    HeaderLineCount(ownerName);
    BlocksLineCount(apps, 1, pretty);
    LineCountAppend(Header(ownerName), Blocks(apps, 1, pretty));
  }

  lemma HeaderLineCount(ownerName: string)
    requires '\n' !in ownerName
    ensures LineCount(Header(ownerName)) == 4
  {
    ThreeRecordsFourLines(Header(ownerName), " 1) Owner Name: " + ownerName);
  }

  /** The text the records make once printed: each record followed by the
      line feed `println` adds. */
  function Printed(records: seq<string>): string
  {
    if records == [] then "" else records[0] + "\n" + Printed(records[1..])
  }

  lemma {:induction false} PrintedAppend(a: seq<string>, b: seq<string>)
    ensures Printed(a + b) == Printed(a) + Printed(b)
  {
    if a != [] {
      assert (a + b)[1..] == a[1..] + b;
      PrintedAppend(a[1..], b);
    } else {
      assert a + b == b;
    }
  }

  /** The printed text has exactly `LineCount` line feeds, so `LineCount`
      counts its lines. */
  lemma {:induction false} PrintedLineCount(records: seq<string>)
    ensures NewlineCount(Printed(records)) == LineCount(records)
  {
    if records != [] {
      PrintedLineCount(records[1..]);
      NewlineCountAppend(records[0] + "\n", Printed(records[1..]));
      NewlineCountAppend(records[0], "\n");
      assert NewlineCount("\n") == 1;
    }
  }

  /** The header as text: the owner line is followed by an empty line, as
      the owner record ends in its own line feed. */
  lemma HeaderText(ownerName: string)
    ensures Printed(Header(ownerName)) ==
      "1. Appointment Book Information" + "\n"
      + " 1) Owner Name: " + ownerName + "\n" + "\n"
      + "2. Appointments" + "\n"
  {
    PrintedThree("1. Appointment Book Information", " 1) Owner Name: " + ownerName + "\n", "2. Appointments");
  }

  lemma PrintedThree(a: string, b: string, c: string)
    ensures Printed([a, b, c]) == a + "\n" + b + "\n" + c + "\n"
  {
    assert [a, b, c][1..] == [b, c] && [b, c][1..] == [c] && [c][1..] == [];
    assert Printed([c]) == c + "\n";
    assert Printed([b, c]) == b + "\n" + (c + "\n");
  }

  /** The dumped text is the header text followed by the blocks' text. */
  lemma ReportText(ownerName: string, apps: seq<Appointment>, pretty: PrettyFormat)
    ensures Printed(Report(ownerName, apps, pretty)) ==
      "1. Appointment Book Information" + "\n"
      + " 1) Owner Name: " + ownerName + "\n" + "\n"
      + "2. Appointments" + "\n"
      + Printed(Blocks(apps, 1, pretty))
  {
    PrintedAppend(Header(ownerName), Blocks(apps, 1, pretty));
    HeaderText(ownerName);
  }

  /** Three records, the middle one ending in its only line feed. */
  lemma ThreeRecordsFourLines(h: seq<string>, name: string)
    requires |h| == 3 && h[1] == name + "\n"
    requires '\n' !in h[0] && '\n' !in name && '\n' !in h[2]
    ensures LineCount(h) == 4
  {
    NewlineFree(h[0]);
    NewlineFree(name);
    NewlineFree(h[2]);
    NewlineCountAppend(name, "\n");
    LineCountOfThree(h);
  }

  // ---------------------------------------------------------------------
  // The renderer

  class PrettyPrinter {
    const printWriter: PrintWriter

    constructor (printWriter: PrintWriter)
      ensures this.printWriter == printWriter
    {
      this.printWriter := printWriter;
    }

    /** `dump`: renders only a book of the class above; any other book is
      ignored and the writer is left as it was. */
    method Dump(argument: DumpArgument, pretty: PrettyFormat)
      modifies printWriter, argument.Footprint()
      ensures argument.OtherBook? ==> unchanged(printWriter)
      ensures argument.JslBook? ==>
        var book := argument.book;
        && book.appointments == StableSorted(old(book.appointments))
        && printWriter.closed
        && printWriter.lines == old(printWriter.lines)
             + (if old(printWriter.closed) then [] else Report(book.ownerName, book.appointments, pretty))
    {
      if argument.JslBook? {
        DumpToFile(argument.book, pretty);
      }
    }

    /** `dumpToFile`: sorts the book's list in place, writes the header and
      the numbered blocks in sorted order, and closes the writer. */
    method DumpToFile(book: AppointmentBook, pretty: PrettyFormat)
      modifies printWriter, book
      ensures book.appointments == StableSorted(old(book.appointments))
      ensures printWriter.closed
      ensures printWriter.lines == old(printWriter.lines)
        + (if old(printWriter.closed) then [] else Report(book.ownerName, book.appointments, pretty))
    {
      var ownerName := book.ownerName;
      var listOfAppointments := Sort(book.appointments);
      book.appointments := listOfAppointments;

      ghost var before, open := printWriter.lines, !printWriter.closed;
      printWriter.Println("1. Appointment Book Information");
      printWriter.Println(" 1) Owner Name: " + ownerName + "\n");
      printWriter.Println("2. Appointments");
      assert printWriter.lines == before + (if open then Header(ownerName) else []);

      PrintAppointments(listOfAppointments, pretty);
      if open {
        AppendAssociative(before, Header(ownerName), Blocks(listOfAppointments, 1, pretty));
      }
      printWriter.Close();
    }

    /** The loop over the sorted list, with the counter `i` numbering the
      appointments from 1. */
    method PrintAppointments(listOfAppointments: seq<Appointment>, pretty: PrettyFormat)
      modifies printWriter
      ensures printWriter.closed == old(printWriter.closed)
      ensures printWriter.lines == old(printWriter.lines)
        + (if old(printWriter.closed) then [] else Blocks(listOfAppointments, 1, pretty))
    {
      var i := 1;
      var k := 0;
      while k < |listOfAppointments|
        invariant 0 <= k <= |listOfAppointments| && i == k + 1
        invariant printWriter.closed == old(printWriter.closed)
        invariant printWriter.lines == old(printWriter.lines)
          + (if old(printWriter.closed) then [] else Blocks(listOfAppointments[..k], 1, pretty))
      {
        var app := listOfAppointments[k];
        PrintBlock(app, i, pretty);
        i := i + 1;
        BlocksStep(old(printWriter.lines), listOfAppointments, k, pretty);
        k := k + 1;
      }
      assert listOfAppointments[..k] == listOfAppointments;
    }

    /** The body of the loop over the sorted list: the four lines of one
      appointment, the first carrying its number. */
    method PrintBlock(app: Appointment, i: int, pretty: PrettyFormat)
      modifies printWriter
      ensures printWriter.closed == old(printWriter.closed)
      ensures printWriter.lines == old(printWriter.lines)
        + (if old(printWriter.closed) then [] else AppointmentBlock(app, i, pretty))
    {
      printWriter.Println(" " + IntToString(i) + ") Appointment: " + app.description);
      printWriter.Println("    Begin Time:  " + pretty(app.beginTime));
      printWriter.Println("    End Time:    " + pretty(app.endTime));
      printWriter.Println("    Duration:    " + IntToString(DurationInMinutes(app)) + " Minutes");
    }
  }

  /** What a dump leaves in the book: the old appointments, nothing dropped
      or repeated, in non-decreasing `compareTo` order, with appointments
      that compare equal in their old relative order. */
  lemma DumpedListIsSortedPermutation(before: seq<Appointment>, k: SortKey)
    ensures var now := StableSorted(before);
      && Sorted(now) && multiset(now) == multiset(before) && KeyRun(now, k) == KeyRun(before, k)
  {
    StableSortedIsSorted(before);
    StableSortedPermutation(before);
    StableSortedIsStable(before, k);
  }
}
