/**
  `main`: read and filter the records, sort them by birthdate, then print them one by one,
  stopping at the first record `print_record` refuses.
*/
module Program {
  import opened Results
  import opened Calendar
  import opened DateFormat
  import opened Reminder
  import opened Sorting

  /** What makes the program exit with an error. */
  datatype MainError = ReadFailed(error: RowError) | PrintFailed(message: string)

  /** The lines printed, and the first `print_record` error, if any. */
  datatype Printout = Printout(lines: seq<Line>, failure: Option<string>)

  /** The `for` loop of `main`: print each record; the first error ends the loop. */
  function PrintAll(records: seq<Record>, today: NaiveDate): Printout
  {
    if records == [] then Printout([], None)
    else
      match PrintRecord(records[0], today)
      case Err(message) => Printout([], Some(message))
      case Ok(line) =>
        var rest := PrintAll(records[1..], today);
        Printout([line] + rest.lines, rest.failure)
  }

  predicate AllDated(records: seq<Record>) {
    forall i :: 0 <= i < |records| ==> records[i].birthdate.Some?
  }

  /** The line of each record, in order. */
  function Rendered(records: seq<Record>, today: NaiveDate): (lines: seq<Line>)
    requires AllDated(records)
    ensures |lines| == |records|
    ensures forall i :: 0 <= i < |records| ==> PrintRecord(records[i], today) == Ok(lines[i])
  {
    if records == [] then []
    else [PrintRecord(records[0], today).value] + Rendered(records[1..], today)
  }

  /** Every record has a date: every line is printed and nothing fails. */
  lemma {:induction false} PrintAllSucceeds(records: seq<Record>, today: NaiveDate)
    requires AllDated(records)
    ensures PrintAll(records, today) == Printout(Rendered(records, today), None)
  {
    if records != [] {
      PrintAllSucceeds(records[1..], today);
    }
  }

  /** A record without a date stops the loop: the lines before it are printed, then the error. */
  lemma {:induction false} PrintAllStops(records: seq<Record>, today: NaiveDate) returns (i: nat)
    requires !AllDated(records)
    ensures i < |records| && records[i].birthdate.None? && AllDated(records[..i])
    ensures PrintAll(records, today) == Printout(Rendered(records[..i], today), Some(MissingDate))
  {
    if records[0].birthdate.None? {
      i := 0;
      assert records[..0] == [];
    } else {
      var tail := records[1..];
      assert !AllDated(tail) by {
        var j :| 0 <= j < |records| && records[j].birthdate.None?;
        assert tail[j - 1] == records[j];
      }
      var i' := PrintAllStops(tail, today);
      i := i' + 1;
      assert records[..i] == [records[0]] + tail[..i'];
      assert records[..i][1..] == tail[..i'];
    }
  }

  /** The whole program on the rows of the file, as a function: the lines printed and the exit status. */
  function Pipeline(rows: seq<Row>, currentYear: int, today: NaiveDate, days: int): (seq<Line>, Result<(), MainError>)
  {
    match ReadRecords(rows, currentYear, today, days)
    case Err(e) => ([], Err(ReadFailed(e)))
    case Ok(records) =>
      var out := PrintAll(SortByBirthdate(records), today);
      (out.lines, if out.failure.Some? then Err(PrintFailed(out.failure.value)) else Ok(()))
  }

  /** `main`, with the rows of the file, the current year, today and `--days` passed in. */
  method Run(rows: seq<Row>, currentYear: int, today: NaiveDate, days: int)
    returns (printed: seq<Line>, result: Result<(), MainError>)
    ensures (printed, result) == Pipeline(rows, currentYear, today, days)
  {
    var read := ReadRecords(rows, currentYear, today, days);
    if read.Err? {
      return [], Err(ReadFailed(read.error));
    }
    var records := read.value;
    var a := new Record[|records|](i requires 0 <= i < |records| => records[i]);
    assert a[..] == records;
    SortRecords(a);
    var failure: Option<string> := None;
    printed := [];
    if a.Length > 0 {
      printed, failure := PrintRecords(a, today);
    }
    result := if failure.Some? then Err(PrintFailed(failure.value)) else Ok(());
  }

  /** The `for` loop of `main` over the sorted records. */
  method PrintRecords(a: array<Record>, today: NaiveDate) returns (printed: seq<Line>, failure: Option<string>)
    ensures Printout(printed, failure) == PrintAll(a[..], today)
  {
    printed := [];
    for i := 0 to a.Length
      invariant PrintAll(a[..], today)
        == Printout(printed + PrintAll(a[i..], today).lines, PrintAll(a[i..], today).failure)
    {
      var line := PrintRecord(a[i], today);
      assert a[i..][0] == a[i] && a[i..][1..] == a[i + 1..];
      if line.Err? {
        return printed, Some(line.error);
      }
      printed := printed + [line.value];
    }
    failure := None;
  }

  /** The records `main` prints: those `read_records` keeps, stably sorted by birthdate. */
  lemma SortedKeptAreUpcoming(rows: seq<Row>, currentYear: int, today: NaiveDate, days: int)
    requires ReadRecords(rows, currentYear, today, days).Ok?
    ensures var sorted := SortByBirthdate(ReadRecords(rows, currentYear, today, days).value);
      AllDated(sorted) && forall i :: 0 <= i < |sorted| ==> Upcoming(sorted[i], today, days)
  {
    var kept := ReadRecords(rows, currentYear, today, days).value;
    var sorted := SortByBirthdate(kept);
    ReadRecordsUpcoming(rows, currentYear, today, days);
    SortPermutes(kept);
    forall i | 0 <= i < |sorted| ensures Upcoming(sorted[i], today, days) {
      assert sorted[i] in multiset(kept);
    }
  }

  /** `print_record`'s "Missing date error" cannot happen in `main`: the filter drops every dateless record. */
  lemma MissingDateUnreachable(rows: seq<Row>, currentYear: int, today: NaiveDate, days: int)
    ensures !Pipeline(rows, currentYear, today, days).1.Err? || Pipeline(rows, currentYear, today, days).1.error.ReadFailed?
  {
    if ReadRecords(rows, currentYear, today, days).Ok? {
      SortedKeptAreUpcoming(rows, currentYear, today, days);
      PrintAllSucceeds(SortByBirthdate(ReadRecords(rows, currentYear, today, days).value), today);
    }
  }

  /** A bad row anywhere: nothing is printed and the program fails with the first row's error. */
  lemma PipelineFails(rows: seq<Row>, currentYear: int, today: NaiveDate, days: int) returns (i: nat)
    requires exists j :: 0 <= j < |rows| && DeserializeRow(rows[j], currentYear).Err?
    ensures i < |rows| && DeserializeRow(rows[i], currentYear).Err?
    ensures forall j :: 0 <= j < i ==> DeserializeRow(rows[j], currentYear).Ok?
    ensures Pipeline(rows, currentYear, today, days) == ([], Err(ReadFailed(DeserializeRow(rows[i], currentYear).error)))
  {
    i := ReadRecordsFails(rows, currentYear, today, days);
  }

  /**
    Every row good: the program succeeds and prints one line per upcoming record, in the
    order of the stable sort by birthdate, each line red exactly when its birthday is at most
    two days away, and no red line after a yellow one.
  */
  lemma PipelineSucceeds(rows: seq<Row>, currentYear: int, today: NaiveDate, days: int)
    requires forall j :: 0 <= j < |rows| ==> DeserializeRow(rows[j], currentYear).Ok?
    ensures ReadRecords(rows, currentYear, today, days).Ok?
    ensures var kept := ReadRecords(rows, currentYear, today, days).value;
      var sorted := SortByBirthdate(kept);
      var (printed, result) := Pipeline(rows, currentYear, today, days);
      && result == Ok(())
      && Sorted(sorted) && SameOrderPerKey(sorted, kept) && multiset(sorted) == multiset(kept)
      && AllDated(sorted) && printed == Rendered(sorted, today)
      && (forall i :: 0 <= i < |printed| ==>
            (printed[i].tier == Red <==> DaysBetween(today, sorted[i].birthdate.value) <= UrgentDays))
      && (forall i, j :: 0 <= i < j < |printed| && printed[i].tier == Yellow ==> printed[j].tier == Yellow)
  {
    var idx := ReadRecordsSelects(rows, currentYear, today, days);
    var kept := ReadRecords(rows, currentYear, today, days).value;
    var sorted := SortByBirthdate(kept);
    SortedKeptAreUpcoming(rows, currentYear, today, days);
    SortSorts(kept);
    SortIsStable(kept);
    SortPermutes(kept);
    PrintAllSucceeds(sorted, today);
    var printed := Rendered(sorted, today);
    forall i, j | 0 <= i < j < |printed| && printed[i].tier == Yellow ensures printed[j].tier == Yellow {
      var di, dj := sorted[i].birthdate.value, sorted[j].birthdate.value;
      assert KeyLe(sorted[i].birthdate, sorted[j].birthdate);
      DayNumberOrder(di, dj);
    }
  }

  /**
    A file of one well-formed row: the record is printed, with its day and month and its
    urgency, exactly when its birthday moved into the current year lies in the window.
  */
  lemma SingleRow(name: string, surname: string, d: NaiveDate, currentYear: int, today: NaiveDate, days: int)
    requires 0 <= d.year <= 9999 && IsValid(Date(currentYear, d.month, d.day))
    ensures var moved: NaiveDate := Date(currentYear, d.month, d.day);
      var r := Record(name, surname, Some(moved));
      Pipeline([Fields(name, surname, FormatDate(d))], currentYear, today, days)
      == if Upcoming(r, today, days) then ([Line(name + " " + surname + " " + DayMonth(moved), Urgency(moved, today))], Ok(()))
         else ([], Ok(()))
  {
    var moved: NaiveDate := Date(currentYear, d.month, d.day);
    var r := Record(name, surname, Some(moved));
    SingleRowRead(name, surname, d, currentYear, today, days);
    assert SortByBirthdate([r]) == [r];
    assert [r][1..] == [];
    assert PrintAll([r], today) == Printout([PrintRecord(r, today).value], None);
  }

  lemma SingleRowRead(name: string, surname: string, d: NaiveDate, currentYear: int, today: NaiveDate, days: int)
    requires 0 <= d.year <= 9999 && IsValid(Date(currentYear, d.month, d.day))
    ensures var r := Record(name, surname, Some(Date(currentYear, d.month, d.day)));
      ReadRecords([Fields(name, surname, FormatDate(d))], currentYear, today, days)
      == if Upcoming(r, today, days) then Ok([r]) else Ok([])
  {
    var r := Record(name, surname, Some(Date(currentYear, d.month, d.day)));
    SingleRowDeserialized(name, surname, d, currentYear);
    SingleRecordKept(r, today, days);
  }

  lemma SingleRowDeserialized(name: string, surname: string, d: NaiveDate, currentYear: int)
    requires 0 <= d.year <= 9999 && IsValid(Date(currentYear, d.month, d.day))
    ensures Deserialized([Fields(name, surname, FormatDate(d))], currentYear)
      == [Ok(Record(name, surname, Some(Date(currentYear, d.month, d.day))))]
  {
    DeserializeFormatted(d, currentYear);
  }

  lemma SingleRecordKept(r: Record, today: NaiveDate, days: int)
    ensures Collect(FilterMap([Ok(r)], today, days)) == if Upcoming(r, today, days) then Ok([r]) else Ok([])
  {
    SingleFiltered(Ok(r), today, days);
    var picked := Pick(Ok(r), today, days);
    if Upcoming(r, today, days) {
      assert picked == Some(Ok(r));
      SingleCollected(r);
    } else {
      assert picked == None;
    }
  }

  lemma SingleFiltered(x: Result<Record, RowError>, today: NaiveDate, days: int)
    ensures FilterMap([x], today, days) == match Pick(x, today, days) case Some(y) => [y] case None => []
  {
  }

  lemma SingleCollected(r: Record)
    ensures Collect([Ok(r)]) == Ok([r])
  {
    var rs: seq<Result<Record, RowError>> := [Ok(r)];
    assert rs[1..] == [];
    assert Collect(rs) == Ok([r] + []);
    assert [r] + [] == [r];
  }

  /** The cells and the printed day and month of the examples below. */
  lemma ExampleTexts()
    ensures FormatDate(Date(2000, 6, 2)) == "02-06-2000"
    ensures FormatDate(Date(2000, 1, 2)) == "02-01-2000"
    ensures FormatDate(Date(2000, 2, 29)) == "29-02-2000"
    ensures DayMonth(Date(2024, 6, 2)) == "2.6"
  {
  }

  /** 28 May to 2 June 2024, and 1 June to 2 June 2024. */
  lemma ExampleDistances()
    ensures DaysBetween(Date(2024, 5, 28), Date(2024, 6, 2)) == 5
    ensures DaysBetween(Date(2024, 6, 1), Date(2024, 6, 2)) == 1
    ensures DaysBetween(Date(2024, 12, 30), Date(2024, 1, 2)) < 0
  {
  }

  /**
    The cell `02-06-2000` (see `ExampleTexts`) read on 2024-05-28: the birthday is five days
    ahead, so with a window of at least five days it is printed as `Ann Lee 2.6` in yellow.
  */
  lemma ScenarioYellow(days: int)
    requires days >= 5
    ensures Pipeline([Fields("Ann", "Lee", FormatDate(Date(2000, 6, 2)))], 2024, Date(2024, 5, 28), days)
         == ([Line("Ann" + " " + "Lee" + " " + DayMonth(Date(2024, 6, 2)), Yellow)], Ok(()))
  {
    var moved: NaiveDate := Date(2024, 6, 2);
    SingleRow("Ann", "Lee", Date(2000, 6, 2), 2024, Date(2024, 5, 28), days);
    ExampleDistances();
    assert Upcoming(Record("Ann", "Lee", Some(moved)), Date(2024, 5, 28), days);
    assert Urgency(moved, Date(2024, 5, 28)) == Yellow;
  }

  /** The same row read on 2024-06-01: the birthday is tomorrow, so the line is red. */
  lemma ScenarioRed(days: int)
    requires days >= 1
    ensures Pipeline([Fields("Ann", "Lee", FormatDate(Date(2000, 6, 2)))], 2024, Date(2024, 6, 1), days)
         == ([Line("Ann" + " " + "Lee" + " " + DayMonth(Date(2024, 6, 2)), Red)], Ok(()))
  {
    var moved: NaiveDate := Date(2024, 6, 2);
    SingleRow("Ann", "Lee", Date(2000, 6, 2), 2024, Date(2024, 6, 1), days);
    ExampleDistances();
    assert Upcoming(Record("Ann", "Lee", Some(moved)), Date(2024, 6, 1), days);
    assert Urgency(moved, Date(2024, 6, 1)) == Red;
  }

  /** A row with an empty birthdate prints nothing and is no error. */
  lemma ScenarioNoDate()
    ensures Pipeline([Fields("Ann", "Lee", "")], 2024, Date(2024, 6, 1), 7) == ([], Ok(()))
  {
  }

  /**
    A 29 February birthday (the cell `29-02-2000`) in a year that has no 29 February:
    `from_ymd` rejects the moved date, so reading the file fails and nothing is printed.
  */
  lemma LeapDayBirthdayInCommonYear(today: NaiveDate, days: int)
    ensures Pipeline([Fields("Lea", "Day", FormatDate(Date(2000, 2, 29)))], 2023, today, days)
         == ([], Err(ReadFailed(BadDate(NotInYear(Date(2023, 2, 29))))))
  {
    var rows := [Fields("Lea", "Day", FormatDate(Date(2000, 2, 29)))];
    DeserializeFormatted(Date(2000, 2, 29), 2023);
    assert DeserializeRow(rows[0], 2023).Err?;
    var i := PipelineFails(rows, 2023, today, days);
  }

  /**
    The year is not rolled over: on 30 December a birthday on 2 January (the cell `02-01-2000`)
    is three days away, yet it is moved to January of the current year, lies in the past and
    is not printed.
  */
  lemma NewYearBirthdayMissed(days: int)
    ensures Pipeline([Fields("Bo", "Ek", FormatDate(Date(2000, 1, 2)))], 2024, Date(2024, 12, 30), days) == ([], Ok(()))
  {
    SingleRow("Bo", "Ek", Date(2000, 1, 2), 2024, Date(2024, 12, 30), days);
    ExampleDistances();
  }
}
