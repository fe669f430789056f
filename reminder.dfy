/**
  The records of the birthday file and the two per-record steps of the program:
  `read_records` (deserialise every row, keep the birthdays inside the look-ahead window)
  and `print_record` (one output line per record, coloured by urgency).
*/
module Reminder {
  import opened Results
  import opened Calendar
  import opened Decimal
  import opened Text
  import opened DateFormat

  datatype Record = Record(name: string, surname: string, birthdate: Option<NaiveDate>)

  /** One data row as the CSV reader hands it over: three cells, or a row it could not split. */
  datatype Row =
    | Fields(name: string, surname: string, birthdate: string)
    | Malformed(reason: string)

  /** A `csv::Error` raised while reading or deserialising one row. */
  datatype RowError = CsvError(reason: string) | BadDate(error: DateError)

  /** Deserialising one row into a `Record`; the birthdate cell goes through `my_date_format`. */
  function DeserializeRow(row: Row, currentYear: int): (r: Result<Record, RowError>)
    ensures row.Malformed? ==> r == Err(CsvError(row.reason))
    ensures row.Fields? && Deserialize(row.birthdate, currentYear).Err? ==>
      r == Err(BadDate(Deserialize(row.birthdate, currentYear).error))
    ensures row.Fields? && Deserialize(row.birthdate, currentYear).Ok? ==>
      r == Ok(Record(row.name, row.surname, Deserialize(row.birthdate, currentYear).value))
    ensures r.Ok? ==>
      row.Fields? && r.value.name == row.name && r.value.surname == row.surname
      && (r.value.birthdate.None? <==> row.birthdate == "")
  {
    match row
    case Malformed(reason) => Err(CsvError(reason))
    case Fields(name, surname, cell) =>
      match Deserialize(cell, currentYear)
      case Err(e) => Err(BadDate(e))
      case Ok(date) => Ok(Record(name, surname, date))
  }

  const SecondsPerDay := 86400

  /** The record has a birthday in the inclusive window `[today, today + days]`. */
  predicate Upcoming(r: Record, today: NaiveDate, days: int) {
    r.birthdate.Some? && 0 <= DaysBetween(today, r.birthdate.value) <= days
  }

  /**
    The closure given to `filter_map` in `read_records`: errors pass through, a record is kept
    when `date - today <= days` and `(date - today).num_seconds() >= 0`, dateless ones are dropped.
  */
  function Pick(res: Result<Record, RowError>, today: NaiveDate, days: int): (r: Option<Result<Record, RowError>>)
    ensures res.Err? ==> r == Some(res)
    ensures res.Ok? ==> r == (if Upcoming(res.value, today, days) then Some(res) else None)
    ensures days < 0 && res.Ok? ==> r == None
  {
    match res
    case Ok(record) =>
      (match record.birthdate
       case Some(date) =>
         if DaysBetween(today, date) <= days && DaysBetween(today, date) * SecondsPerDay >= 0 then Some(Ok(record))
         else None
       case None => None)
    case Err(e) => Some(Err(e))
  }

  function FilterMap(rs: seq<Result<Record, RowError>>, today: NaiveDate, days: int): seq<Result<Record, RowError>>
  {
    if rs == [] then []
    else (match Pick(rs[0], today, days) case Some(x) => [x] case None => []) + FilterMap(rs[1..], today, days)
  }

  /** `collect::<Result<Vec<_>, _>>()`: the first error, or every value in order. */
  function Collect(rs: seq<Result<Record, RowError>>): Result<seq<Record>, RowError>
  {
    if rs == [] then Ok([])
    else
      match rs[0]
      case Err(e) => Err(e)
      case Ok(r) =>
        match Collect(rs[1..])
        case Err(e) => Err(e)
        case Ok(rest) => Ok([r] + rest)
  }

  /** The rows of the file, each deserialised. */
  function Deserialized(rows: seq<Row>, currentYear: int): seq<Result<Record, RowError>>
  {
    seq(|rows|, i requires 0 <= i < |rows| => DeserializeRow(rows[i], currentYear))
  }

  /** `read_records`, with the rows of the file, the current year and today passed in. */
  function ReadRecords(rows: seq<Row>, currentYear: int, today: NaiveDate, days: int): Result<seq<Record>, RowError>
  {
    Collect(FilterMap(Deserialized(rows, currentYear), today, days))
  }

  predicate StrictlyIncreasing(idx: seq<nat>) {
    forall k, l :: 0 <= k < l < |idx| ==> idx[k] < idx[l]
  }

  /** The first row that fails decides the result; no partial list is returned. */
  lemma {:induction false} StreamFails(rs: seq<Result<Record, RowError>>, today: NaiveDate, days: int) returns (i: nat)
    requires exists j :: 0 <= j < |rs| && rs[j].Err?
    ensures i < |rs| && rs[i].Err? && forall j :: 0 <= j < i ==> rs[j].Ok?
    ensures Collect(FilterMap(rs, today, days)) == Err(rs[i].error)
  {
    var f := FilterMap(rs, today, days);
    if rs[0].Err? {
      i := 0;
      assert f[0] == rs[0];
    } else {
      var j :| 0 <= j < |rs| && rs[j].Err?;
      assert rs[1..][j - 1].Err?;
      var i' := StreamFails(rs[1..], today, days);
      i := i' + 1;
      forall j | 0 <= j < i ensures rs[j].Ok? {
        if j > 0 { assert rs[j] == rs[1..][j - 1]; }
      }
      match Pick(rs[0], today, days)
      case None =>
        assert f == FilterMap(rs[1..], today, days);
      case Some(x) =>
        assert f[1..] == FilterMap(rs[1..], today, days);
    }
  }

  /** The values of an error-free stream. */
  function Values(rs: seq<Result<Record, RowError>>): (recs: seq<Record>)
    requires forall j :: 0 <= j < |rs| ==> rs[j].Ok?
    ensures |recs| == |rs| && forall j :: 0 <= j < |rs| ==> rs[j] == Ok(recs[j])
  {
    seq(|rs|, j requires 0 <= j < |rs| => rs[j].value)
  }

  /** The upcoming records of `recs`, in order. */
  function KeepUpcoming(recs: seq<Record>, today: NaiveDate, days: int): seq<Record>
  {
    if recs == [] then []
    else (if Upcoming(recs[0], today, days) then [recs[0]] else []) + KeepUpcoming(recs[1..], today, days)
  }

  lemma {:induction false} StreamSucceeds(rs: seq<Result<Record, RowError>>, today: NaiveDate, days: int)
    requires forall j :: 0 <= j < |rs| ==> rs[j].Ok?
    ensures Collect(FilterMap(rs, today, days)) == Ok(KeepUpcoming(Values(rs), today, days))
  {
    if rs != [] {
      var tail := rs[1..];
      StreamSucceeds(tail, today, days);
      var vs := Values(rs);
      assert vs[0] == rs[0].value && vs[1..] == Values(tail);
      var f := FilterMap(rs, today, days);
      var rest := FilterMap(tail, today, days);
      if Upcoming(vs[0], today, days) {
        assert Pick(rs[0], today, days) == Some(rs[0]);
        assert f == [rs[0]] + rest;
        assert f[0] == rs[0] && f[1..] == rest;
        assert KeepUpcoming(vs, today, days) == [vs[0]] + KeepUpcoming(Values(tail), today, days);
      } else {
        assert Pick(rs[0], today, days) == None;
        assert f == rest;
        assert KeepUpcoming(vs, today, days) == KeepUpcoming(Values(tail), today, days);
      }
    }
  }

  /** `idx'` shifted up by one. */
  function Shifted(idx': seq<nat>): (idx: seq<nat>)
    ensures |idx| == |idx'|
    ensures forall k :: 0 <= k < |idx| ==> idx[k] == idx'[k] + 1
  {
    seq(|idx'|, k requires 0 <= k < |idx'| => idx'[k] + 1)
  }

  lemma ShiftedMembers(idx': seq<nat>, j: nat)
    ensures j + 1 in Shifted(idx') <==> j in idx'
    ensures 0 !in Shifted(idx')
  {
  }

  /** The positions in `recs` of the upcoming records, in increasing order. */
  function UpcomingPositions(recs: seq<Record>, today: NaiveDate, days: int): (idx: seq<nat>)
    ensures |idx| == |KeepUpcoming(recs, today, days)|
  {
    if recs == [] then []
    else
      var rest := Shifted(UpcomingPositions(recs[1..], today, days));
      if Upcoming(recs[0], today, days) then [0] + rest else rest
  }

  lemma {:induction false} PositionsIncrease(recs: seq<Record>, today: NaiveDate, days: int)
    ensures var idx := UpcomingPositions(recs, today, days);
      StrictlyIncreasing(idx) && forall k :: 0 <= k < |idx| ==> idx[k] < |recs|
  {
    if recs != [] {
      PositionsIncrease(recs[1..], today, days);
    }
  }

  /** `kept[k]` is the record at position `idx[k]` of `recs`, for every `k`. */
  predicate Selects(recs: seq<Record>, kept: seq<Record>, idx: seq<nat>) {
    |idx| == |kept| && forall k :: 0 <= k < |idx| ==> 0 <= idx[k] < |recs| && kept[k] == recs[idx[k]]
  }

  lemma {:induction false} PositionsSelect(recs: seq<Record>, today: NaiveDate, days: int)
    ensures Selects(recs, KeepUpcoming(recs, today, days), UpcomingPositions(recs, today, days))
  {
    if recs != [] {
      var kept', idx' := KeepUpcoming(recs[1..], today, days), UpcomingPositions(recs[1..], today, days);
      PositionsSelect(recs[1..], today, days);
      ShiftedSelects(recs, kept', idx');
      if Upcoming(recs[0], today, days) {
        HeadSelects(recs, kept', Shifted(idx'));
        assert KeepUpcoming(recs, today, days) == [recs[0]] + kept';
        assert UpcomingPositions(recs, today, days) == [0] + Shifted(idx');
      } else {
        assert KeepUpcoming(recs, today, days) == kept';
        assert UpcomingPositions(recs, today, days) == Shifted(idx');
      }
    }
  }

  /** Positions into `recs[1..]` become positions into `recs` once shifted. */
  lemma ShiftedSelects(recs: seq<Record>, kept': seq<Record>, idx': seq<nat>)
    requires recs != [] && Selects(recs[1..], kept', idx')
    ensures Selects(recs, kept', Shifted(idx'))
  {
  }

  /** Selecting the head as well prepends position 0. */
  lemma HeadSelects(recs: seq<Record>, kept': seq<Record>, idx: seq<nat>)
    requires recs != [] && Selects(recs, kept', idx)
    ensures Selects(recs, [recs[0]] + kept', [0] + idx)
  {
  }

  lemma {:induction false} PositionsExact(recs: seq<Record>, today: NaiveDate, days: int)
    ensures forall j :: 0 <= j < |recs| ==> (Upcoming(recs[j], today, days) <==> j in UpcomingPositions(recs, today, days))
  {
    if recs != [] {
      PositionsExact(recs[1..], today, days);
      var idx' := UpcomingPositions(recs[1..], today, days);
      forall j | 0 <= j < |recs|
        ensures Upcoming(recs[j], today, days) <==> j in UpcomingPositions(recs, today, days)
      {
        ShiftedMembers(idx', if j > 0 then j - 1 else 0);
        if j > 0 {
          assert recs[j] == recs[1..][j - 1];
        }
      }
    }
  }

  /** `read_records` fails with the error of the first bad row, whatever the later rows hold. */
  lemma ReadRecordsFails(rows: seq<Row>, currentYear: int, today: NaiveDate, days: int) returns (i: nat)
    requires exists j :: 0 <= j < |rows| && DeserializeRow(rows[j], currentYear).Err?
    ensures i < |rows| && DeserializeRow(rows[i], currentYear).Err?
    ensures forall j :: 0 <= j < i ==> DeserializeRow(rows[j], currentYear).Ok?
    ensures ReadRecords(rows, currentYear, today, days) == Err(DeserializeRow(rows[i], currentYear).error)
  {
    var rs := Deserialized(rows, currentYear);
    var j :| 0 <= j < |rows| && DeserializeRow(rows[j], currentYear).Err?;
    assert rs[j].Err?;
    i := StreamFails(rs, today, days);
    assert forall j :: 0 <= j < i ==> rs[j] == DeserializeRow(rows[j], currentYear);
  }

  /**
    When every row deserialises, `read_records` returns the records whose birthday lies in
    `[today, today + days]`, each once, in file order: an order-preserving selection of the rows.
  */
  lemma ReadRecordsSelects(rows: seq<Row>, currentYear: int, today: NaiveDate, days: int) returns (idx: seq<nat>)
    requires forall j :: 0 <= j < |rows| ==> DeserializeRow(rows[j], currentYear).Ok?
    ensures ReadRecords(rows, currentYear, today, days).Ok?
    ensures var kept := ReadRecords(rows, currentYear, today, days).value;
      && |idx| == |kept|
      && StrictlyIncreasing(idx)
      && (forall k :: 0 <= k < |idx| ==> idx[k] < |rows| && kept[k] == DeserializeRow(rows[idx[k]], currentYear).value)
      && (forall j :: 0 <= j < |rows| ==>
            (Upcoming(DeserializeRow(rows[j], currentYear).value, today, days) <==> j in idx))
  {
    var rs := Deserialized(rows, currentYear);
    StreamSucceeds(rs, today, days);
    var recs := Values(rs);
    assert forall j :: 0 <= j < |rows| ==> recs[j] == DeserializeRow(rows[j], currentYear).value;
    idx := UpcomingPositions(recs, today, days);
    PositionsIncrease(recs, today, days);
    PositionsSelect(recs, today, days);
    PositionsExact(recs, today, days);
  }

  /** Every record `read_records` returns has a birthdate inside the window. */
  lemma ReadRecordsUpcoming(rows: seq<Row>, currentYear: int, today: NaiveDate, days: int)
    requires ReadRecords(rows, currentYear, today, days).Ok?
    ensures forall r :: r in ReadRecords(rows, currentYear, today, days).value ==> Upcoming(r, today, days)
  {
    if exists j :: 0 <= j < |rows| && DeserializeRow(rows[j], currentYear).Err? {
      var i := ReadRecordsFails(rows, currentYear, today, days);
    } else {
      var idx := ReadRecordsSelects(rows, currentYear, today, days);
    }
  }

  /** `(month, day)` comes before today's day of the year. */
  predicate EarlierInYear(month: int, day: int, today: NaiveDate) {
    month < today.month || (month == today.month && day < today.day)
  }

  /** A cell that parses to a day of the year already past. */
  predicate PassedCell(row: Row, today: NaiveDate) {
    row.Fields? && ParseDate(row.birthdate).Some?
    && EarlierInYear(ParseDate(row.birthdate).value.month, ParseDate(row.birthdate).value.day, today)
  }

  /**
    The year is not rolled over: read in today's year, a birthday whose day and month are
    already past is moved into the past and never kept, however wide the window.
  */
  lemma PassedBirthdaysDropped(rows: seq<Row>, today: NaiveDate, days: int) returns (idx: seq<nat>)
    requires forall j :: 0 <= j < |rows| ==> DeserializeRow(rows[j], today.year).Ok?
    ensures ReadRecords(rows, today.year, today, days).Ok?
    ensures var kept := ReadRecords(rows, today.year, today, days).value;
      && |idx| == |kept|
      && (forall k :: 0 <= k < |idx| ==> idx[k] < |rows| && kept[k] == DeserializeRow(rows[idx[k]], today.year).value)
      && (forall j :: 0 <= j < |rows| && PassedCell(rows[j], today) ==> j !in idx)
  {
    idx := ReadRecordsSelects(rows, today.year, today, days);
    forall j | 0 <= j < |rows| && PassedCell(rows[j], today) ensures j !in idx {
      PassedNotUpcoming(rows[j], today, days);
    }
  }

  lemma PassedNotUpcoming(row: Row, today: NaiveDate, days: int)
    requires DeserializeRow(row, today.year).Ok? && PassedCell(row, today)
    ensures !Upcoming(DeserializeRow(row, today.year).value, today, days)
  {
    var p := ParseDate(row.birthdate).value;
    var moved := Date(today.year, p.month, p.day);
    DeserializeParsed(row.birthdate, today.year);
    assert IsValid(moved);
    DaysBetweenSign(today, moved);
  }

  lemma {:induction false} KeepUpcomingNegative(recs: seq<Record>, today: NaiveDate, days: int)
    requires days < 0
    ensures KeepUpcoming(recs, today, days) == []
  {
    if recs != [] {
      KeepUpcomingNegative(recs[1..], today, days);
    }
  }

  /** A negative look-ahead window keeps nothing. */
  lemma NegativeWindowKeepsNothing(rows: seq<Row>, currentYear: int, today: NaiveDate, days: int)
    requires days < 0
    ensures ReadRecords(rows, currentYear, today, days).Ok? ==> ReadRecords(rows, currentYear, today, days).value == []
  {
    var rs := Deserialized(rows, currentYear);
    if exists j :: 0 <= j < |rows| && DeserializeRow(rows[j], currentYear).Err? {
      var i := ReadRecordsFails(rows, currentYear, today, days);
    } else {
      StreamSucceeds(rs, today, days);
      KeepUpcomingNegative(Values(rs), today, days);
    }
  }

  datatype Tier = Red | Yellow

  const UrgentDays := 2

  /** The style `print_record` picks: red when the birthday is at most two days away, else yellow. */
  function Urgency(date: NaiveDate, today: NaiveDate): Tier
  {
    if DaysBetween(today, date) <= UrgentDays then Red else Yellow
  }

  /** One printed line: the text without its ANSI codes, and the colour of its day and month. */
  datatype Line = Line(text: string, tier: Tier)

  const MissingDate := "Missing date error"

  /** `day.month`, both without padding. */
  function DayMonth(d: NaiveDate): string {
    ToString(d.day) + "." + ToString(d.month)
  }

  /** `print_record`: the line `name surname day.month`, or an error for a record without a date. */
  function PrintRecord(record: Record, today: NaiveDate): (r: Result<Line, string>)
    ensures r.Err? <==> record.birthdate.None?
    ensures r.Err? ==> r.error == MissingDate
  {
    match record.birthdate
    case None => Err(MissingDate)
    case Some(date) =>
      Ok(Line(record.name + " " + record.surname + " " + DayMonth(date), Urgency(date, today)))
  }

  /** A `day.month` word has no space and splits at its dot into the two numerals. */
  lemma DayMonthWord(d: NaiveDate)
    ensures ' ' !in DayMonth(d)
    ensures Split(DayMonth(d), '.') == [ToString(d.day), ToString(d.month)]
  {
    var day, month := ToString(d.day), ToString(d.month);
    assert DayMonth(d) == day + ['.'] + month;
    assert forall i :: 0 <= i < |DayMonth(d)| ==> DayMonth(d)[i] != ' ' by {
      assert forall i :: 0 <= i < |day| ==> IsDigit(day[i]);
      assert forall i :: 0 <= i < |month| ==> IsDigit(month[i]);
    }
    SplitFirstPiece(day, month, '.');
    SplitPiece(month, '.');
  }

  /**
    The last word of a printed line reads back as the record's day and month, and its
    colour is red exactly when the birthday is at most two days after today.
  */
  lemma PrintedDate(record: Record, today: NaiveDate)
    requires record.birthdate.Some?
    ensures PrintRecord(record, today).Ok?
    ensures var line := PrintRecord(record, today).value;
      var words := Split(line.text, ' ');
      var dm := Split(words[|words| - 1], '.');
      && |dm| == 2 && IsDigits(dm[0]) && IsDigits(dm[1])
      && Value(dm[0]) == record.birthdate.value.day && Value(dm[1]) == record.birthdate.value.month
      && (line.tier == Red <==> DaysBetween(today, record.birthdate.value) <= 2)
  {
    var d := record.birthdate.value;
    var text := PrintRecord(record, today).value.text;
    assert text == (record.name + " " + record.surname) + [' '] + DayMonth(d);
    DayMonthWord(d);
    SplitLastPiece(record.name + " " + record.surname, DayMonth(d), ' ');
    ValueOfToString(d.day);
    ValueOfToString(d.month);
  }
}
