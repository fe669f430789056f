/**
  The `my_date_format` deserializer of the birthdate column: an empty cell is "no date",
  anything else is read as `%d-%m-%Y` and then moved into the current year.
*/
module DateFormat {
  import opened Results
  import opened Calendar
  import opened Decimal
  import opened Text

  /** A numeral of between one and `width` digits, as chrono's `scan::number(s, 1, width)` reads. */
  predicate IsNumeral(s: string, width: nat) {
    IsDigits(s) && 1 <= |s| <= width
  }

  /**
    `NaiveDate::parse_from_str(s, "%d-%m-%Y")`: day and month of one or two digits, an
    unsigned year of one to four digits, separated by `-`, and a date that exists.
  */
  function ParseDate(s: string): (r: Option<NaiveDate>)
    ensures r.Some? ==> 0 <= r.value.year <= 9999
  {
    var parts := Split(s, '-');
    if |parts| == 3 && IsNumeral(parts[0], 2) && IsNumeral(parts[1], 2) && IsNumeral(parts[2], 4) then
      ValueBelow(parts[2], 4);
      var d := Date(Value(parts[2]), Value(parts[1]), Value(parts[0]));
      if IsValid(d) then Some(d) else None
    else
      None
  }

  /** Why a non-empty birthdate cell is refused. */
  datatype DateError =
    | Unparsable(text: string)  // `parse_from_str` failed; serde reports chrono's message
    | NotInYear(date: Date)     // `from_ymd` found no such day in the current year

  /** `my_date_format::deserialize`, with the clock's current year passed in. */
  function Deserialize(s: string, currentYear: int): (r: Result<Option<NaiveDate>, DateError>)
    ensures r == Ok(None) <==> s == ""
    ensures s != "" && ParseDate(s).None? ==> r == Err(Unparsable(s))
    ensures r.Ok? && r.value.Some? ==>
      ParseDate(s).Some? && r.value.value == Date(currentYear, ParseDate(s).value.month, ParseDate(s).value.day)
  {
    if s != "" then
      match ParseDate(s)
      case None => Err(Unparsable(s))
      case Some(d) =>
        var moved := Date(currentYear, d.month, d.day);
        if IsValid(moved) then Ok(Some(moved)) else Err(NotInYear(moved))
    else
      Ok(None)
  }

  /** A birthdate cell as it is written in the file: `DD-MM-Y`, day and month zero-padded, the year unpadded. */
  function FormatDate(d: NaiveDate): string
    requires 0 <= d.year <= 9999
  {
    TwoDigits(d.day) + "-" + TwoDigits(d.month) + "-" + ToString(d.year)
  }

  /** Reading a written cell gives back the date it was written from. */
  lemma ParseFormatted(d: NaiveDate)
    requires 0 <= d.year <= 9999
    ensures ParseDate(FormatDate(d)) == Some(d)
  {
    var dd, mm, yy := TwoDigits(d.day), TwoDigits(d.month), ToString(d.year);
    ValueOfToString(d.year);
    assert FormatDate(d) == dd + ['-'] + (mm + ['-'] + yy);
    SplitFirstPiece(dd, mm + ['-'] + yy, '-');
    SplitFirstPiece(mm, yy, '-');
    SplitPiece(yy, '-');
  }

  /**
    A cell that parses keeps its day and month and takes the current year, and fails exactly
    when that day does not exist in the current year (29 February outside a leap year).
  */
  lemma DeserializeParsed(s: string, currentYear: int)
    requires ParseDate(s).Some?
    ensures var moved := Date(currentYear, ParseDate(s).value.month, ParseDate(s).value.day);
      Deserialize(s, currentYear) == if IsValid(moved) then Ok(Some(moved)) else Err(NotInYear(moved))
  {
  }

  /** The same for a cell written from a date `d`: its day and month move into the current year. */
  lemma DeserializeFormatted(d: NaiveDate, currentYear: int)
    requires 0 <= d.year <= 9999
    ensures var moved := Date(currentYear, d.month, d.day);
      Deserialize(FormatDate(d), currentYear) == if IsValid(moved) then Ok(Some(moved)) else Err(NotInYear(moved))
  {
    ParseFormatted(d);
    DeserializeParsed(FormatDate(d), currentYear);
  }

  /** Conversely, every cell that parses has the `d-m-y` shape, with the date's own numbers. */
  lemma ParsedFields(s: string) returns (dd: string, mm: string, yy: string)
    requires ParseDate(s).Some?
    ensures s == dd + "-" + mm + "-" + yy
    ensures IsNumeral(dd, 2) && IsNumeral(mm, 2) && IsNumeral(yy, 4)
    ensures ParseDate(s).value == Date(Value(yy), Value(mm), Value(dd))
  {
    var parts := Split(s, '-');
    dd, mm, yy := parts[0], parts[1], parts[2];
    JoinSplit(s, '-');
    assert parts[1..][1..] == [yy];
    calc {
      s;
      Join(parts, '-');
      dd + "-" + Join(parts[1..], '-');
      dd + "-" + (mm + "-" + Join(parts[1..][1..], '-'));
      dd + "-" + mm + "-" + yy;
    }
  }
}
