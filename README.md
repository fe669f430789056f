# birthday-reminder, modelled in Dafny

This project models `birthday-reminder`, a command-line program. It reads a `;`-separated
CSV file of `name;surname;birthdate` rows and prints the people whose birthday falls
within the next `--days` days (7 by default). Each person gets one line, `name surname day.month`.
The day and month are red when the birthday is at most two days away and yellow otherwise.

The model follows the one source file, `src/main.rs`, module by module:

- `Calendar`: the part of chrono's `NaiveDate` the program uses. It covers which triples are
  dates (the proleptic Gregorian calendar within chrono's year range), the date order, and
  `date - today` in whole days.
- `Decimal` and `Text`: digit strings (`to_string`, and the numerals `%d`, `%m` and `%Y` read),
  plus splitting and joining strings at a separator.
- `DateFormat`: `my_date_format::deserialize`. An empty cell gives no date. Any other cell is
  parsed as `%d-%m-%Y` and then moved into the current year with `from_ymd`.
- `Reminder`: the `Record` type, a row's deserialisation, `read_records` (the `filter_map`
  closure and the `collect` into a `Result`), and `print_record` (the line and its colour).
- `Sorting`: `sort_by_key(|r| r.birthdate)`. It is specified as the stable sort by
  `Option<NaiveDate>` (`None` first) and implemented as an in-place insertion sort on an array.
- `Program`: `main`, both as the method `Run` and as the function `Pipeline`. Both read, sort,
  then print until the first error. End-to-end lemmas relate the printed lines to the rows
  of the file.

Some inputs are parameters of the model:

- The clock: `today` and the current year.
- The command line: `days`.
- The file itself: a sequence of `Row`s, each either three cells or a row the CSV reader
  could not split (`Malformed`).

Printing is modelled as the sequence of `Line`s written. Each line holds its text without
the ANSI colour codes, plus its colour (`Tier`).

## Model

| member | source | states |
|---|---|---|
| Calendar.DaysInMonth | src/main.rs:32 | a month has 28 to 31 days, and 29 exactly for February of a leap year (the day `from_ymd` accepts) |
| Calendar.DayNumberOrder | src/main.rs:106 | the date order used to sort agrees with day counts: `a` is not after `b` iff `a`'s day number is not greater, and two dates are equal iff their day numbers are |
| Calendar.DaysBetweenSign | src/main.rs:74 | `date - today` is non-negative iff `today` is not after `date`, and zero iff they are the same day |
| Decimal.ToString | src/main.rs:56-57 | `to_string` of a day or month gives a digit string without a leading zero, one digit below 10 and two below 100 |
| Decimal.ValueOfToString | src/main.rs:56-57 | the printed numeral reads back as the number it was printed from |
| Decimal.ValueBelow | src/main.rs:30 | a numeral of at most `n` digits is below `10^n` (so a `%Y` year of at most four digits is at most 9999) |
| Decimal.TwoDigits | src/main.rs:94 | the zero-padded `DD` of a cell has two digits and denotes the number |
| DateFormat.ParseDate | src/main.rs:30 | a date that `%d-%m-%Y` parses has an unsigned year of at most four digits |
| DateFormat.ParseFormatted | src/main.rs:20 | a cell written as `DD-MM-Y` (day and month zero-padded, the year unpadded) parses back to the date it was written from |
| DateFormat.ParsedFields | src/main.rs:30 | every cell that parses is `dd-mm-yy`, with 1–2, 1–2 and 1–4 digits, and the parsed date is (value of `yy`, `mm`, `dd`) |
| DateFormat.Deserialize | src/main.rs:22-36 | the result is `Ok(None)` iff the cell is empty; a non-empty cell that does not parse is an error; a date that comes back has the current year and the parsed month and day |
| DateFormat.DeserializeParsed | src/main.rs:28-32 | every cell that parses (`02-06-2000`, `2-6-2000`, …) gives `Ok(Some)` of its day and month in the current year when that day exists, and the error `NotInYear` exactly when it does not |
| DateFormat.DeserializeFormatted | src/main.rs:28-32 | the same for a cell written from a date: its day and month move into the current year, or the read of the cell fails exactly when that day does not exist |
| Reminder.DeserializeRow | src/main.rs:8-14 | a malformed row is a CSV error; a bad birthdate cell is that cell's error; a row with a good cell is `Ok` of its name, surname and the cell's deserialised date; a good row has no date iff the cell is empty |
| Reminder.Pick | src/main.rs:71-83 | errors pass through; a record is kept iff it has a date with `0 <= date - today <= days`; a negative window keeps no record |
| Reminder.ReadRecordsFails | src/main.rs:68-85 | if any row is bad, the read fails with the error of the first bad row, and all rows before it are good |
| Reminder.ReadRecordsSelects | src/main.rs:68-85 | if every row is good, the read succeeds with an order-preserving selection of the rows, and row `j` is selected iff its record is upcoming |
| Reminder.ReadRecordsUpcoming | src/main.rs:72-80 | every record the read returns has a birthdate in `[today, today + days]` |
| Reminder.PassedBirthdaysDropped | src/main.rs:31-32 | read in today's year, a row whose day and month are already past is never among the records returned, whatever the window |
| Reminder.PassedNotUpcoming | src/main.rs:74 | such a row's record, moved into today's year, lies before today and so is outside the window |
| Reminder.NegativeWindowKeepsNothing | src/main.rs:66-74 | with a negative `days` a successful read returns no record |
| Reminder.PrintRecord | src/main.rs:39-60 | the result is an error iff the record has no date, and that error is "Missing date error" |
| Reminder.DayMonthWord | src/main.rs:53-57 | the `day.month` word has no space and splits at its dot into the two unpadded numerals |
| Reminder.PrintedDate | src/main.rs:47-57 | the last word of a printed line reads back as the record's day and month, and the line is red iff the birthday is at most two days after today |
| Sorting.KeyLeTotal | src/main.rs:106 | the `Option<NaiveDate>` key order is total and antisymmetric |
| Sorting.KeyLeTransitive | src/main.rs:106 | the key order is transitive |
| Sorting.InsertPermutes | src/main.rs:106 | one insertion step adds exactly the inserted record |
| Sorting.InsertSorted | src/main.rs:106 | inserting into a sorted sequence leaves it sorted |
| Sorting.InsertKeepsKeyOrder | src/main.rs:106 | an insertion puts the new record after every earlier record with the same key |
| Sorting.SortSorts | src/main.rs:106 | the sorted records are non-decreasing by birthdate |
| Sorting.SortPermutes | src/main.rs:106 | the sorted records are a permutation of the input |
| Sorting.SortIsStable | src/main.rs:106 | records with equal birthdates keep their relative order |
| Sorting.WithKeyMembers | src/main.rs:106 | a record is among those of key `k` iff it is in the sequence and has key `k` |
| Sorting.LastIsGreatest | src/main.rs:106 | the last record of a sorted sequence has the greatest key |
| Sorting.StableSortIsUnique | src/main.rs:106 | two sorted sequences that hold each key's records in the same order are equal, so any stable sort gives one result |
| Sorting.StableSortSpec | src/main.rs:106 | every sorted, stable rearrangement of the records is `SortByBirthdate` of them |
| Sorting.SortRecords | src/main.rs:106 | sorting the array in place leaves `SortByBirthdate` of its old contents |
| Sorting.InsertAt | src/main.rs:106 | one pass of the in-place insertion turns `a[..i + 1]` into `Insert(a[..i], a[i])` and leaves the rest of the array unchanged |
| Sorting.ShiftGreater | src/main.rs:106 | the shifting loop moves the run of greater keys one place right and finds the slot where the inserted record belongs |
| Program.Rendered | src/main.rs:108-110 | when every record has a date there is one line per record, in order, each the one `print_record` produces |
| Program.PrintAllSucceeds | src/main.rs:107-111 | if every record has a date, the loop prints all their lines and does not fail |
| Program.PrintAllStops | src/main.rs:107-111 | the first record without a date ends the loop: the lines of the records before it are printed, then "Missing date error" |
| Program.PrintRecords | src/main.rs:107-111 | the `for` loop over the sorted array prints what `PrintAll` of its contents prints and fails as it fails |
| Program.Run | src/main.rs:103-113 | `main` prints the lines and exits with the status of `Pipeline` on the same rows, year, day and window |
| Program.SortedKeptAreUpcoming | src/main.rs:105-106 | every record `main` prints has a date inside the window |
| Program.MissingDateUnreachable | src/main.rs:105-111 | `main` never exits with "Missing date error": every failure is a read failure |
| Program.PipelineFails | src/main.rs:105 | if any row is bad, nothing is printed and `main` fails with the first bad row's error |
| Program.PipelineSucceeds | src/main.rs:103-113 | if every row is good, `main` succeeds. It prints one line per upcoming record, in stable birthdate order, each red iff at most two days away, and no red line after a yellow one |
| Program.SingleRow | src/main.rs:103-113 | a file of one good row prints that person's line, with the moved date and its colour, exactly when the birthday is in the window |
| Program.ExampleTexts | src/main.rs:94 | the example cells are written `02-06-2000`, `02-01-2000` and `29-02-2000`, and 2 June prints as `2.6` |
| Program.ExampleDistances | src/main.rs:74 | 28 May to 2 June is 5 days, 1 to 2 June is 1 day, and 30 December to 2 January of the same year is negative |
| Program.ScenarioYellow | src/main.rs:47-57 | a birthday five days ahead prints as a yellow `Ann Lee 2.6` whenever the window is at least five days |
| Program.ScenarioRed | src/main.rs:47-57 | a birthday one day ahead prints as a red line |
| Program.ScenarioNoDate | src/main.rs:80 | a row with an empty birthdate prints nothing and is no error |
| Program.LeapDayBirthdayInCommonYear | src/main.rs:32 | a 29 February birthday in a common year makes the whole read fail, and nothing is printed |
| Program.NewYearBirthdayMissed | src/main.rs:31-32 | the year is not rolled over: on 30 December a 2 January birthday is never printed |

## Left out

- Reading the file: opening it, the `;` delimiter, the header row and the CSV quoting rules are not modelled. The rows arrive already split into cells. A row the reader cannot split, or one with the wrong number of fields, is a `Malformed` row with a reason.
- The command line (`clap`, `--birthday-file`, `--days` and its default of 7): the file's rows and `days` are parameters of `Run`.
- The clock: the source calls `Utc::now()` once in `read_records` (src/main.rs:65), once for every non-empty birthdate cell (src/main.rs:31) and once for every printed record (src/main.rs:40). The model takes one `today` and one current year for the whole run, so a run across midnight or New Year is not modelled.
- Terminal output: `println!` and the ANSI colour codes. A printed line is its text plus its colour.
- Rust's `sort_by_key` is a merge sort; the model sorts by insertion. `Sorting.StableSortIsUnique` shows that every stable sort by this key gives the same result.
- Program.LeapDayBirthdayInCommonYear: `NaiveDate::from_ymd` panics on a day that does not exist in the current year (29 February in a common year), so the process aborts. The model reports this as the row's error (`NotInYear`), which fails the read. No output is lost either way, because printing only starts after the read.
- DateFormat.ParseDate: chrono skips whitespace before each number and accepts a signed year (`+2000`, `-0044`). The model accepts unsigned digits only.
- DateFormat.Deserialize: it does not model a current year outside chrono's range (`from_ymd` panics there too).
- Reminder.Pick: it does not model `Duration::days` panicking when `days` exceeds `Duration`'s range of `i64::MAX` milliseconds, about ±1.07 × 10^11 days, or the 64-bit width of `days`. The window test is on unbounded integers.
- Error messages: chrono's and serde's texts for a bad date or row are not modelled. An error keeps the offending cell or the reader's reason.
