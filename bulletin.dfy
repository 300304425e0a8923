/** `SEAPBulletin.__init__`: the reference date of a bulletin and its tables. The date is the
    caller's `datetime`, the caller's ISO 8601 string read by `date.fromisoformat`, or the stamp in
    the header cell at row 4, column A; the tables come from the rows from label 8 on. */
module Bulletin {
  import opened Wrappers
  import opened Dates
  import opened Table
  import Normalize
  import Occupancy

  /** `date_row`, the sheet row whose first cell states the bulletin date. */
  const DateRow := 4
  /** The first row label of the facility rows (`loc[8:, :]`). */
  const FirstDataRow := 8

  type CalendarDate = d: Date | ValidDate(d) witness Date(2000, 1, 1)

  /** The `date` argument of the constructor. */
  datatype DateArg = NoDate | GivenDateTime(when: CalendarDate) | GivenText(text: string)

  /** `self.date`: a `datetime` (from the header or the caller) or a plain `date` (from a string);
      only a `datetime` has the `.date()` method the exports call. */
  datatype Moment = Moment(date: CalendarDate, hasTime: bool)

  /** `bulletin_sheet.iat[date_row, 0]`, which must exist and, for `re.search`, be a string. */
  function HeaderStatement(sheet: seq<Row>): (r: Result<string>)
    ensures r.Success? <==> |sheet| > DateRow && Get(sheet[DateRow], UnidadeId).Text?
    ensures r.Failure? ==> r.error == (if |sheet| > DateRow then HeaderNotText else HeaderCellMissing)
  {
    if |sheet| <= DateRow then Failure(HeaderCellMissing)
    else match Get(sheet[DateRow], UnidadeId)
      case Text(s) => Success(s)
      case _ => Failure(HeaderNotText)
  }

  /** The date branch of `__init__`. */
  function ResolveDate(sheet: seq<Row>, arg: DateArg): (r: Result<Moment>)
    ensures arg.GivenDateTime? ==> r == Success(Moment(arg.when, true))
    ensures arg.GivenText? ==> (r.Success? <==> FromIsoFormat(arg.text).Success?)
    ensures arg.GivenText? && r.Success? ==> !r.value.hasTime && IsoFormat(r.value.date) == arg.text
    ensures arg.GivenText? && r.Failure? ==> r.error == InvalidDateFormat
    ensures arg.NoDate? ==> (r == Failure(HeaderCellMissing) <==> |sheet| <= DateRow)
    ensures arg.NoDate? && r.Success? ==>
      && r.value.hasTime && 2010 <= r.value.date.year <= 2029
      && HeaderStatement(sheet).Success?
      && ParseHeaderDate(HeaderStatement(sheet).value) == Success(r.value.date)
  {
    match arg
    case GivenDateTime(d) => Success(Moment(d, true))
    case GivenText(s) =>
      (match FromIsoFormat(s)
       case Success(d) => IsoCanonical(s); Success(Moment(d, false))
       case Failure(e) => Failure(e))
    case NoDate =>
      var statement :- HeaderStatement(sheet);
      var d :- ParseHeaderDate(statement);
      Success(Moment(d, true))
  }

  /** A bulletin: its date, the four tables of `_parse_count` and the occupancy table. */
  datatype Bulletin = Bulletin(date: Moment, tables: Normalize.Tables, occupation: seq<Row>)

  /** `_custody_count_sheet.loc[8:, :]`. */
  function DataRows(sheet: seq<Row>): (r: seq<Row>)
    ensures |sheet| > FirstDataRow ==> |r| == |sheet| - FirstDataRow && r[0] == sheet[FirstDataRow]
    ensures |sheet| <= FirstDataRow ==> r == []
  {
    if |sheet| <= FirstDataRow then [] else sheet[FirstDataRow..]
  }

  /** `SEAPBulletin(input_file, date)` on an already read sheet: the date first, then the
      tables, then the occupancy table, each failing as its step does. */
  function NewBulletin(sheet: seq<Row>, arg: DateArg): (r: Result<Bulletin>)
    ensures ResolveDate(sheet, arg).Failure? ==> r == Failure(ResolveDate(sheet, arg).error)
    ensures ResolveDate(sheet, arg).Success? && Normalize.Normalize(DataRows(sheet)).Failure? ==>
      r == Failure(Normalize.Normalize(DataRows(sheet)).error)
    ensures r.Success? <==>
      && ResolveDate(sheet, arg).Success? && Normalize.Normalize(DataRows(sheet)).Success?
      && Occupancy.Occupation(Normalize.Normalize(DataRows(sheet)).value).Success?
    ensures r.Success? ==>
      && r.value.date == ResolveDate(sheet, arg).value
      && Normalize.Normalize(DataRows(sheet)) == Success(r.value.tables)
      && Occupancy.Occupation(r.value.tables) == Success(r.value.occupation)
  {
    var date :- ResolveDate(sheet, arg);
    var tables :- Normalize.Normalize(DataRows(sheet));
    var occupation :- Occupancy.Occupation(tables);
    Success(Bulletin(date, tables, occupation))
  }

  /** `self.tables[name]`, a `KeyError` for any other name. */
  function TableNamed(b: Bulletin, name: string): (r: Result<seq<Row>>)
    ensures r.Failure? <==> name !in {"facilities", "capacity", "imprisoned", "imprisoned_detail", "occupation"}
    ensures r.Failure? ==> r.error == TableNotFound
    ensures name == "occupation" ==> r == Success(b.occupation)
    ensures name == "facilities" ==> r == Success(b.tables.facilities)
  {
    match name
    case "facilities" => Success(b.tables.facilities)
    case "capacity" => Success(b.tables.capacity)
    case "imprisoned" => Success(b.tables.imprisoned)
    case "imprisoned_detail" => Success(b.tables.imprisonedDetail)
    case "occupation" => Success(b.occupation)
    case _ => Failure(TableNotFound)
  }

  /** A header "em 11/08/2020" without a date argument dates the bulletin
      11 August 2020, as a `datetime`. */
  lemma HeaderDateResolved(sheet: seq<Row>)
    requires |sheet| > DateRow && Get(sheet[DateRow], UnidadeId) == Text("em 11/08/2020")
    ensures ResolveDate(sheet, NoDate) == Success(Moment(Date(2020, 8, 11), true))
  {
    HeaderDateExample();
  }

  /** An ISO string dates the bulletin with a plain `date`, and the string is that date's
      `isoformat()`. */
  lemma IsoDateResolved(sheet: seq<Row>, d: CalendarDate)
    ensures ResolveDate(sheet, GivenText(IsoFormat(d))) == Success(Moment(d, false))
  {
    IsoRoundTrip(d);
  }
}
