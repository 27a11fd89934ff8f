/** ImportVehiclesFromFile and ParseCSV: dispatch each file on its extension,
    pick the column names from the column count, turn each row into a vehicle
    and add it to its dealer's work orders, and let the exceptions decide
    whether to go on with the next row, the next file, or stop. */
module Import {
  import opened Results
  import opened Text
  import opened Dates
  import opened Vehicles
  import opened WorkOrders
  import opened Dealers

  // ---------------------------------------------------------------------------
  // Path.GetExtension

  /** Directory and volume separators: a '.' before one of them is not an extension. */
  predicate IsSeparator(c: char) {
    c == '\\' || c == '/' || c == ':'
  }

  /** The extension found scanning `path[..i]` from its end. */
  function ExtensionFrom(path: string, i: nat): (r: string)
    requires i <= |path|
  {
    if i == 0 then ""
    else if path[i - 1] == '.' then (if i == |path| then "" else path[i - 1..])
    else if IsSeparator(path[i - 1]) then ""
    else ExtensionFrom(path, i - 1)
  }

  /** The extension of the last path segment, with its dot; "" when there is none
      or when the path ends in a dot. */
  function Extension(path: string): (r: string)
    ensures r == [] || (r[0] == '.' && |r| >= 2 && |r| <= |path| && path[|path| - |r|..] == r)
    ensures forall i :: 0 <= i < |r| ==> !IsSeparator(r[i])
    ensures forall i :: 1 <= i < |r| ==> r[i] != '.'
  {
    ExtensionFromSuffix(path, |path|);
    ExtensionFrom(path, |path|)
  }

  lemma {:induction false} ExtensionFromSuffix(path: string, i: nat)
    requires i <= |path|
    requires forall j :: i <= j < |path| ==> path[j] != '.' && !IsSeparator(path[j])
    ensures var r := ExtensionFrom(path, i);
      && (r == [] || (r[0] == '.' && |r| >= 2 && |r| <= |path| && path[|path| - |r|..] == r))
      && (forall j :: 0 <= j < |r| ==> !IsSeparator(r[j]))
      && (forall j :: 1 <= j < |r| ==> r[j] != '.')
    decreases i
  {
    if i > 0 && path[i - 1] != '.' && !IsSeparator(path[i - 1]) {
      ExtensionFromSuffix(path, i - 1);
    } else if i > 0 && path[i - 1] == '.' && i < |path| {
      var r := path[i - 1..];
      forall j | 1 <= j < |r| ensures r[j] != '.' && !IsSeparator(r[j]) {
        assert r[j] == path[i - 1 + j];
      }
    }
  }

  /** A file name followed by an extension has that extension. */
  lemma ExtensionOfSuffix(stem: string, ext: string)
    requires |ext| >= 2 && ext[0] == '.'
    requires forall i :: 1 <= i < |ext| ==> ext[i] != '.' && !IsSeparator(ext[i])
    ensures Extension(stem + ext) == ext
  {
    var p := stem + ext;
    var n := |stem| + 1;
    ExtensionFromSkips(p, n, |p|);
    assert p[n - 1] == '.';
    assert p[n - 1..] == ext;
  }

  /** Scanning back over characters that are neither a dot nor a separator. */
  lemma {:induction false} ExtensionFromSkips(path: string, lo: nat, i: nat)
    requires lo <= i <= |path|
    requires forall j :: lo <= j < |path| ==> path[j] != '.' && !IsSeparator(path[j])
    ensures ExtensionFrom(path, i) == ExtensionFrom(path, lo)
    decreases i
  {
    if i > lo {
      ExtensionFromSkips(path, lo, i - 1);
    }
  }

  /** The `case ".csv"` test: the lower-cased extension is ".csv", which is
      a dot and the letters c, s, v in either case. */
  function IsCsv(path: string): (r: bool)
    ensures var e := Extension(path);
      r <==> |e| == 4 && e[0] == '.' && (e[1] == 'c' || e[1] == 'C')
             && (e[2] == 's' || e[2] == 'S') && (e[3] == 'v' || e[3] == 'V')
  {
    ToLower(Extension(path)) == ".csv"
  }

  // ---------------------------------------------------------------------------
  // The parsed table and one row of it

  /** The 21-column export: the schema ParseCSV recognises. */
  const SupportedColumnCount := 21

  const VinColumn := "VIN"
  const StockColumn := "Stock Number"
  const ConditionColumn := "Vehicle Stock Type"
  const YearColumn := "Model Year"
  const MakeColumn := "Make"
  const ModelColumn := "Model"
  const PriceColumn := "Service Type Price"
  const DateColumn := "Service Date/Time"
  const DealerColumn := "Dealer Name"

  /** One data row: column name to the field's text. */
  type Row = map<string, string>

  /** The DataTable the CSV parser returns for a file. */
  datatype Table = Table(columnCount: nat, rows: seq<Row>)

  /** A path with the table its file parses to. */
  datatype SourceFile = SourceFile(path: string, table: Table)

  /** What one row yields: the dealer to bill, the service time and the vehicle. */
  datatype Entry = Entry(dealer: string, date: DateTime, vehicle: Vehicle)

  /** row[column]: a column the table does not have is an error. */
  function Cell(row: Row, column: string): (r: Result<string>)
    ensures column in row ==> r == Ok(row[column])
    ensures column !in row <==> r == Err(MissingColumn(column))
  {
    if column in row then Ok(row[column]) else Err(MissingColumn(column))
  }

  /** Enum.Parse into Vehicle.Condition, by the members' names. */
  function ParseCondition(s: string): (r: Option<Condition>)
    ensures r == Some(NEW) <==> s == "NEW"
    ensures r == Some(USED) <==> s == "USED"
  {
    if s == "NEW" then Some(NEW) else if s == "USED" then Some(USED) else None
  }

  function ConditionName(c: Condition): string {
    match c
    case NEW => "NEW"
    case USED => "USED"
  }

  /** Convert.ToUInt16, then the model year as a `short`. */
  function ParseYear(s: string): (r: Option<int16>)
    ensures r.Some? ==> 0 <= r.value as int && ParseUInt16(s) == Some(r.value as nat)
  {
    match ParseUInt16(s)
    case None => None
    case Some(n) => if n < 0x8000 then Some(n as int16) else None
  }

  /** A row ParseCSV turns into a vehicle: it has all nine columns it reads,
      and each of the condition, year, price and date texts parses. */
  predicate Readable(row: Row) {
    && VinColumn in row && StockColumn in row && ConditionColumn in row
    && YearColumn in row && MakeColumn in row && ModelColumn in row
    && PriceColumn in row && DateColumn in row && DealerColumn in row
    && ParseCondition(row[ConditionColumn]).Some?
    && ParseYear(row[YearColumn]).Some?
    && IsDecimalText(row[PriceColumn])
    && Dates.Parse(row[DateColumn]).Some?
  }

  /** The constructor arguments and the date, read in the order ParseCSV reads them. */
  function ReadRow(row: Row): (r: Result<Entry>)
    ensures r.Ok? ==> r.value.vehicle.refno == None
    ensures r.Ok? ==> VinColumn in row && r.value.vehicle.vin == row[VinColumn]
    ensures r.Ok? ==> StockColumn in row && r.value.vehicle.stock == row[StockColumn]
    ensures r.Ok? ==> DealerColumn in row && r.value.dealer == row[DealerColumn]
    ensures r.Ok? ==> DateColumn in row && Dates.Parse(row[DateColumn]) == Some(r.value.date)
    ensures r.Ok? ==> PriceColumn in row && IsDecimalText(row[PriceColumn])
    ensures r.Ok? ==> MakeColumn in row && r.value.vehicle.make == row[MakeColumn]
    ensures r.Ok? ==> ModelColumn in row && r.value.vehicle.model == row[ModelColumn]
    ensures r.Ok? ==> ConditionColumn in row && ParseCondition(row[ConditionColumn]) == Some(r.value.vehicle.cond)
    ensures r.Ok? ==> YearColumn in row && ParseYear(row[YearColumn]) == Some(r.value.vehicle.year)
    ensures r.Ok? <==> Readable(row)
    ensures r.Err? ==> r.error.MissingColumn? || r.error.BadCondition? || r.error.BadYear?
                       || r.error.BadPrice? || r.error.BadDate?
    ensures r.Err? && r.error.MissingColumn? ==> r.error.column !in row
    ensures r.Err? && r.error.BadCondition? ==>
      ConditionColumn in row && r.error.text == row[ConditionColumn] && ParseCondition(row[ConditionColumn]).None?
    ensures r.Err? && r.error.BadYear? ==>
      YearColumn in row && r.error.text == row[YearColumn] && ParseYear(row[YearColumn]).None?
    ensures r.Err? && r.error.BadPrice? ==>
      PriceColumn in row && r.error.text == row[PriceColumn] && !IsDecimalText(row[PriceColumn])
    ensures r.Err? && r.error.BadDate? ==>
      DateColumn in row && r.error.text == row[DateColumn] && Dates.Parse(row[DateColumn]).None?
    ensures VinColumn !in row ==> r == Err(MissingColumn(VinColumn))
  {
    var vin :- Cell(row, VinColumn);
    var stock :- Cell(row, StockColumn);
    var condText :- Cell(row, ConditionColumn);
    var cond := ParseCondition(condText);
    if cond.None? then Err(BadCondition(condText)) else
    var yearText :- Cell(row, YearColumn);
    var year := ParseYear(yearText);
    if year.None? then Err(BadYear(yearText)) else
    var make :- Cell(row, MakeColumn);
    var model :- Cell(row, ModelColumn);
    var price :- Cell(row, PriceColumn);
    if !IsDecimalText(price) then Err(BadPrice(price)) else
    var dateText :- Cell(row, DateColumn);
    var date := Dates.Parse(dateText);
    if date.None? then Err(BadDate(dateText)) else
    var dealer :- Cell(row, DealerColumn);
    Ok(Entry(dealer, date.value, Vehicle(vin, stock, cond.value, year.value, make, model, None)))
  }

  /** The row a CSV export holds for one serviced vehicle. */
  function RowOf(e: Entry, price: string): Row
    requires e.date.Valid() && e.vehicle.year >= 0
  {
    map[
      VinColumn := e.vehicle.vin,
      StockColumn := e.vehicle.stock,
      ConditionColumn := ConditionName(e.vehicle.cond),
      YearColumn := NatToString(e.vehicle.year as nat),
      MakeColumn := e.vehicle.make,
      ModelColumn := e.vehicle.model,
      PriceColumn := price,
      DateColumn := Format(e.date),
      DealerColumn := e.dealer]
  }

  /** Every vehicle, written out as a row, is read back as it was. */
  lemma ReadRowOf(e: Entry, price: string)
    requires e.date.Valid() && e.vehicle.refno == None && e.vehicle.year >= 0
    requires IsDecimalText(price)
    ensures ReadRow(RowOf(e, price)) == Ok(e)
  {
    var row := RowOf(e, price);
    var v := e.vehicle;
    ParseUInt16RoundTrip(v.year as nat);
    ParseFormat(e.date);
    assert ParseYear(row[YearColumn]) == Some(v.year);
    assert ParseCondition(row[ConditionColumn]) == Some(v.cond) by {
      assert row[ConditionColumn] == ConditionName(v.cond);
    }
    assert Dates.Parse(row[DateColumn]) == Some(e.date);
    assert row[PriceColumn] == price;
    assert Readable(row);
    var r := ReadRow(row);
    assert r.value.vehicle == v;
    assert r.value.dealer == e.dealer;
  }

  // ---------------------------------------------------------------------------
  // ParseCSV

  /** What each row of a table reads as, row by row. */
  function ReadRows(rows: seq<Row>): (r: seq<Result<Entry>>)
    ensures |r| == |rows|
    ensures forall j :: 0 <= j < |rows| ==> r[j] == ReadRow(rows[j])
  {
    seq(|rows|, j requires 0 <= j < |rows| => ReadRow(rows[j]))
  }

  /** The read rows in order, each added to its dealer's work orders; the
      first exception stops the file. */
  function Process(names: seq<string>, books: seq<Book>, entries: seq<Result<Entry>>): (r: Run)
    requires |names| == |books|
    ensures |r.books| == |books|
    decreases |entries|
  {
    if entries == [] then Run(books, None)
    else match entries[0]
      case Err(e) => Run(books, Some(e))
      case Ok(entry) =>
        var step := AddVehicle(names, books, entry.dealer, entry.date, entry.vehicle);
        if step.failure.Some? then step else Process(names, step.books, entries[1..])
  }

  /** ParseCSV on a table: only the 21-column schema is processed. */
  function ParseCsvSpec(names: seq<string>, books: seq<Book>, table: Table): (r: Run)
    requires |names| == |books|
    ensures |r.books| == |books|
    ensures table.columnCount != SupportedColumnCount ==> r == Run(books, Some(UnsupportedSource))
  {
    if table.columnCount != SupportedColumnCount then Run(books, Some(UnsupportedSource))
    else Process(names, books, ReadRows(table.rows))
  }

  /** Processing `a + b` is processing `a`, then, if nothing failed, `b`. */
  lemma {:induction false} ProcessAppend(names: seq<string>, books: seq<Book>, a: seq<Result<Entry>>, b: seq<Result<Entry>>)
    requires |names| == |books|
    ensures var ra := Process(names, books, a);
      Process(names, books, a + b) == if ra.failure.Some? then ra else Process(names, ra.books, b)
    decreases |a|
  {
    if a == [] {
      assert a + b == b;
    } else {
      assert (a + b)[0] == a[0] && (a + b)[1..] == a[1..] + b;
      match a[0]
      case Err(e) =>
      case Ok(entry) =>
        var step := AddVehicle(names, books, entry.dealer, entry.date, entry.vehicle);
        if step.failure.None? {
          ProcessAppend(names, step.books, a[1..], b);
        }
    }
  }

  lemma ProcessUnknownFirst(names: seq<string>, books: seq<Book>, entries: seq<Result<Entry>>)
    requires |names| == |books| && entries != []
    requires entries[0].Ok? && entries[0].value.dealer !in names
    ensures Process(names, books, entries) == Run(books, Some(DealerNotFound(entries[0].value.dealer)))
  {
  }

  lemma ProcessBadFirst(names: seq<string>, books: seq<Book>, entries: seq<Result<Entry>>)
    requires |names| == |books| && entries != [] && entries[0].Err?
    ensures Process(names, books, entries) == Run(books, Some(entries[0].error))
  {
  }

  /** A row naming an unknown dealer ends the file: the rows before it stay
      added, the rows after it are not processed. */
  lemma UnknownDealerSkipsRestOfFile(names: seq<string>, books: seq<Book>, pre: seq<Result<Entry>>, e: Entry, post: seq<Result<Entry>>)
    requires |names| == |books|
    requires Process(names, books, pre).failure.None?
    requires e.dealer !in names
    ensures Process(names, books, pre + [Ok(e)] + post) ==
      Run(Process(names, books, pre).books, Some(DealerNotFound(e.dealer)))
  {
    Assoc(pre, [Ok(e)], post);
    ProcessAppend(names, books, pre, [Ok(e)] + post);
    ProcessUnknownFirst(names, Process(names, books, pre).books, [Ok(e)] + post);
  }

  /** A row that does not read as a vehicle ends the file the same way, with its error. */
  lemma BadRowSkipsRestOfFile(names: seq<string>, books: seq<Book>, pre: seq<Result<Entry>>, e: Error, post: seq<Result<Entry>>)
    requires |names| == |books|
    requires Process(names, books, pre).failure.None?
    ensures Process(names, books, pre + [Err(e)] + post) == Run(Process(names, books, pre).books, Some(e))
  {
    Assoc(pre, [Err(e)], post);
    ProcessAppend(names, books, pre, [Err(e)] + post);
    ProcessBadFirst(names, Process(names, books, pre).books, [Err(e)] + post);
  }

  /** Reading rows distributes over concatenation. */
  lemma ReadRowsAppend(a: seq<Row>, b: seq<Row>)
    ensures ReadRows(a + b) == ReadRows(a) + ReadRows(b)
  {
  }

  // ---------------------------------------------------------------------------
  // What an import preserves

  /** Every vehicle already on a work order is still there, for every dealer and day. */
  predicate Grows(before: seq<Book>, after: seq<Book>) {
    |before| == |after| &&
    forall j, day :: 0 <= j < |before| && day in before[j] ==>
      day in after[j] && multiset(before[j][day]) <= multiset(after[j][day])
  }

  lemma GrowsTransitive(a: seq<Book>, b: seq<Book>, c: seq<Book>)
    requires Grows(a, b) && Grows(b, c)
    ensures Grows(a, c)
  {
  }

  lemma AddVehicleGrows(names: seq<string>, books: seq<Book>, dealerName: string, date: DateTime, v: Vehicle)
    requires |names| == |books|
    ensures Grows(books, AddVehicle(names, books, dealerName, date, v).books)
  {
    var r := AddVehicle(names, books, dealerName, date, v);
    forall j, day | 0 <= j < |books| && day in books[j]
      ensures day in r.books[j] && multiset(books[j][day]) <= multiset(r.books[j][day])
    {
      if FirstNamed(names, dealerName) == Some(j) && day == date.Truncate() {
        assert DayOf(books[j], day) == books[j][day];
      }
    }
  }

  lemma {:induction false} ProcessGrows(names: seq<string>, books: seq<Book>, entries: seq<Result<Entry>>)
    requires |names| == |books|
    ensures Grows(books, Process(names, books, entries).books)
    decreases |entries|
  {
    if entries != [] {
      match entries[0]
      case Err(e) =>
      case Ok(entry) =>
        var step := AddVehicle(names, books, entry.dealer, entry.date, entry.vehicle);
        AddVehicleGrows(names, books, entry.dealer, entry.date, entry.vehicle);
        if step.failure.None? {
          ProcessGrows(names, step.books, entries[1..]);
          GrowsTransitive(books, step.books, Process(names, step.books, entries[1..]).books);
        }
    }
  }

  lemma {:induction false} ProcessValid(names: seq<string>, books: seq<Book>, entries: seq<Result<Entry>>)
    requires |names| == |books| && AllBooksValid(books)
    ensures AllBooksValid(Process(names, books, entries).books)
    decreases |entries|
  {
    if entries != [] {
      match entries[0]
      case Err(e) =>
      case Ok(entry) =>
        var step := AddVehicle(names, books, entry.dealer, entry.date, entry.vehicle);
        AddVehicleValid(names, books, entry.dealer, entry.date, entry.vehicle);
        if step.failure.None? {
          ProcessValid(names, step.books, entries[1..]);
        }
    }
  }


  // ---------------------------------------------------------------------------
  // ImportVehiclesFromFile

  /** How an import ends: all files were handled, the operator answered "no"
      after file `file` failed, or an exception left the method. */
  datatype End = Finished | Stopped(file: nat) | Aborted(error: Error)

  datatype ImportRun = ImportRun(books: seq<Book>, end: End)

  /** One file: anything but a ".csv" extension is an invalid type. */
  function ImportFile(names: seq<string>, books: seq<Book>, file: SourceFile): (r: Run)
    requires |names| == |books|
    ensures |r.books| == |books|
    ensures !IsCsv(file.path) ==> r == Run(books, Some(InvalidFileType))
  {
    if !IsCsv(file.path) then Run(books, Some(InvalidFileType))
    else ParseCsvSpec(names, books, file.table)
  }

  /** The loop over the paths from index `i` on; `answers[i]` is the operator's
      reply to the prompt shown when file `i` is invalid. */
  function ImportFrom(names: seq<string>, books: seq<Book>, files: seq<SourceFile>, answers: seq<bool>, i: nat): (r: ImportRun)
    requires |names| == |books| && |answers| == |files| && i <= |files|
    ensures |r.books| == |books|
    decreases |files| - i
  {
    if i == |files| then ImportRun(books, Finished)
    else
      var step := ImportFile(names, books, files[i]);
      match step.failure
      case None => ImportFrom(names, step.books, files, answers, i + 1)
      case Some(e) =>
        if e.IsInvalidData() then
          if answers[i] then ImportFrom(names, step.books, files, answers, i + 1)
          else ImportRun(step.books, Stopped(i))
        else if e.IsInvalidOperation() then ImportFrom(names, step.books, files, answers, i + 1)
        else ImportRun(step.books, Aborted(e))
  }

  /** The `catch` clauses of the loop: what the import does after file `i`,
      by the exception the file raised.  This is `ImportFrom` unfolded one
      step; `NonCsvFilePrompts`, `UnsupportedSourcePrompts` and
      `UnknownDealerSkipsFile` tie the policy to the inputs that raise each
      exception. */
  lemma ImportFromNext(names: seq<string>, books: seq<Book>, files: seq<SourceFile>, answers: seq<bool>, i: nat)
    requires |names| == |books| && |answers| == |files| && i < |files|
    ensures var step, r := ImportFile(names, books, files[i]), ImportFrom(names, books, files, answers, i);
      && (step.failure.None? ==> r == ImportFrom(names, step.books, files, answers, i + 1))
      && (step.failure.Some? && step.failure.value.IsInvalidData() ==>
            r == if answers[i] then ImportFrom(names, step.books, files, answers, i + 1) else ImportRun(step.books, Stopped(i)))
      && (step.failure.Some? && step.failure.value.IsInvalidOperation() ==>
            r == ImportFrom(names, step.books, files, answers, i + 1))
      && (step.failure.Some? && !step.failure.value.IsInvalidData() && !step.failure.value.IsInvalidOperation() ==>
            r == ImportRun(step.books, Aborted(step.failure.value)))
  {
  }

  /** A file that is not ".csv" changes nothing; "yes" goes on with the next
      file and "no" ends the import there. */
  lemma NonCsvFilePrompts(names: seq<string>, books: seq<Book>, files: seq<SourceFile>, answers: seq<bool>, i: nat)
    requires |names| == |books| && |answers| == |files| && i < |files|
    requires !IsCsv(files[i].path)
    ensures answers[i] ==> ImportFrom(names, books, files, answers, i) == ImportFrom(names, books, files, answers, i + 1)
    ensures !answers[i] ==> ImportFrom(names, books, files, answers, i) == ImportRun(books, Stopped(i))
  {
  }

  /** A table in an unknown schema is an invalid source, raised before any row. */
  lemma UnsupportedSourcePrompts(names: seq<string>, books: seq<Book>, files: seq<SourceFile>, answers: seq<bool>, i: nat)
    requires |names| == |books| && |answers| == |files| && i < |files|
    requires IsCsv(files[i].path) && files[i].table.columnCount != SupportedColumnCount
    ensures answers[i] ==> ImportFrom(names, books, files, answers, i) == ImportFrom(names, books, files, answers, i + 1)
    ensures !answers[i] ==> ImportFrom(names, books, files, answers, i) == ImportRun(books, Stopped(i))
  {
  }

  /** An unknown dealer skips the rest of its file only: the import goes on with
      the next file from the work orders its earlier rows produced. */
  lemma UnknownDealerSkipsFile(names: seq<string>, books: seq<Book>, files: seq<SourceFile>, answers: seq<bool>, i: nat,
                               pre: seq<Row>, row: Row, post: seq<Row>)
    requires |names| == |books| && |answers| == |files| && i < |files|
    requires IsCsv(files[i].path) && files[i].table == Table(SupportedColumnCount, pre + [row] + post)
    requires Process(names, books, ReadRows(pre)).failure.None?
    requires ReadRow(row).Ok? && ReadRow(row).value.dealer !in names
    ensures ImportFrom(names, books, files, answers, i) ==
      ImportFrom(names, Process(names, books, ReadRows(pre)).books, files, answers, i + 1)
  {
    UnknownDealerEndsTable(names, books, pre, row, post);
    ImportFromInvalidOperation(names, books, files, answers, i);
  }

  /** ParseCSV on a table whose row `row` names an unknown dealer. */
  lemma UnknownDealerEndsTable(names: seq<string>, books: seq<Book>, pre: seq<Row>, row: Row, post: seq<Row>)
    requires |names| == |books|
    requires Process(names, books, ReadRows(pre)).failure.None?
    requires ReadRow(row).Ok? && ReadRow(row).value.dealer !in names
    ensures ParseCsvSpec(names, books, Table(SupportedColumnCount, pre + [row] + post)) ==
      Run(Process(names, books, ReadRows(pre)).books, Some(DealerNotFound(ReadRow(row).value.dealer)))
  {
    var e := ReadRow(row).value;
    ReadRowsAppend(pre + [row], post);
    ReadRowsAppend(pre, [row]);
    assert ReadRows([row]) == [Ok(e)];
    UnknownDealerSkipsRestOfFile(names, books, ReadRows(pre), e, ReadRows(post));
  }

  /** A file that ends in an unknown dealer: the import goes on with the next file. */
  /** A row that fails to read ends a 21-column table with that row's error,
      keeping the vehicles of the rows before it. */
  lemma BadRowEndsTable(names: seq<string>, books: seq<Book>, pre: seq<Row>, row: Row, post: seq<Row>)
    requires |names| == |books|
    requires Process(names, books, ReadRows(pre)).failure.None?
    requires ReadRow(row).Err?
    ensures ParseCsvSpec(names, books, Table(SupportedColumnCount, pre + [row] + post)) ==
      Run(Process(names, books, ReadRows(pre)).books, Some(ReadRow(row).error))
  {
    ReadRowsAppend(pre + [row], post);
    ReadRowsAppend(pre, [row]);
    assert ReadRows([row]) == [Err(ReadRow(row).error)];
    BadRowSkipsRestOfFile(names, books, ReadRows(pre), ReadRow(row).error, ReadRows(post));
  }

  /** A row with a missing column or a text that does not parse raises an
      exception no `catch` of the loop handles: the whole import ends there,
      with the work orders of the files and rows before it. */
  lemma BadRowAbortsImport(names: seq<string>, books: seq<Book>, files: seq<SourceFile>, answers: seq<bool>, i: nat,
                           pre: seq<Row>, row: Row, post: seq<Row>)
    requires |names| == |books| && |answers| == |files| && i < |files|
    requires IsCsv(files[i].path) && files[i].table == Table(SupportedColumnCount, pre + [row] + post)
    requires Process(names, books, ReadRows(pre)).failure.None?
    requires ReadRow(row).Err?
    ensures ImportFrom(names, books, files, answers, i) ==
      ImportRun(Process(names, books, ReadRows(pre)).books, Aborted(ReadRow(row).error))
  {
    BadRowEndsTable(names, books, pre, row, post);
    ImportFromNext(names, books, files, answers, i);
  }

  lemma ImportFromInvalidOperation(names: seq<string>, books: seq<Book>, files: seq<SourceFile>, answers: seq<bool>, i: nat)
    requires |names| == |books| && |answers| == |files| && i < |files|
    requires ImportFile(names, books, files[i]).failure.Some?
    requires ImportFile(names, books, files[i]).failure.value.IsInvalidOperation()
    ensures ImportFrom(names, books, files, answers, i) ==
      ImportFrom(names, ImportFile(names, books, files[i]).books, files, answers, i + 1)
  {
  }

  /** One file only adds vehicles, and keeps every day in order. */
  lemma ImportFileGrows(names: seq<string>, books: seq<Book>, file: SourceFile)
    requires |names| == |books|
    ensures Grows(books, ImportFile(names, books, file).books)
    ensures AllBooksValid(books) ==> AllBooksValid(ImportFile(names, books, file).books)
  {
    if IsCsv(file.path) && file.table.columnCount == SupportedColumnCount {
      ProcessGrows(names, books, ReadRows(file.table.rows));
      if AllBooksValid(books) {
        ProcessValid(names, books, ReadRows(file.table.rows));
      }
    }
  }

  /** An import only ever adds vehicles, and keeps every day's vehicles in order. */
  lemma {:induction false} ImportGrowsAndKeepsValid(names: seq<string>, books: seq<Book>, files: seq<SourceFile>, answers: seq<bool>, i: nat)
    requires |names| == |books| && |answers| == |files| && i <= |files|
    requires AllBooksValid(books)
    ensures var r := ImportFrom(names, books, files, answers, i);
      Grows(books, r.books) && AllBooksValid(r.books)
    decreases |files| - i
  {
    if i < |files| {
      var step := ImportFile(names, books, files[i]);
      ImportFileGrows(names, books, files[i]);
      ImportFromNext(names, books, files, answers, i);
      ImportGrowsAndKeepsValid(names, step.books, files, answers, i + 1);
      GrowsTransitive(books, step.books, ImportFrom(names, step.books, files, answers, i + 1).books);
    }
  }

  // ---------------------------------------------------------------------------
  // The methods

  /** ParseCSV: the schema check, then each row in order until one fails. */
  method ParseCsv(dir: Directory, table: Table) returns (err: Option<Error>)
    requires dir.Valid()
    modifies dir.dealers
    ensures dir.dealers == old(dir.dealers) && dir.Valid()
    ensures dir.Names() == old(dir.Names())
    ensures Run(dir.Books(), err) == ParseCsvSpec(old(dir.Names()), old(dir.Books()), table)
  {
    if table.columnCount != SupportedColumnCount {
      return Some(UnsupportedSource);
    }
    ghost var names, books, entries := dir.Names(), dir.Books(), ReadRows(table.rows);
    var i := 0;
    while i < |table.rows|
      invariant 0 <= i <= |table.rows|
      invariant dir.dealers == old(dir.dealers) && dir.Valid() && dir.Names() == names
      invariant Process(names, dir.Books(), entries[i..]) == Process(names, books, entries)
    {
      assert entries[i..][0] == entries[i] && entries[i..][1..] == entries[i + 1..];
      var entry := ReadRow(table.rows[i]);
      if entry.Err? {
        return Some(entry.error);
      }
      var e := AddVehicleToWorkOrder(dir, entry.value.dealer, entry.value.date, entry.value.vehicle);
      if e.Some? {
        return e;
      }
      i := i + 1;
    }
    return None;
  }

  /** ImportVehiclesFromFile: each path in turn; an invalid file asks the
      operator, an unknown dealer skips the file, any other exception ends
      the import. */
  method ImportVehiclesFromFile(dir: Directory, files: seq<SourceFile>, answers: seq<bool>) returns (end: End)
    requires dir.Valid() && |answers| == |files|
    modifies dir.dealers
    ensures dir.dealers == old(dir.dealers) && dir.Valid()
    ensures dir.Names() == old(dir.Names())
    ensures ImportRun(dir.Books(), end) == ImportFrom(old(dir.Names()), old(dir.Books()), files, answers, 0)
  {
    ghost var names, books := dir.Names(), dir.Books();
    var i := 0;
    while i < |files|
      invariant 0 <= i <= |files|
      invariant dir.dealers == old(dir.dealers) && dir.Valid() && dir.Names() == names
      invariant ImportFrom(names, dir.Books(), files, answers, i) == ImportFrom(names, books, files, answers, 0)
    {
      ghost var before := dir.Books();
      var err := ImportFileInto(dir, files[i]);
      ImportFromNext(names, before, files, answers, i);
      if err.Some? {
        var e := err.value;
        if e.IsInvalidData() {
          if !answers[i] {
            return Stopped(i);
          }
        } else if !e.IsInvalidOperation() {
          return Aborted(e);
        }
      }
      assert ImportFrom(names, dir.Books(), files, answers, i + 1) == ImportFrom(names, before, files, answers, i);
      i := i + 1;
    }
    return Finished;
  }

  /** The body of the `try` block for one path: the extension switch, then ParseCSV. */
  method ImportFileInto(dir: Directory, file: SourceFile) returns (err: Option<Error>)
    requires dir.Valid()
    modifies dir.dealers
    ensures dir.dealers == old(dir.dealers) && dir.Valid()
    ensures dir.Names() == old(dir.Names())
    ensures Run(dir.Books(), err) == ImportFile(old(dir.Names()), old(dir.Books()), file)
  {
    if IsCsv(file.path) {
      err := ParseCsv(dir, file.table);
    } else {
      err := Some(InvalidFileType);
    }
  }
}
