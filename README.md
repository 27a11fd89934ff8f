# dsEngine dealer core in Dafny

This project models the dealer core of dsEngine, a small billing tool for a
vehicle-service shop. The core covers:

- **Dealer names.** A dealer's name is cleaned (`\W+` → one space, then
  trimmed). It must be unique within the process-wide `DealerDirectory`. It
  also gives the dealer's configuration file name.
- **Work orders.** Each dealer keeps a dictionary from calendar day to that
  day's work order. A work order is taken to wrap a `SortedSet<Vehicle>`
  (the `WorkOrder` class is not part of this model). In the model, a vehicle
  is not added to a day when it shares a VIN or a stock number with any
  vehicle already there.
- **Import.** `ImportVehiclesFromFile` dispatches each path on its extension.
  `ParseCSV` recognises the 21-column export, turns each row into a
  `Vehicle`, and adds it to the work orders of the dealer the row names.
  Exceptions decide what happens next: go on, skip the rest of the file, or
  stop after asking the operator.
- **Vehicle.** `Vehicle` is an immutable record. It has a description, a text
  form and an ordering.

Modules, one file each:

| file | module | models |
|---|---|---|
| `results.dfy` | `Results` | `Option`, `Result`, and the exceptions of the core as an `Error` datatype. |
| `text.dfy` | `Text` | `Regex.Replace(s, @"\W+", " ")`, `Trim`, ordinal string order, `Replace(char, char)`, `ToLower`, decimal digits. |
| `dates.dfy` | `Dates` | `DateTime`, truncation to the day, and the ISO text `DateTime.Parse` reads. |
| `vehicle.dfy` | `Vehicles` | `Vehicle.cs`. |
| `workorder.dfy` | `WorkOrders` | A day's vehicles as an ordered sequence (the `SortedSet`), and a dealer's `WorkOrders` dictionary as a map. |
| `dealer.dfy` | `Dealers` | The `Dealer` class (name, work orders, setter, file name, comparison), the `DealerDirectory` as a `Directory` class, the constructor, and `AddVehicleToWorkOrder`. |
| `import.dfy` | `Import` | `Path.GetExtension`, `ParseCSV` and `ImportVehiclesFromFile`. |

Stateful code works like this:

- Methods on objects (`Dealer`, `Directory`) change fields that carry
  `modifies` clauses.
- Each method is proved against a function over the directory's names and
  work orders. For example, `AddVehicleToWorkOrder` is proved against
  `AddVehicle`, `ParseCsv` against `ParseCsvSpec`, and
  `ImportVehiclesFromFile` against `ImportFrom`.
- The properties of the import policy are lemmas about those functions.

An exception the source throws is modelled as an `Err`, a `Run.failure` or
an `End`, never as a precondition:

- `ArgumentNullException` is `NameMissing` for the dealer name, and
  `NullArgument` for `Vehicle.CompareTo(null)`.
- `ArgumentException` for a duplicate name is `DuplicateName`.
- `InvalidOperationException` is `DealerNotFound`.
- `InvalidDataException` is `InvalidFileType` or `UnsupportedSource`.
- A failing `row[...]` lookup is `MissingColumn`.
- A failing `Enum.Parse`, `Convert.ToUInt16`, `decimal.Parse` or
  `DateTime.Parse` is `BadCondition`, `BadYear`, `BadPrice` or `BadDate`.

Some cases in the code are specified differently, or in less detail:

- The old configuration file. The setter deletes it whenever a dealer that
  already has a name is given a name that passes the checks, its own name
  included, and nothing is saved afterwards. The model's `SetName` returns
  that file's name in exactly those cases instead of touching the disk.
- The constructor call at `Dealer.cs:200-208`. It passes
  `Convert.ToUInt16(...)` (an unsigned 16-bit value) where `Vehicle`'s
  constructor takes a `short`. It also passes `decimal.Parse(...)` where the
  constructor's seventh parameter is `uint? refno`. Neither converts
  implicitly in C#. The model follows `Vehicle.cs`:
  - the year must read as an unsigned 16-bit number and also fit a `short`
    (at most 32767);
  - the price text must be a decimal number, and its value is not stored;
  - `refno` stays empty.

## Model

| member | source | states |
|---|---|---|
| Text.IsWordChar | dsEngine/Dealer.cs:55 | The word characters of `\w`: ASCII letters, digits and '_'. |
| Text.IsWhiteSpace | dsEngine/Dealer.cs:55 | The characters `char.IsWhiteSpace` accepts, which `Trim` removes. None of them is a word character. |
| Text.ReplaceNonWordRuns | dsEngine/Dealer.cs:55 | The replacement leaves only word characters and single spaces. It is empty exactly when the input is. It starts with a space exactly when the input starts with a non-word character. |
| Text.ReplaceKeepsWordChars | dsEngine/Dealer.cs:55 | The replacement keeps every word character of the input, in order. |
| Text.CollapsedIsFixedPoint | dsEngine/Dealer.cs:55 | Text that is already only word characters and single spaces comes back unchanged. |
| Text.ReplaceWordPrefix | dsEngine/Dealer.cs:55 | A leading run of word characters is copied through, and the rest is replaced independently. |
| Text.ReplaceNonWordPrefix | dsEngine/Dealer.cs:55 | A whole leading run of non-word characters becomes exactly one space. |
| Text.WordCharsOfConcat | dsEngine/Dealer.cs:55 | The word characters of a concatenation are those of each part, in order. |
| Text.WordCharsOfSlice | dsEngine/Dealer.cs:55 | Cutting off ends that hold no word character keeps all word characters. |
| Text.Trim | dsEngine/Dealer.cs:55 | The result has no white space at either end. A string with none at its ends is returned unchanged. |
| Text.TrimIsSlice | dsEngine/Dealer.cs:55 | Trim returns a contiguous slice of its input, and everything cut off at either end is white space. |
| Text.TrimAfterPrefix | dsEngine/Dealer.cs:55 | When both a prefix and the text after it start with something other than white space, trimming keeps the prefix as it is and trims only the rest. |
| Text.CompareOrdinal | dsEngine/Dealer.cs:270 | The order yields -1, 0 or 1, and 0 exactly when the strings are equal. |
| Text.CompareOrdinalAntisymmetric | dsEngine/Dealer.cs:270 | Swapping the operands negates the result. |
| Text.CompareOrdinalTransitive | dsEngine/Vehicle.cs:64 | a < b and b < c give a < c. |
| Text.ReplaceChar | dsEngine/Dealer.cs:102 | The length is kept, and each character equal to `from` becomes `to` while every other character is kept. |
| Text.ToLower | dsEngine/Dealer.cs:102 | The length is kept, and each character is lower-cased in place. |
| Text.IsDecimalText | dsEngine/Dealer.cs:207 | The price texts `decimal.Parse` is taken to accept. Every character is a digit or a '.', except a sign in first place. |
| Text.DecimalTextOf | dsEngine/Dealer.cs:207 | Each of these forms is accepted: an optional sign, then digits, then optionally a '.' and more digits, with at least one digit in all. |
| Text.DecimalTextHasDigit | dsEngine/Dealer.cs:207 | An accepted price text has at least one digit. |
| Text.IntToString | dsEngine/Vehicle.cs:46 | The result is never empty and starts with '-' exactly for a negative year. |
| Text.IntToStringRoundTrip | dsEngine/Vehicle.cs:46 | Reading back the printed year gives the year. |
| Text.NatToStringRoundTrip | dsEngine/Vehicle.cs:46 | The digits printed for n denote n. |
| Text.ParseUInt16 | dsEngine/Dealer.cs:204 | A successful Convert.ToUInt16 result is below 65536. |
| Text.ParseUInt16RoundTrip | dsEngine/Dealer.cs:204 | Every value below 65536, printed, is read back as itself. |
| Dates.DateTime.Truncate | dsEngine/Dealer.cs:237 | The truncated date is midnight of the same year, month and day, and stays a valid date. |
| Dates.TruncateSameDay | dsEngine/Dealer.cs:237 | Two timestamps map to the same work-order key exactly when they fall on the same calendar day. |
| Dates.TruncateIdempotent | dsEngine/Dealer.cs:237 | Truncating a truncated date changes nothing. |
| Dates.Parse | dsEngine/Dealer.cs:210 | Every parsed timestamp is a valid date and time. A date without a time parses to midnight. |
| Dates.ParseFormat | dsEngine/Dealer.cs:210 | Every valid timestamp written in ISO form is parsed back to itself. |
| Vehicles.Vehicle.CompareTo | dsEngine/Vehicle.cs:55-65 | A null argument is an error, and exactly then. Otherwise the result is the vehicle order `Compare`. |
| Vehicles.Compare | dsEngine/Vehicle.cs:59-64 | The result is -1, 0 or 1. It is 0 exactly when the VINs or the stock numbers are equal. |
| Vehicles.Vehicle.Description | dsEngine/Vehicle.cs:46 | The description starts with the printed model year, which reads back as the year. Then come a space, the make, a space and the model, and nothing else. |
| Vehicles.Vehicle.ToString | dsEngine/Vehicle.cs:49-52 | The text form is the stock number, then " (", the description and ")", and nothing else. |
| Vehicles.SameVinCompareEqual | dsEngine/Vehicle.cs:59-62 | Vehicles with the same VIN compare 0 both ways, whatever else differs. |
| Vehicles.DifferentVinsOrderByStock | dsEngine/Vehicle.cs:64 | With different VINs the order is the order of the stock numbers. |
| Vehicles.CompareAntisymmetric | dsEngine/Vehicle.cs:55-65 | Swapping the vehicles negates the comparison. |
| Vehicles.CompareTransitive | dsEngine/Vehicle.cs:55-65 | The order is transitive among vehicles that do not compare 0. |
| Vehicles.CompareZeroNotTransitive | dsEngine/Vehicle.cs:59-64 | Three vehicles show that "compares 0" is not transitive. |
| WorkOrders.Insert | dsEngine/Dealer.cs:247 | The day's vehicles after insertion are those before plus the new one, as a multiset. |
| WorkOrders.Add | dsEngine/Dealer.cs:247-250 | The model's set ignores a vehicle that compares 0 with any vehicle already listed. Otherwise the vehicle is added and nothing else changes. |
| WorkOrders.InsertOrdered | dsEngine/Dealer.cs:247 | Inserting a vehicle that collides with none keeps the day strictly ascending. |
| WorkOrders.AddOrdered | dsEngine/Dealer.cs:247 | Adding any vehicle keeps the day strictly ascending. |
| WorkOrders.OrderedHasDistinctVins | dsEngine/Dealer.cs:247 | On a day in order, no VIN and no stock number appears twice. This holds for the model's set, not for a search tree over a non-transitive comparison. |
| WorkOrders.AddToBook | dsEngine/Dealer.cs:237-250 | The keys gain exactly the truncated date, and other days are untouched. If the vehicle collides, nothing changes. Otherwise that day's vehicles gain exactly this vehicle. |
| WorkOrders.AddToBookValid | dsEngine/Dealer.cs:240-250 | Every key stays at midnight and every day stays in order. |
| WorkOrders.AddToBookIdempotent | dsEngine/Dealer.cs:246-250 | Adding the same vehicle on the same date twice is the same as adding it once. |
| WorkOrders.AddSameVinAgain | dsEngine/Dealer.cs:246-250 | A second vehicle with the same VIN on the same day, at any time, is ignored. |
| WorkOrders.AddTwoDistinct | dsEngine/Dealer.cs:247 | Two vehicles that do not compare 0, added on the same day, are both listed afterwards. |
| Dealers.CleanName | dsEngine/Dealer.cs:55 | The cleaned name is word characters separated by single spaces, with no space at either end. It keeps every word character of the input, in order. |
| Dealers.CleanNameOfCleanName | dsEngine/Dealer.cs:55 | A name already clean is its own cleaning. |
| Dealers.CleanNameIdempotent | dsEngine/Dealer.cs:55 | Cleaning twice is cleaning once. |
| Dealers.CleanNameOfNoWordChars | dsEngine/Dealer.cs:55 | A value with no word character (e.g. "!!!") cleans to the empty name. |
| Dealers.CleanNameHasWordChar | dsEngine/Dealer.cs:55 | A clean name that is not empty contains a word character. |
| Dealers.CleanNameOfRuns | dsEngine/Dealer.cs:55 | A run of word characters, then a run of non-word characters, then text starting with a word character: the run is kept, the separators become exactly one space, and the rest is cleaned on its own. |
| Dealers.CleanNameExample | dsEngine/Dealer.cs:55 | " A&B! " is stored as "A B". |
| Dealers.TrimCollapsed | dsEngine/Dealer.cs:55 | Trimming the replaced text gives a clean name with the same word characters. |
| Dealers.FileNameOf | dsEngine/Dealer.cs:102 | The file name keeps the length and contains no space. Each character is the name's, with ' ' as '_', lower-cased. |
| Dealers.Dealer.FileName | dsEngine/Dealer.cs:102 | The dealer's file name is `FileNameOf` its current name: per character, ' ' becomes '_' and letters are lower-cased. So it has the length of the name and no space, and for a clean name it is all word characters with no upper-case letter. |
| Dealers.FileNameOfCleanName | dsEngine/Dealer.cs:102 | The file name of a clean name is all word characters with no upper-case letter. |
| Dealers.Dealer.constructor | dsEngine/Dealer.cs:86 | A fresh dealer has no name and an empty WorkOrders dictionary. |
| Dealers.Dealer.CompareTo | dsEngine/Dealer.cs:268-271 | Dealers are ordered by the ordinal order of their names (`CompareOrdinal`, which is antisymmetric and transitive). The result is -1, 0 or 1, and 0 exactly when the two names are equal. |
| Dealers.Dealer.SetName | dsEngine/Dealer.cs:43-80 | See the list after this table. |
| Dealers.Dealer.Assign | dsEngine/Dealer.cs:58-78 | The setter after cleaning: the same duplicate rule and result as SetName, for a name that is already clean. |
| Dealers.Dealer.Rename | dsEngine/Dealer.cs:78 | Storing a clean name that no other dealer holds sets the name, keeps the work orders, and keeps a valid directory valid. |
| Dealers.Dealer.AddToWorkOrder | dsEngine/Dealer.cs:237-250 | The name is unchanged, and the work orders become AddToBook of the old ones. |
| Dealers.RenameToOwnName | dsEngine/Dealer.cs:58-64 | In a valid directory, re-assigning a dealer its own name finds that same dealer, so it is not a duplicate. |
| Dealers.RenameKeepsDirectoryValid | dsEngine/Dealer.cs:58-78 | Renaming one entry to a clean name that is free, or is its own, keeps names unique and clean and all work orders valid. |
| Dealers.FirstNamed | dsEngine/Dealer.cs:58 | A found index holds the name and no earlier entry does. Nothing is found exactly when the name is absent. |
| Dealers.Directory.constructor | dsEngine/Dealer.cs:38 | The directory starts empty. |
| Dealers.Directory.Add | dsEngine/Dealer.cs:32 | The dealer is appended, and the directory stays valid. |
| Dealers.Directory.Find | dsEngine/Dealer.cs:234 | The loop returns the first index whose dealer has exactly the given name, or nothing. |
| Dealers.NewDealer | dsEngine/Dealer.cs:28-33 | See the list after this table. |
| Dealers.NewNamed | dsEngine/Dealer.cs:30-32 | The constructor after cleaning: fail exactly when the name is taken. Otherwise append a fresh, named dealer with no work orders. |
| Dealers.AddVehicle | dsEngine/Dealer.cs:230-251 | It fails exactly when no dealer has that exact name, and then changes nothing. Otherwise that dealer's work orders become AddToBook, and no differently-named dealer changes. |
| Dealers.AddVehicleValid | dsEngine/Dealer.cs:240-250 | Adding a vehicle keeps every day of every dealer in order. |
| Dealers.AddVehicleTouchesOneDealer | dsEngine/Dealer.cs:234-250 | With unique names, exactly the one dealer so named gets the vehicle. |
| Dealers.AddVehicleToWorkOrder | dsEngine/Dealer.cs:230-251 | The directory's dealers, their names and its validity are unchanged. The new work orders and the failure are exactly AddVehicle of the old names and work orders. |
| Import.Extension | dsEngine/Dealer.cs:119 | The extension is empty or a '.' and at least one more character. It is a suffix of the path with no separator and no other '.'. |
| Import.IsCsv | dsEngine/Dealer.cs:119-121 | A path is dispatched as CSV exactly when its extension is a dot followed by c, s and v, each in either case. |
| Import.ExtensionOfSuffix | dsEngine/Dealer.cs:119 | A name followed by an extension such as ".CSV" has exactly that extension. |
| Import.Cell | dsEngine/Dealer.cs:201 | It returns the row's value for a column it has, and the missing-column error exactly for one it has not. |
| Import.ParseCondition | dsEngine/Dealer.cs:203 | Only "NEW" and "USED" are read, as the two conditions. |
| Import.ParseYear | dsEngine/Dealer.cs:204 | An accepted year is non-negative and is the Convert.ToUInt16 value of the text. |
| Import.ReadRow | dsEngine/Dealer.cs:200-214 | A row is read exactly when it has all nine columns and its condition, year, price and date texts parse. A read row gives the VIN, stock number, make, model and dealer name of their columns, the parsed condition, year and service date, and `refno` empty. Every failure is one of the five row errors: a missing column (named), or a condition, year, price or date text (quoted) that does not parse. A row without a VIN column fails on that column first. |
| Import.ReadRowOf | dsEngine/Dealer.cs:200-214 | Any vehicle written out as a row, with a decimal price, is read back exactly. |
| Import.ReadRows | dsEngine/Dealer.cs:198 | Row by row, what each row reads as. |
| Import.Process | dsEngine/Dealer.cs:198-220 | The row loop keeps one work-order dictionary per dealer. Its behaviour on failures and concatenation is stated by the lemmas below. |
| Import.ParseCsvSpec | dsEngine/Dealer.cs:179-195 | A column count other than 21 is an unsupported source, and changes nothing. |
| Import.ProcessAppend | dsEngine/Dealer.cs:198-220 | Processing a + b is processing a, then b only if a raised nothing. |
| Import.UnknownDealerSkipsRestOfFile | dsEngine/Dealer.cs:214-219 | At a row naming an unknown dealer, the rows before it stay added and no later row is processed. |
| Import.BadRowSkipsRestOfFile | dsEngine/Dealer.cs:200-210 | At a row that fails to read, the rows before it stay added, the error is that row's, and no later row is processed. |
| Import.UnknownDealerEndsTable | dsEngine/Dealer.cs:214-219 | The same for a whole 21-column table. |
| Import.AddVehicleGrows | dsEngine/Dealer.cs:240-250 | No vehicle is ever removed from any dealer's day. |
| Import.ProcessGrows | dsEngine/Dealer.cs:198-220 | Processing a file never removes a vehicle. |
| Import.ProcessValid | dsEngine/Dealer.cs:198-220 | Processing a file keeps every day in order. |
| Import.ImportFile | dsEngine/Dealer.cs:119-129 | A path whose extension is not ".csv" (in any case) is an invalid file type, and changes nothing. |
| Import.ImportFrom | dsEngine/Dealer.cs:112-153 | The import loop keeps one work-order dictionary per dealer. Its catch policy is stated by the lemmas below. |
| Results.Error.IsInvalidData | dsEngine/Dealer.cs:132-141 | The errors `catch (InvalidDataException)` handles: an invalid file type or an unsupported source. None of them is caught as an invalid operation. |
| Results.Error.IsInvalidOperation | dsEngine/Dealer.cs:146-150 | The error `catch (InvalidOperationException)` handles: dealer-not-found. |
| Import.ImportFromNext | dsEngine/Dealer.cs:133-151 | A helper lemma, not a separate promise: `ImportFrom` unfolded one step, one line per catch clause (see the list after this table). The prompt lemmas below tie it to the inputs. |
| Import.NonCsvFilePrompts | dsEngine/Dealer.cs:127-142 | A non-".csv" file changes nothing. "Yes" goes on with the next file, and "no" stops there. |
| Import.UnsupportedSourcePrompts | dsEngine/Dealer.cs:193-194 | A ".csv" table with a column count other than 21 is handled like an invalid file: continue on "yes", stop on "no", nothing added. |
| Import.UnknownDealerSkipsFile | dsEngine/Dealer.cs:147-151 | An unknown dealer at some row skips only the rest of that file. The import goes on from the work orders the earlier rows produced. |
| Import.BadRowEndsTable | dsEngine/Dealer.cs:200-210 | In a 21-column table, a row that fails to read ends the table with that row's error, keeping the vehicles of the rows before it. |
| Import.BadRowAbortsImport | dsEngine/Dealer.cs:200-210 | A row with a missing column or a text that does not parse raises an exception that no catch clause of the loop at 133-151 handles. The whole import ends `Aborted` with that error, keeping the work orders of everything before it. |
| Import.ImportFromInvalidOperation | dsEngine/Dealer.cs:147-151 | A file that raises dealer-not-found is followed by the next file, with no prompt. |
| Import.ImportFileGrows | dsEngine/Dealer.cs:116-129 | One file never removes a vehicle, and keeps the days in order. |
| Import.ImportGrowsAndKeepsValid | dsEngine/Dealer.cs:112-153 | A whole import only ever adds vehicles, and keeps every day of every dealer in order. |
| Import.ParseCsv | dsEngine/Dealer.cs:161-221 | The directory and its names are unchanged and it stays valid. The new work orders and the exception are exactly ParseCsvSpec of the old state. |
| Import.ImportVehiclesFromFile | dsEngine/Dealer.cs:112-153 | The directory and its names are unchanged and it stays valid. The new work orders and how the import ended are exactly ImportFrom of the old state and the operator's answers. |
| Import.ImportFileInto | dsEngine/Dealer.cs:116-129 | One path's try block: the new work orders and exception are exactly ImportFile of the old state. |

`Dealers.Dealer.SetName` states:
- A null or empty value fails with NameMissing and keeps the name.
- Otherwise a cleaned name that another dealer of the directory holds fails with DuplicateName and keeps the name.
- Otherwise the cleaned name is stored, and the old configuration file is returned when the dealer had a name.
- The work orders are never touched, and a valid directory stays valid.

`Dealers.NewDealer` states:
- A null or empty name fails with NameMissing.
- Otherwise it fails exactly when the cleaned name is taken, with DuplicateName and the directory unchanged.
- On success a fresh dealer with the cleaned name and no work orders is appended.
- The directory stays valid.

`Import.ImportFromNext` states:
- No exception goes on with the next file.
- An invalid file type or source goes on after "yes" and stops after "no".
- Dealer-not-found goes on.
- Any other exception aborts the import, and the work orders are kept as they are.

## Left out

- **File and JSON persistence.** `Save`, `LoadDealers`, `File.Exists` and
  `File.Delete` are not modelled, because the model has no file system.
  `Dealers.Dealer.SetName` returns the name of the file the setter would
  delete.
- **Reading the CSV file.** The parser `GenericParserAdapter` and its
  options are not modelled. These include the comma delimiter, the header
  row, and the 1000-row and 4096-byte limits. `ParseCsv` takes the parsed
  table (its column count and rows) as input.
- **Message boxes.** The `MessageBox` prompts and messages are not modelled.
  The operator's answer for each file is the `answers` input, and messages
  are not shown.
- **Culture-sensitive comparison and lower-casing.** `string.CompareTo` and
  `ToLower` are culture-sensitive in .NET. The model uses ordinal order
  (`CompareOrdinal`) and ASCII lower-casing.
- **Unicode in `\W`.** .NET's `\w` includes Unicode letters, digits and
  connector punctuation. `Text.IsWordChar` is ASCII only.
- **Other forms of `Enum.Parse`.** Numeric text and surrounding white space
  are not accepted; only "NEW" and "USED" are.
- **Other forms of `DateTime.Parse`.** Only the ISO forms "yyyy-MM-dd",
  "yyyy-MM-dd HH:mm:ss" and "yyyy-MM-ddTHH:mm:ss" are read. Culture and format variety is out of
  scope.
- Text.IsDecimalText: a simplified `decimal.Parse`. It accepts a leading
  sign, digits and one optional fraction after '.', and nothing else. The
  source parses with `NumberStyles.Number`, which also accepts white space
  at either end, thousands separators and a trailing sign ("5-"). The source
  throws `OverflowException` for a value beyond
  ±79,228,162,514,264,337,593,543,950,335, while the model accepts any
  number of digits. The decimal separator is the culture's there and always
  '.' here. The value is discarded, because `Vehicle` has no field for it.
- Import.ParseYear: does not follow `Convert.ToUInt16` past 32767. The
  year must fit the `short` that `Vehicle` stores, because the source
  converts an unsigned 16-bit value to `short` with no conversion written
  out.
- Text.ParseUInt16: reads plain decimal digits only. `Convert.ToUInt16`
  parses with `NumberStyles.Integer`, which also accepts white space at
  either end and a leading sign ("+2019", " 2019", "-0"). The model reports
  such a year as `BadYear`, so its import ends `Aborted` where the source
  goes on.
- Import.Cell: looks a column up by its exact name. The `DataRow` indexer
  falls back to a case-insensitive match of the column name, so a header
  spelled "Vin" or "dealer name" is found by the source. The model reports
  it as `MissingColumn`, and the import ends `Aborted`.
- WorkOrders.Add: an idealised `SortedSet`. `WorkOrder` is taken to wrap a
  `SortedSet<Vehicle>` (the class is not part of this model). The model
  refuses a vehicle that compares 0 with any vehicle of the day. The .NET
  tree compares it only with the vehicles on one search path. Comparing 0
  is not transitive (`Vehicles.CompareZeroNotTransitive`), so the real set
  can take a vehicle whose VIN is already listed. For example, after adding
  X (VIN "V2", stock "S3") and A ("V1", "S5"), the vehicle C ("V1", "S1")
  is compared with X only and is added beside A. The order and the absence
  of repeated VINs proved for a day (`WorkOrders.AddOrdered`,
  `WorkOrders.OrderedHasDistinctVins`) are properties of this idealised set
  only.
- **The `SortedSet` of dealers.** The directory is a sequence, so the tree's
  order and the effect of renaming a dealer while it is in the tree are not
  modelled. The lookups are "first dealer with this exact name". In a valid
  directory (unique names) that is the only such dealer, whatever the order.
- **The `Process` flag.** It is an invoice switch that is not read or
  written in this core.
- **Charges, invoices, settings and UI.** `Charges` (`Charge`,
  `ChargeType`), invoices and PDF generation, `Settings`, and
  `FormMainMenu` are outside the dealer core.
- **Invalid path characters.** The invalid-path-character check of .NET
  Framework's `Path.GetExtension` is not modelled; `Import.Extension` only
  scans for '.', '/', '\\' and ':'.
- **The getters.** `Vin`, `Stock`, `Refno` and `Cond` are not separate
  members: they are the destructors of the `Vehicle` datatype.
- Dealers.Dealer.SetName: the property that re-assigning a dealer its own
  name succeeds is proved as `Dealers.RenameToOwnName` over the directory's
  names, rather than in the method's own `ensures`.
- **Unexpected exceptions.** Other exceptions in `ParseCSV`, such as an I/O
  error or a file in use, are not modelled. Every error the model does
  raise, other than an invalid file type, an unsupported source or an
  unknown dealer, ends the import as `Aborted`, as an uncaught exception
  would.
