# County health lookup, number-word converter and CSV loader in Dafny

This project models the three pieces of logic in a small public-health
statistics service:

- **`/county_data`** (`api/county_data.py`). A POST handler that takes a
  JSON body with `zip` and `measure_name`. It checks the body, in order:
  the body is present, the `coffee: "teapot"` sentinel, both fields present,
  a five-digit ZIP, and a measure from a fixed list of twelve. It then reads
  the rows of `county_health_rankings` for that measure, newest `Year_span`
  first, and returns each row as a record with fourteen string-valued keys.
  Zero rows gives 404.
- **`/convert`** (`api/convert.py`). A POST handler that converts an English
  number word ("zero" to "ten", in any case) to its decimal string. Only
  text-to-decimal requests are supported.
- **The CSV loader** (`csv_to_sqlite.py`). It names a table after the CSV
  file, drops any table of that name, creates it with one TEXT column per
  header field, and inserts every later row.

Modules:

- `Json` (json.dfy): decoded JSON values, Python's `dict.get` and Python
  truthiness.
- `Ascii` (ascii.dfy): digit and lower-case helpers.
- `Wrappers` (wrappers.dfy): `Option`.
- `CountyData` (county_data.dfy): the county handler.
- `Convert` (convert.dfy): the converter.
- `CsvToSqlite` (csv_to_sqlite.dfy): the loader.

Both handlers are pure functions from the decoded body to a response. The
county handler also takes a `Store`. A `Store` is either the rows of
`county_health_rankings` (projected onto the fourteen selected columns) or
the message of a storage failure. The SQL query becomes a filter plus a
descending sort over those rows.

The loader is imperative. A `Database` object holds a `tables` map, and
its `DropTableIfExists`, `CreateTable`, `Insert` and `InsertMany` methods
update that map. `ConvertCsvToSqlite` drives them. The CSV file arrives
already parsed into rows of fields.

Three behaviours of the county handler shape the model:

- It refuses an empty body before it looks at the teapot sentinel
  (`api/county_data.py:28-33`), so an empty body gets 400 and not 418.
- The ZIP code is validated but never used: the query takes only the
  measure name as its parameter, and it has no row limit
  (`api/county_data.py:54-74`).
- Any exception inside the handler is answered with 500 and `str(e)`,
  unchanged (`api/county_data.py:86-87`).

## Model

| member | source | states |
|---|---|---|
| `Json.Truthy` | api/county_data.py:28-39 | no contract; defined by its body as Python truthiness (`None`, `False`, `0`, `""`, `[]` and `{}` are false); see `CountyData.MissingParameterRejected` |
| `Ascii.IsDigits` | api/county_data.py:42 | no contract; defined by its body as `str.isdigit` narrowed to ASCII: non-empty and every character '0'-'9'; see `CountyData.InvalidZipRejected` |
| `CountyData.ValidZip` | api/county_data.py:42 | no contract; defined by its body as line 42's test: a string of length five made of digits; see `CountyData.InvalidZipRejected` |
| `CountyData.ValidMeasure` | api/county_data.py:45 | no contract; defined by its body as membership of a string in the twelve allowed names; see `CountyData.InvalidMeasureRejected` |
| `CountyData.NoDataMessage` | api/county_data.py:78-79 | no contract; defined by its body as the 404 message naming the measure; see `CountyData.LookupAnswer` |
| `CountyData.Lookup` | api/county_data.py:48-84 | no contract; defined by its body as the query, the 404 for no rows and the formatting of the rest; see `CountyData.LookupAnswer` |
| `CountyData.Query` | api/county_data.py:54-75 | no contract; defined by its body as `Matching` then the descending sort; see `CountyData.QuerySelectsAndOrders` |
| `CountyData.SortByYearSpanDesc` | api/county_data.py:71 | no contract; defined by its body as an insertion sort standing for `ORDER BY Year_span DESC`; see `CountyData.SortPermutes` and `CountyData.SortIsSorted` |
| `CountyData.Insert` | api/county_data.py:71 | no contract; defined by its body as one insertion step of that sort; see `CountyData.InsertPermutes` and `CountyData.InsertKeepsSorted` |
| `CountyData.TextLe` | api/county_data.py:71 | no contract; defined by its body as SQLite's BINARY collation, code point by code point, a prefix first; see `CountyData.TextLeTotal` |
| `CountyData.CellLe` | api/county_data.py:71 | no contract; defined by its body as SQLite's order of stored values, NULL before any text; see `CountyData.CellLeTotal` |
| `CountyData.ToText` | api/county_data.py:83 | no contract; defined by its body as `str` of a stored value, with `str(None)` = "None"; see `CountyData.Format` |
| `CountyData.ZipToMap` | api/county_data.py:83 | no contract; defined by its body as `dict(zip(keys, values))`: pairs up to the shorter length, a later key overriding an earlier one; see `CountyData.ZipToMapKeys` and `CountyData.ZipToMapPairs` |
| `CountyData.Status` | api/county_data.py:29-87 | 200 exactly for a record list, 400 exactly for the validation failures, 404 exactly for "no data" |
| `CountyData.Handle` | api/county_data.py:23-87 | the full handler; it never answers 200 with an empty list |
| `CountyData.NoBodyComesFirst` | api/county_data.py:27-29 | a missing or empty body gives 400 "No JSON data provided" whatever the store holds |
| `CountyData.TeapotWins` | api/county_data.py:32-33 | a non-empty body with `coffee == "teapot"` gives 418 "I'm a teapot" whatever `zip` and `measure_name` are, even when both are absent |
| `CountyData.MissingParameterRejected` | api/county_data.py:36-40 | past the teapot check, 400 "Missing required parameters" exactly when `zip` or `measure_name` is absent, null or otherwise falsy |
| `CountyData.InvalidZipRejected` | api/county_data.py:42-43 | with both fields present, 400 "Invalid ZIP code" exactly when the zip is not a string of five digits |
| `CountyData.InvalidMeasureRejected` | api/county_data.py:45-46 | with a good zip, 400 "Invalid measure_name" exactly when the measure is not one of the twelve allowed names, compared case-sensitively |
| `CountyData.ValidationIgnoresStore` | api/county_data.py:27-50 | every 400 and the 418 are decided before the database is read: the same body gets the same answer from any store |
| `CountyData.ZipIsNotUsed` | api/county_data.py:54-74 | two requests that differ only in their (valid) zip get the same answer |
| `CountyData.ValidRequestLooksUp` | api/county_data.py:32-74 | a request that passes the teapot, missing-parameter, ZIP and measure checks is answered by the lookup of its measure name alone, whatever the table holds |
| `CountyData.LookupAnswer` | api/county_data.py:54-84 | against a readable table: 404 "No data found for measure <m>" exactly when no row has that `Measure_name`; otherwise 200 with the records of some sequence holding exactly the matching rows (multiplicities kept) in non-increasing `Year_span` order |
| `CountyData.ValidRequestAnswer` | api/county_data.py:54-84 | for a valid request: 404 naming the measure exactly when no row has that `Measure_name`; otherwise 200 with one record per matching row (multiplicities kept), taken from the rows in non-increasing `Year_span` order |
| `CountyData.Matching` | api/county_data.py:70 | `WHERE Measure_name = ?`: each row occurs in the result as often as in the table if its measure is the requested one, otherwise not at all |
| `CountyData.QuerySelectsAndOrders` | api/county_data.py:54-75 | the query result is a permutation of the matching rows, sorted by `Year_span` descending |
| `CountyData.InsertPermutes` | api/county_data.py:71 | inserting a row into the ordered result adds exactly that row |
| `CountyData.InsertKeepsSorted` | api/county_data.py:71 | inserting a row keeps year spans non-increasing |
| `CountyData.SortPermutes` | api/county_data.py:71 | `ORDER BY` neither adds nor drops rows |
| `CountyData.SortIsSorted` | api/county_data.py:71 | `ORDER BY Year_span DESC`: year spans never increase along the result |
| `CountyData.TextLeTotal` | api/county_data.py:71 | SQLite's BINARY text order relates every two strings |
| `CountyData.TextLeTransitive` | api/county_data.py:71 | the text order is transitive |
| `CountyData.TextLeAntisymmetric` | api/county_data.py:71 | strings that are each at most the other are equal |
| `CountyData.CellLeTotal` | api/county_data.py:71 | with NULL below all text, every two stored values are ordered |
| `CountyData.CellLeTransitive` | api/county_data.py:71 | the stored-value order is transitive |
| `CountyData.Columns` | api/county_data.py:55-68 | the fourteen selected values, in SELECT order (`Year_span` fifth, `Measure_name` sixth) |
| `CountyData.ZipToMapKeys` | api/county_data.py:83 | `dict(zip(keys, values))` with as many values as keys has exactly those keys |
| `CountyData.ZipToMapPairs` | api/county_data.py:83 | `dict(zip(keys, values))` with distinct keys and as many values maps each key to its own value |
| `CountyData.Format` | api/county_data.py:82-83 | a record has exactly the fourteen keys, the i-th key holding `str` of the i-th selected column |
| `CountyData.RecordsHaveFixedKeys` | api/county_data.py:82-84 | every record of a 200 answer has exactly the fourteen keys |
| `CountyData.ScenarioValidated` | tests/test_county_data.py:57-68 | zip "02138" with "Adult obesity" passes every check and reaches the lookup |
| `CountyData.ScenarioValidRequest` | tests/test_county_data.py:57-68 | zip "02138" and "Adult obesity" against the one Middlesex row: 200 with that row's single record |
| `CountyData.ScenarioRecord` | tests/test_county_data.py:33-36 | that record carries "Middlesex County", "2009" and "25017" under `county`, `year_span` and `fipscode` |
| `CountyData.ScenarioTeapot` | tests/test_county_data.py:71-74 | `{"coffee": "teapot"}` alone gives 418 with the body "I'm a teapot" |
| `CountyData.ScenarioMissingParameters` | tests/test_county_data.py:77-83 | a body without zip, or without measure_name, gives 400 |
| `CountyData.ScenarioNoData` | tests/test_county_data.py:86-89 | an allowed measure with no rows gives 404 "No data found for measure Uninsured" |
| `Ascii.Lower` | api/convert.py:37 | same length; each upper-case ASCII letter becomes its lower-case letter, every other character stays |
| `Ascii.LowerIdempotent` | api/convert.py:35-37 | lower-casing twice equals lower-casing once |
| `Convert.Convert` | api/convert.py:20-43 | every JSON reply has exactly one of `error` and `result` non-null; status 200 exactly when there is a result, 400 otherwise |
| `Convert.Respond` | api/convert.py:26-43 | the same, for the handler after its empty-body check |
| `Convert.Lookup` | api/convert.py:37-41 | status 200 exactly when the lower-cased input is a key of the table |
| `Convert.NoBodyRejected` | api/convert.py:22-24 | a missing or empty body gives 400 "No input provided" with a null result |
| `Convert.ReadsThreeKeys` | api/convert.py:26-28 | a non-empty body is answered from its `input`, `inputType` and `outputType` alone |
| `Convert.MissingParameterRejected` | api/convert.py:30-32 | any of the three absent or null gives 400 "Missing required parameters" |
| `Convert.OnlyTextToDecimal` | api/convert.py:34-43 | with string values, "Unsupported conversion" exactly when the pair is not text to decimal, case-insensitively |
| `Convert.TextToDecimalLooksUp` | api/convert.py:35-37 | a text-to-decimal request, type names in any case, is answered by the word lookup |
| `Convert.KnownWordConverts` | api/convert.py:6-18 | a word of the table in any case gives status 200, no error, and the numeral of its value |
| `Convert.UnknownWordFails` | api/convert.py:40-41 | any other word gives 400 "Conversion failed" with a null result |
| `Convert.InputCaseIgnored` | api/convert.py:37 | an input and its lower case get the same answer |
| `Convert.TypeNamesCaseIgnored` | api/convert.py:35 | type names and their lower case get the same answer |
| `Convert.NumberMapKeys` | api/convert.py:6-18 | the table's keys are exactly the eleven words "zero" to "ten" |
| `Convert.NumberMapIsDecimal` | api/convert.py:6-18 | the i-th word maps to the decimal numeral of i, and that numeral reads back as i |
| `Convert.DecimalRoundTrip` | api/convert.py:6-18 | the reference numerals read back as the numbers they were written from |
| `CsvToSqlite.RFind` | csv_to_sqlite.py:10 | the index of the last occurrence of a character, or -1 |
| `CsvToSqlite.Find` | csv_to_sqlite.py:27 | a helper of the reader that reads line 27's column list back (`ParseColumnList`), not code of the loader: the index of the first occurrence of a character, or -1 |
| `CsvToSqlite.Basename` | csv_to_sqlite.py:10 | the basename is a suffix of the path and holds no '/' |
| `CsvToSqlite.StripExtension` | csv_to_sqlite.py:10 | the root is a prefix of the name: either the whole name, or the part before the last '.' when a non-dot character precedes that dot |
| `CsvToSqlite.TableName` | csv_to_sqlite.py:10 | the table name holds no '/' |
| `CsvToSqlite.TableNameDropsExtension` | csv_to_sqlite.py:10 | `dir/stem.ext` names the table `stem`: the directory and the last extension are removed |
| `CsvToSqlite.TableNameWithoutExtension` | csv_to_sqlite.py:10 | a file name without a dot names the table as it stands |
| `CsvToSqlite.Join` | csv_to_sqlite.py:27 | no contract; defined by its body as `sep.join(parts)`, also used at line 31; see `CsvToSqlite.ColumnListSplit` and `CsvToSqlite.PlaceholdersCount` |
| `CsvToSqlite.ColumnDef` | csv_to_sqlite.py:27 | no contract; defined by its body as one `"<col>" TEXT` definition, the field pasted in unescaped; see `CsvToSqlite.ColumnListRoundTrip` |
| `CsvToSqlite.Placeholders` | csv_to_sqlite.py:31 | no contract; defined by its body as one '?' per header field joined by ", "; see `CsvToSqlite.PlaceholdersCount` |
| `CsvToSqlite.DropStatement` | csv_to_sqlite.py:25 | no contract; defined by its body as the DROP statement's text; see `CsvToSqlite.ConvertCsvToSqlite` |
| `CsvToSqlite.CreateStatement` | csv_to_sqlite.py:28 | no contract; defined by its body as the CREATE statement's text; see `CsvToSqlite.ConvertCsvToSqlite` |
| `CsvToSqlite.InsertStatement` | csv_to_sqlite.py:32 | no contract; defined by its body as the INSERT statement's text; see `CsvToSqlite.ConvertCsvToSqlite` and `CsvToSqlite.PlaceholdersCount` |
| `CsvToSqlite.ColumnList` | csv_to_sqlite.py:27 | the column list is empty exactly when the header is |
| `CsvToSqlite.ColumnListSplit` | csv_to_sqlite.py:27 | the column list is `"<first>" TEXT`, then ", " and the rest's list when there are more fields |
| `CsvToSqlite.ParseLastDef` | csv_to_sqlite.py:27-28 | a lone `"name" TEXT` definition reads back as that one name |
| `CsvToSqlite.ParseDefThenMore` | csv_to_sqlite.py:27-28 | a definition followed by ", " and further definitions reads back as its name followed by theirs |
| `CsvToSqlite.ColumnListRoundTrip` | csv_to_sqlite.py:27-28 | reading the CREATE column list back gives the header, in order, one TEXT column per field, when no field holds a double quote |
| `CsvToSqlite.PlaceholdersCount` | csv_to_sqlite.py:31-32 | the INSERT statement has exactly one '?' per header field, the placeholders joined by ", " |
| `CsvToSqlite.CountAppend` | csv_to_sqlite.py:31 | a helper of `PlaceholdersCount`, not code of the loader: occurrence counts add up over concatenation |
| `CsvToSqlite.Database.DropTableIfExists` | csv_to_sqlite.py:25 | the named table is gone; every other table is unchanged |
| `CsvToSqlite.Database.CreateTable` | csv_to_sqlite.py:27-29 | a fresh name gets an empty table with the given columns; a taken name fails and changes nothing |
| `CsvToSqlite.Database.Insert` | csv_to_sqlite.py:32-33 | one record is appended to the named table; nothing else changes |
| `CsvToSqlite.Database.InsertMany` | csv_to_sqlite.py:33 | `executemany`: every record is appended, in order; nothing else changes |
| `CsvToSqlite.ConvertCsvToSqlite` | csv_to_sqlite.py:8-34 | an empty CSV stops with "Error: CSV file is empty." and leaves the database unchanged; otherwise, for a header without double quotes, the table named after the file holds the columns its CREATE statement declares (read back from that statement, they are the header's fields in order) and every later row, in file order, replacing any earlier table of that name; all other tables are unchanged |

## Left out

- Flask itself is not modelled: the app object, routing, `request.get_json`,
  `jsonify` and `app.run`. POST-only and JSON content-type enforcement are
  the framework's job. A body is modelled as either absent or a JSON object.
  Other JSON bodies are not modelled. A falsy one (`[]`, `""`, `0`,
  `false`) is refused like an absent body, with "No JSON data provided"
  (`api/county_data.py:28`) or "No input provided" (`api/convert.py:23`).
  A truthy one that is not an object reaches `.get` and raises: in
  `county_data` that becomes 500 with `str(e)` (`api/county_data.py:86-87`),
  in `convert` it is not caught.
- JSON numbers are modelled as integers. Floating-point values are not
  modelled, so the falsy `0.0` is missing.
- The sqlite connection, `db_path` and the SQL engine are replaced by
  `Store`. A store failure is one opaque branch: 500 with the exception's
  message. No other exception inside `county_data` is modelled.
- Cells are NULL or TEXT. Both tables the code meets (the test fixture and
  the loader's) declare every column TEXT, and a TEXT column stores any
  number as text. REAL, INTEGER and BLOB values and their `str` forms are
  not modelled.
- CountyData.SortByYearSpanDesc: SQLite does not fix the order of rows with
  equal `Year_span`. The model picks one order (insertion sort). What is
  proved holds for any order SQLite may choose: a permutation of the
  matching rows, with year spans non-increasing.
- CountyData.ValidZip: `str.isdigit` is narrowed to ASCII '0'-'9'. Python
  also accepts other Unicode digits, such as full-width digits. For a
  five-character string of such digits, the source goes on to the query,
  while the model answers 400 "Invalid ZIP code".
- Ascii.Lower: `str.lower` is narrowed to the ASCII letters A-Z. Among
  non-ASCII characters, U+212A KELVIN SIGN lowers to 'k' and U+0130 lowers
  to 'i' followed by a combining dot. No number word and neither type name
  contains 'k', and the combining dot never matches. So this narrowing is
  not expected to change which requests match.
- Convert.Convert: calling `.lower()` on a value that is not a string
  raises, and the framework answers with its own 500 page. The model only
  marks this as `Uncaught`, without that page's content.
- The CSV file is not modelled: opening it, decoding it as UTF-8, parsing
  it with the `csv` module, and `argparse`/`main`. The loader receives the
  rows already parsed. `sys.exit` becomes the `EmptyCsv` outcome.
- CsvToSqlite.ConvertCsvToSqlite: requires every record to have as many
  fields as the header. In the source, a mismatch makes `executemany` raise
  after the DROP and CREATE have run. That failure and the rollback it
  triggers are not modelled.
- CsvToSqlite.ConvertCsvToSqlite: requires a header without double quotes.
  The source pastes each field between double quotes into the CREATE
  statement unescaped, so a field holding '"' changes the SQL. Examples:
  - a field `x" TEXT, "y` declares two columns, and then the INSERT with
    one placeholder fails;
  - a field `a""b` declares the column `a"b`;
  - a field `a"b` is a syntax error that comes after the DROP has run.
  The model does not include SQLite's grammar, so those outcomes are not
  modelled.
- CsvToSqlite.Database: tables are keyed by their exact name. Some SQLite
  behaviour is not modelled:
  - SQLite matches identifiers without regard to ASCII case;
  - the source interpolates the table name without quoting, so a name that
    is not a plain identifier makes the DROP fail;
  - SQLite rejects a header with repeated or no column names.
- Opening the database file (which creates it when absent) is not modelled.
  Neither is the commit.

