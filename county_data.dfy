/**
 * The `/county_data` handler: a validation ladder over the JSON body, a
 * query that keeps the rows of `county_health_rankings` naming the
 * requested measure, ordered by `Year_span` descending, and a positional
 * mapping of each selected row onto fourteen record keys.
 *
 * The sqlite connection is replaced by a `Store`: the rows the table holds
 * (already projected onto the fourteen selected columns, in storage
 * order), or a failure with the message of the exception it raised.
 */
module CountyData {

  import opened Wrappers
  import opened Json
  import Ascii

  /** The twelve measure names a request may ask for. */
  const AllowedMeasures: seq<string> := [
    "Violent crime rate",
    "Unemployment",
    "Children in poverty",
    "Diabetic screening",
    "Mammography screening",
    "Preventable hospital stays",
    "Uninsured",
    "Sexually transmitted infections",
    "Physical inactivity",
    "Adult obesity",
    "Premature Death",
    "Daily fine particulate matter"
  ]

  /** The keys of every returned record, in the order of the selected columns. */
  const RecordKeys: seq<string> := [
    "state", "county", "state_code", "county_code", "year_span",
    "measure_name", "measure_id", "numerator", "denominator", "raw_value",
    "confidence_interval_lower_bound", "confidence_interval_upper_bound",
    "data_release_year", "fipscode"
  ]

  const NoJsonData := "No JSON data provided"
  const MissingParameters := "Missing required parameters"
  const InvalidZipCode := "Invalid ZIP code"
  const InvalidMeasureName := "Invalid measure_name"
  const TeapotBody := "I'm a teapot"

  /**
   * A value stored in a TEXT column: SQL NULL or text. (A TEXT-affinity
   * column converts any number it is given to text before storing it.)
   */
  datatype Cell = Null | Text(s: string)

  /** One row of `county_health_rankings`, restricted to the selected columns. */
  datatype Row = Row(
    state: Cell,
    county: Cell,
    stateCode: Cell,
    countyCode: Cell,
    yearSpan: Cell,
    measureName: Cell,
    measureId: Cell,
    numerator: Cell,
    denominator: Cell,
    rawValue: Cell,
    ciLowerBound: Cell,
    ciUpperBound: Cell,
    dataReleaseYear: Cell,
    fipscode: Cell)

  /** What opening and querying the database yields. */
  datatype Store = Rows(rows: seq<Row>) | Failed(message: string)

  /** The handler's answer; `Teapot` carries the plain-text body of the 418. */
  datatype Response =
    | Teapot(body: string)
    | BadRequest(error: string)
    | NotFound(error: string)
    | ServerError(error: string)
    | Ok(records: seq<map<string, string>>)

  function Status(r: Response): (code: int)
    ensures code == 200 <==> r.Ok?
    ensures code == 400 <==> r.BadRequest?
    ensures code == 404 <==> r.NotFound?
  {
    match r
    case Teapot(_) => 418
    case BadRequest(_) => 400
    case NotFound(_) => 404
    case ServerError(_) => 500
    case Ok(_) => 200
  }

  // ---------------------------------------------------------------------
  // Validation
  // ---------------------------------------------------------------------

  /** A string of exactly five digit characters. */
  predicate ValidZip(v: Value)
  {
    v.Str? && |v.s| == 5 && Ascii.IsDigits(v.s)
  }

  /** Exactly (case-sensitively) one of the twelve allowed names. */
  predicate ValidMeasure(v: Value)
  {
    v.Str? && v.s in AllowedMeasures
  }

  // ---------------------------------------------------------------------
  // The query: WHERE Measure_name = ? ORDER BY Year_span DESC
  // ---------------------------------------------------------------------

  /**
   * SQLite's BINARY collation on text. Comparing UTF-8 bytes with memcmp
   * orders strings as their code points do, so this is the lexicographic
   * order on characters, a proper prefix coming first.
   */
  predicate TextLe(a: string, b: string)
    decreases |a|
  {
    a == [] || (b != [] && (a[0] < b[0] || (a[0] == b[0] && TextLe(a[1..], b[1..]))))
  }

  /** SQLite's order on stored values: NULL sorts below every text. */
  predicate CellLe(a: Cell, b: Cell)
  {
    match a
    case Null => true
    case Text(x) => b.Text? && TextLe(x, b.s)
  }

  lemma {:induction false} TextLeTotal(a: string, b: string)
    ensures TextLe(a, b) || TextLe(b, a)
    decreases |a|
  {
    if a != [] && b != [] && a[0] == b[0] {
      TextLeTotal(a[1..], b[1..]);
    }
  }

  lemma {:induction false} TextLeTransitive(a: string, b: string, c: string)
    requires TextLe(a, b) && TextLe(b, c)
    ensures TextLe(a, c)
    decreases |a|
  {
    if a != [] && a[0] == b[0] && b[0] == c[0] {
      TextLeTransitive(a[1..], b[1..], c[1..]);
    }
  }

  lemma {:induction false} TextLeAntisymmetric(a: string, b: string)
    requires TextLe(a, b) && TextLe(b, a)
    ensures a == b
    decreases |a|
  {
    if a != [] {
      TextLeAntisymmetric(a[1..], b[1..]);
      assert a == [a[0]] + a[1..] && b == [b[0]] + b[1..];
    }
  }

  lemma CellLeTotal(a: Cell, b: Cell)
    ensures CellLe(a, b) || CellLe(b, a)
  {
    if a.Text? && b.Text? {
      TextLeTotal(a.s, b.s);
    }
  }

  lemma CellLeTransitive(a: Cell, b: Cell, c: Cell)
    requires CellLe(a, b) && CellLe(b, c)
    ensures CellLe(a, c)
  {
    if a.Text? {
      TextLeTransitive(a.s, b.s, c.s);
    }
  }

  /** The rows with `Measure_name = measure`; a NULL cell never matches. */
  function Matching(table: seq<Row>, measure: string): (r: seq<Row>)
    ensures forall row :: multiset(r)[row] ==
                          if row.measureName == Text(measure) then multiset(table)[row] else 0
  {
    if table == [] then []
    else
      var rest := Matching(table[1..], measure);
      assert table == [table[0]] + table[1..];
      if table[0].measureName == Text(measure) then [table[0]] + rest else rest
  }

  /** Year spans never increase along `rows`. */
  predicate SortedByYearSpanDesc(rows: seq<Row>)
  {
    forall i, j :: 0 <= i < j < |rows| ==> CellLe(rows[j].yearSpan, rows[i].yearSpan)
  }

  /** Places `row` before the first row whose year span is not greater. */
  function Insert(row: Row, sorted: seq<Row>): (r: seq<Row>)
  {
    if sorted == [] || CellLe(sorted[0].yearSpan, row.yearSpan) then [row] + sorted
    else [sorted[0]] + Insert(row, sorted[1..])
  }

  /**
   * An order SQLite may return for ORDER BY Year_span DESC. SQLite leaves
   * the order of equal year spans open; this insertion sort fixes one.
   */
  function SortByYearSpanDesc(rows: seq<Row>): (r: seq<Row>)
  {
    if rows == [] then [] else Insert(rows[0], SortByYearSpanDesc(rows[1..]))
  }

  lemma {:induction false} InsertPermutes(row: Row, sorted: seq<Row>)
    ensures multiset(Insert(row, sorted)) == multiset(sorted) + multiset{row}
    decreases |sorted|
  {
    if sorted != [] && !CellLe(sorted[0].yearSpan, row.yearSpan) {
      InsertPermutes(row, sorted[1..]);
      assert sorted == [sorted[0]] + sorted[1..];
    }
  }

  lemma {:induction false} InsertKeepsSorted(row: Row, sorted: seq<Row>)
    requires SortedByYearSpanDesc(sorted)
    ensures SortedByYearSpanDesc(Insert(row, sorted))
    decreases |sorted|
  {
    var r := Insert(row, sorted);
    if sorted == [] {
    } else if CellLe(sorted[0].yearSpan, row.yearSpan) {
      forall i, j | 0 <= i < j < |r|
        ensures CellLe(r[j].yearSpan, r[i].yearSpan)
      {
        if i == 0 && j > 1 {
          CellLeTransitive(r[j].yearSpan, sorted[0].yearSpan, row.yearSpan);
        }
      }
    } else {
      var tail := Insert(row, sorted[1..]);
      InsertKeepsSorted(row, sorted[1..]);
      InsertPermutes(row, sorted[1..]);
      CellLeTotal(sorted[0].yearSpan, row.yearSpan);
      forall j | 0 <= j < |tail|
        ensures CellLe(tail[j].yearSpan, sorted[0].yearSpan)
      {
        assert tail[j] in multiset(sorted[1..]) + multiset{row};
        if tail[j] != row {
          assert tail[j] in multiset(sorted[1..]);
          var k :| 0 <= k < |sorted[1..]| && sorted[1..][k] == tail[j];
          assert sorted[k + 1] == tail[j];
        }
      }
      assert r == [sorted[0]] + tail;
    }
  }

  lemma {:induction false} SortPermutes(rows: seq<Row>)
    ensures multiset(SortByYearSpanDesc(rows)) == multiset(rows)
    decreases |rows|
  {
    if rows != [] {
      SortPermutes(rows[1..]);
      InsertPermutes(rows[0], SortByYearSpanDesc(rows[1..]));
      assert rows == [rows[0]] + rows[1..];
    }
  }

  lemma {:induction false} SortIsSorted(rows: seq<Row>)
    ensures SortedByYearSpanDesc(SortByYearSpanDesc(rows))
    decreases |rows|
  {
    if rows != [] {
      SortIsSorted(rows[1..]);
      InsertKeepsSorted(rows[0], SortByYearSpanDesc(rows[1..]));
    }
  }

  /** The rows the SELECT returns, in the order it returns them. */
  function Query(table: seq<Row>, measure: string): (r: seq<Row>)
  {
    SortByYearSpanDesc(Matching(table, measure))
  }

  /**
   * The query result is exactly the rows naming the measure, each as often
   * as the table holds it, and most recent year span first.
   */
  lemma QuerySelectsAndOrders(table: seq<Row>, measure: string)
    ensures forall row :: multiset(Query(table, measure))[row] ==
                          if row.measureName == Text(measure) then multiset(table)[row] else 0
    ensures SortedByYearSpanDesc(Query(table, measure))
  {
    SortPermutes(Matching(table, measure));
    SortIsSorted(Matching(table, measure));
  }

  // ---------------------------------------------------------------------
  // Formatting: dict(zip(keys, map(str, row)))
  // ---------------------------------------------------------------------

  /** The selected values of a row, in SELECT order. */
  function Columns(r: Row): (cols: seq<Cell>)
    ensures |cols| == |RecordKeys|
    ensures cols[4] == r.yearSpan && cols[5] == r.measureName
  {
    [r.state, r.county, r.stateCode, r.countyCode, r.yearSpan, r.measureName,
     r.measureId, r.numerator, r.denominator, r.rawValue, r.ciLowerBound,
     r.ciUpperBound, r.dataReleaseYear, r.fipscode]
  }

  /** Python's `str` on a value read from a TEXT column. */
  function ToText(c: Cell): string
  {
    match c
    case Null => "None"
    case Text(s) => s
  }

  /**
   * `dict(zip(keys, values))`: pairs are taken up to the shorter sequence
   * and entered in order, so a repeated key keeps its last value.
   */
  function ZipToMap(keys: seq<string>, values: seq<string>): (m: map<string, string>)
    decreases |keys|
  {
    var n := if |keys| < |values| then |keys| else |values|;
    if n == 0 then map[]
    else ZipToMap(keys[..n - 1], values[..n - 1])[keys[n - 1] := values[n - 1]]
  }

  predicate Distinct(keys: seq<string>)
  {
    forall i, j :: 0 <= i < j < |keys| ==> keys[i] != keys[j]
  }

  /** With as many values as keys, the keys of the map are exactly the keys given. */
  lemma {:induction false} ZipToMapKeys(keys: seq<string>, values: seq<string>)
    requires |keys| == |values|
    ensures forall k :: k in ZipToMap(keys, values) <==> k in keys
    decreases |keys|
  {
    var n := |keys|;
    if n > 0 {
      var ks, vs := keys[..n - 1], values[..n - 1];
      ZipToMapKeys(ks, vs);
      assert ZipToMap(keys, values) == ZipToMap(ks, vs)[keys[n - 1] := values[n - 1]];
      assert keys == ks + [keys[n - 1]];
    }
  }

  /** With distinct keys and as many values, every key maps to its own value. */
  lemma {:induction false} ZipToMapPairs(keys: seq<string>, values: seq<string>)
    requires Distinct(keys) && |keys| == |values|
    ensures forall i :: 0 <= i < |keys| ==>
      keys[i] in ZipToMap(keys, values) && ZipToMap(keys, values)[keys[i]] == values[i]
    decreases |keys|
  {
    var n := |keys|;
    if n > 0 {
      var ks, vs := keys[..n - 1], values[..n - 1];
      ZipToMapPairs(ks, vs);
      var m := ZipToMap(ks, vs)[keys[n - 1] := values[n - 1]];
      assert ZipToMap(keys, values) == m;
      forall i | 0 <= i < n - 1
        ensures keys[i] in m && m[keys[i]] == values[i]
      {
        assert ks[i] == keys[i] && vs[i] == values[i];
        assert keys[i] != keys[n - 1];
      }
    }
  }

  lemma RecordKeysDistinct()
    ensures Distinct(RecordKeys)
  {
  }

  /** One record: each key paired with its column's value as text. */
  function Format(r: Row): (rec: map<string, string>)
    ensures rec.Keys == set k | k in RecordKeys
    ensures forall i :: 0 <= i < |RecordKeys| ==> rec[RecordKeys[i]] == ToText(Columns(r)[i])
  {
    var values := seq(|RecordKeys|, i requires 0 <= i < |RecordKeys| => ToText(Columns(r)[i]));
    RecordKeysDistinct();
    ZipToMapKeys(RecordKeys, values);
    ZipToMapPairs(RecordKeys, values);
    ZipToMap(RecordKeys, values)
  }

  function FormatAll(rows: seq<Row>): (recs: seq<map<string, string>>)
    ensures |recs| == |rows|
    ensures forall i :: 0 <= i < |rows| ==> recs[i] == Format(rows[i])
  {
    seq(|rows|, i requires 0 <= i < |rows| => Format(rows[i]))
  }

  // ---------------------------------------------------------------------
  // The handler
  // ---------------------------------------------------------------------

  function NoDataMessage(measure: string): string
  {
    "No data found for measure " + measure
  }

  /** Runs the query for a validated measure name and shapes the response. */
  function Lookup(store: Store, measure: string): (resp: Response)
  {
    match store
    case Failed(message) => ServerError(message)
    case Rows(table) =>
      var rows := Query(table, measure);
      if rows == [] then NotFound(NoDataMessage(measure)) else Ok(FormatAll(rows))
  }

  /** `county_data()`: `body` is what `request.get_json()` returned. */
  function Handle(body: Option<map<string, Value>>, store: Store): (resp: Response)
    ensures resp != Ok([])
  {
    if body.None? || body.value == map[] then BadRequest(NoJsonData)
    else
      var data := body.value;
      if Get(data, "coffee") == Str("teapot") then Teapot(TeapotBody)
      else
        var zip := Get(data, "zip");
        var measure := Get(data, "measure_name");
        if !Truthy(zip) || !Truthy(measure) then BadRequest(MissingParameters)
        else if !ValidZip(zip) then BadRequest(InvalidZipCode)
        else if !ValidMeasure(measure) then BadRequest(InvalidMeasureName)
        else Lookup(store, measure.s)
  }

  // ---------------------------------------------------------------------
  // Properties of the handler
  // ---------------------------------------------------------------------

  /** A body that passed the first two rungs of the ladder. */
  predicate Nonempty(body: Option<map<string, Value>>)
  {
    body.Some? && body.value != map[]
  }

  predicate NotTeapot(body: Option<map<string, Value>>)
  {
    body.Some? && Get(body.value, "coffee") != Str("teapot")
  }

  /** No body, or an empty one, is refused before anything else is looked at. */
  lemma NoBodyComesFirst(body: Option<map<string, Value>>, store: Store)
    requires !Nonempty(body)
    ensures Handle(body, store) == BadRequest(NoJsonData)
    ensures Status(Handle(body, store)) == 400
  {
  }

  /** The teapot sentinel wins over every later check, whatever else the body holds. */
  lemma TeapotWins(body: Option<map<string, Value>>, store: Store)
    requires Nonempty(body) && Get(body.value, "coffee") == Str("teapot")
    ensures Handle(body, store) == Teapot(TeapotBody)
    ensures Status(Handle(body, store)) == 418
  {
  }

  /** An absent, null or empty zip or measure_name is reported as missing. */
  lemma MissingParameterRejected(body: Option<map<string, Value>>, store: Store)
    requires Nonempty(body) && NotTeapot(body)
    ensures Handle(body, store) == BadRequest(MissingParameters) <==>
      !Truthy(Get(body.value, "zip")) || !Truthy(Get(body.value, "measure_name"))
  {
  }

  /** A present zip that is not five digits is refused, before the measure is checked. */
  lemma InvalidZipRejected(body: Option<map<string, Value>>, store: Store)
    requires Nonempty(body) && NotTeapot(body)
    requires Truthy(Get(body.value, "zip")) && Truthy(Get(body.value, "measure_name"))
    ensures Handle(body, store) == BadRequest(InvalidZipCode) <==> !ValidZip(Get(body.value, "zip"))
  {
  }

  /** With a good zip, a measure outside the allow-list is refused. */
  lemma InvalidMeasureRejected(body: Option<map<string, Value>>, store: Store)
    requires Nonempty(body) && NotTeapot(body)
    requires ValidZip(Get(body.value, "zip")) && Truthy(Get(body.value, "measure_name"))
    ensures Handle(body, store) == BadRequest(InvalidMeasureName) <==>
      !ValidMeasure(Get(body.value, "measure_name"))
  {
  }

  /** Every refusal and the teapot are decided before the store is read. */
  lemma ValidationIgnoresStore(body: Option<map<string, Value>>, store: Store, other: Store)
    requires Handle(body, store).BadRequest? || Handle(body, store).Teapot?
    ensures Handle(body, other) == Handle(body, store)
  {
  }

  /** The zip is validated and then plays no part in the answer. */
  lemma ZipIsNotUsed(data: map<string, Value>, zip1: string, zip2: string, store: Store)
    requires ValidZip(Str(zip1)) && ValidZip(Str(zip2))
    ensures Handle(Some(data["zip" := Str(zip1)]), store) == Handle(Some(data["zip" := Str(zip2)]), store)
  {
  }

  /**
   * A valid request against a readable table: 404 naming the measure when
   * no row matches; otherwise one record per matching row, taken from the
   * rows in an order of non-increasing year span, each record carrying
   * exactly the fourteen keys, each key paired with its column as text.
   */
  lemma ValidRequestAnswer(body: Option<map<string, Value>>, table: seq<Row>)
    requires Nonempty(body) && NotTeapot(body)
    requires ValidZip(Get(body.value, "zip")) && ValidMeasure(Get(body.value, "measure_name"))
    ensures var m := Get(body.value, "measure_name").s;
      var resp := Handle(body, Rows(table));
      && (resp.NotFound? <==> forall row :: row in table ==> row.measureName != Text(m))
      && (resp.NotFound? ==> resp == NotFound(NoDataMessage(m)))
      && (!resp.NotFound? ==>
            && resp.Ok?
            && exists rows: seq<Row> ::
                 && (forall row :: multiset(rows)[row] ==
                                   if row.measureName == Text(m) then multiset(table)[row] else 0)
                 && SortedByYearSpanDesc(rows)
                 && resp.records == FormatAll(rows))
  {
    var m := Get(body.value, "measure_name").s;
    ValidRequestLooksUp(body, Rows(table));
    LookupAnswer(table, m);
  }

  /** A request that passes every check is answered by the lookup of its measure name. */
  lemma ValidRequestLooksUp(body: Option<map<string, Value>>, store: Store)
    requires Nonempty(body) && NotTeapot(body)
    requires ValidZip(Get(body.value, "zip")) && ValidMeasure(Get(body.value, "measure_name"))
    ensures Handle(body, store) == Lookup(store, Get(body.value, "measure_name").s)
  {
    var data := body.value;
    assert Truthy(Get(data, "zip")) && Truthy(Get(data, "measure_name"));
  }

  /** The lookup against a readable table: 404 exactly when no row matches, else the query's records. */
  lemma LookupAnswer(table: seq<Row>, m: string)
    ensures var resp := Lookup(Rows(table), m);
      && (resp.NotFound? <==> forall row :: row in table ==> row.measureName != Text(m))
      && (resp.NotFound? ==> resp == NotFound(NoDataMessage(m)))
      && (!resp.NotFound? ==>
            && resp.Ok?
            && exists rows: seq<Row> ::
                 && (forall row :: multiset(rows)[row] ==
                                   if row.measureName == Text(m) then multiset(table)[row] else 0)
                 && SortedByYearSpanDesc(rows)
                 && resp.records == FormatAll(rows))
  {
    var rows := Query(table, m);
    QuerySelectsAndOrders(table, m);
    if rows == [] {
      forall row | row in table
        ensures row.measureName != Text(m)
      {
        assert multiset(rows)[row] == 0;
      }
    } else {
      assert rows[0] in multiset(rows);
      assert rows[0] in table;
    }
  }

  /** Every record of a successful answer has the fourteen keys and no others. */
  lemma RecordsHaveFixedKeys(body: Option<map<string, Value>>, store: Store)
    requires Handle(body, store).Ok?
    ensures forall rec :: rec in Handle(body, store).records ==>
      rec.Keys == set k | k in RecordKeys
  {
  }

  // ---------------------------------------------------------------------
  // The scenarios of the repository's tests
  // ---------------------------------------------------------------------

  /** The single row of the test database. */
  const Middlesex := Row(
    Text("MA"), Text("Middlesex County"), Text("25"), Text("17"), Text("2009"),
    Text("Adult obesity"), Text("11"), Text("60771.02"), Text("263078"),
    Text("0.23"), Text("0.22"), Text("0.24"), Text("2012"), Text("25017"))

  lemma ScenarioQuery(row: Row)
    requires row == Middlesex
    ensures Query([row], "Adult obesity") == [row]
  {
    assert [row][1..] == [];
    assert Matching([row], "Adult obesity") == [row];
    assert SortByYearSpanDesc([row]) == Insert(row, SortByYearSpanDesc([]));
  }

  /** The request of the repository's valid-request test, against its one-row table. */
  lemma ScenarioValidRequest(body: Option<map<string, Value>>, row: Row)
    requires body == Some(map["zip" := Str("02138"), "measure_name" := Str("Adult obesity")])
    requires row == Middlesex
    ensures Handle(body, Rows([row])) == Ok(FormatAll([row]))
  {
    ScenarioValidated(body, Rows([row]));
    ScenarioQuery(row);
  }

  /** That request passes every check, whatever the table. */
  lemma ScenarioValidated(body: Option<map<string, Value>>, store: Store)
    requires body == Some(map["zip" := Str("02138"), "measure_name" := Str("Adult obesity")])
    ensures Handle(body, store) == Lookup(store, "Adult obesity")
  {
    var data := body.value;
    assert "zip" in data && "measure_name" in data && "coffee" !in data;
    assert Ascii.IsDigits("02138");
    assert "Adult obesity" == AllowedMeasures[9];
    ValidRequestLooksUp(body, store);
  }

  /** The one record of that answer, read back at three of its keys. */
  lemma ScenarioRecord(row: Row)
    requires row == Middlesex
    ensures var rec := Format(row);
      && "county" in rec && rec["county"] == "Middlesex County"
      && "year_span" in rec && rec["year_span"] == "2009"
      && "fipscode" in rec && rec["fipscode"] == "25017"
  {
    var rec := Format(row);
    assert rec[RecordKeys[1]] == ToText(Columns(row)[1]);
    assert rec[RecordKeys[4]] == ToText(Columns(row)[4]);
    assert rec[RecordKeys[13]] == ToText(Columns(row)[13]);
  }

  lemma ScenarioTeapot()
    ensures Handle(Some(map["coffee" := Str("teapot")]), Rows([Middlesex])) == Teapot("I'm a teapot")
  {
  }

  lemma ScenarioMissingParameters()
    ensures Handle(Some(map["measure_name" := Str("Adult obesity")]), Rows([Middlesex])) == BadRequest(MissingParameters)
    ensures Handle(Some(map["zip" := Str("02138")]), Rows([Middlesex])) == BadRequest(MissingParameters)
  {
    assert "measure_name" in map["measure_name" := Str("Adult obesity")];
    assert "zip" in map["zip" := Str("02138")];
  }

  lemma ScenarioNoData()
    ensures Handle(Some(map["zip" := Str("02138"), "measure_name" := Str("Uninsured")]), Rows([Middlesex]))
      == NotFound("No data found for measure Uninsured")
  {
    var data := map["zip" := Str("02138"), "measure_name" := Str("Uninsured")];
    assert "zip" in data && "measure_name" in data && "coffee" !in data;
    assert Ascii.IsDigits("02138");
    assert "Uninsured" == AllowedMeasures[6];
    ValidRequestLooksUp(Some(data), Rows([Middlesex]));
    assert Matching([Middlesex], "Uninsured") == [];
  }
}
