/**
 * The CSV loader: derives a table name from the CSV file's path, then
 * replaces that table in a SQLite database with one whose columns are the
 * CSV header (every column typed TEXT) and whose rows are the remaining
 * CSV records, in file order.
 *
 * The file is taken as already parsed into rows of fields; the database is
 * a `Database` object holding its tables by name.
 */
module CsvToSqlite {

  import opened Wrappers

  const EmptyCsvMessage := "Error: CSV file is empty."

  // ---------------------------------------------------------------------
  // String searches, as Python's str.find and str.rfind
  // ---------------------------------------------------------------------

  /** The index of the first `c` in `s`, or -1. */
  function Find(s: string, c: char): (k: int)
    ensures -1 <= k < |s|
    ensures k >= 0 ==> s[k] == c
    ensures forall j :: 0 <= j < |s| && (k < 0 || j < k) ==> s[j] != c
    decreases |s|
  {
    if s == [] then -1
    else if s[0] == c then 0
    else
      var k := Find(s[1..], c);
      if k < 0 then -1 else k + 1
  }

  /** The index of the last `c` in `s`, or -1. */
  function RFind(s: string, c: char): (k: int)
    ensures -1 <= k < |s|
    ensures k >= 0 ==> s[k] == c
    ensures forall j :: k < j < |s| ==> s[j] != c
    decreases |s|
  {
    if s == [] then -1
    else if s[|s| - 1] == c then |s| - 1
    else RFind(s[..|s| - 1], c)
  }

  // ---------------------------------------------------------------------
  // The table name: os.path.splitext(os.path.basename(csv_path))[0]
  // ---------------------------------------------------------------------

  /** `os.path.basename`: everything after the last '/'. */
  function Basename(path: string): (b: string)
    ensures '/' !in b
    ensures exists k :: 0 <= k <= |path| && b == path[k..]
  {
    var k := RFind(path, '/') + 1;
    assert forall j :: 0 <= j < |path[k..]| ==> path[k..][j] == path[k + j];
    path[k..]
  }

  /** Whether `s[..n]` holds a character other than '.'. */
  predicate HasNonDotBefore(s: string, n: nat)
    requires n <= |s|
  {
    exists j :: 0 <= j < n && s[j] != '.'
  }

  /**
   * The root of `os.path.splitext` on a name without '/': the name up to
   * its last '.', unless that dot is the last of a run of leading dots
   * (".bashrc", "..csv"), or there is none, in which case the whole name.
   */
  function StripExtension(name: string): (root: string)
    ensures root <= name
    ensures root == name || (RFind(name, '.') == |root| && HasNonDotBefore(name, |root|))
  {
    var dot := RFind(name, '.');
    if dot >= 0 && HasNonDotBefore(name, dot) then name[..dot] else name
  }

  function TableName(csvPath: string): (name: string)
    ensures '/' !in name
  {
    StripExtension(Basename(csvPath))
  }

  /** A file name of a stem and one extension loses exactly the extension. */
  lemma TableNameDropsExtension(dir: string, stem: string, ext: string)
    requires dir == [] || dir[|dir| - 1] == '/'
    requires '/' !in stem && '/' !in ext && '.' !in ext
    requires exists j :: 0 <= j < |stem| && stem[j] != '.'
    ensures TableName(dir + stem + "." + ext) == stem
  {
    assert dir + stem + "." + ext == dir + (stem + "." + ext);
    BasenameAfterDirectory(dir, stem + "." + ext);
    StripLastExtension(stem, ext);
  }

  /** A file name without a dot is the table name as it stands. */
  lemma TableNameWithoutExtension(dir: string, name: string)
    requires dir == [] || dir[|dir| - 1] == '/'
    requires '/' !in name && '.' !in name
    ensures TableName(dir + name) == name
  {
    BasenameAfterDirectory(dir, name);
    RFindIsLast(name, '.', -1);
  }

  lemma BasenameAfterDirectory(dir: string, name: string)
    requires dir == [] || dir[|dir| - 1] == '/'
    requires '/' !in name
    ensures Basename(dir + name) == name
  {
    var path := dir + name;
    RFindIsLast(path, '/', |dir| - 1);
    assert path[|dir|..] == name;
  }

  lemma StripLastExtension(stem: string, ext: string)
    requires '.' !in ext
    requires exists j :: 0 <= j < |stem| && stem[j] != '.'
    ensures StripExtension(stem + "." + ext) == stem
  {
    var name := stem + "." + ext;
    RFindIsLast(name, '.', |stem|);
    assert name[..|stem|] == stem;
    var j :| 0 <= j < |stem| && stem[j] != '.';
    assert name[j] == stem[j];
  }

  /** `k` is where `c` last occurs in `s` (or -1 when it never does). */
  lemma RFindIsLast(s: string, c: char, k: int)
    requires -1 <= k < |s|
    requires k >= 0 ==> s[k] == c
    requires forall j :: k < j < |s| ==> s[j] != c
    ensures RFind(s, c) == k
  {
  }

  // ---------------------------------------------------------------------
  // The SQL text: column definitions and placeholders
  // ---------------------------------------------------------------------

  /** `sep.join(parts)`. */
  function Join(parts: seq<string>, sep: string): (s: string)
    decreases |parts|
  {
    if parts == [] then ""
    else if |parts| == 1 then parts[0]
    else parts[0] + sep + Join(parts[1..], sep)
  }

  /** One column definition: the name in double quotes, typed TEXT. */
  function ColumnDef(column: string): string
  {
    "\"" + column + "\" TEXT"
  }

  /** The column list of the CREATE TABLE statement, in header order. */
  function ColumnList(header: seq<string>): (s: string)
    ensures s == [] <==> header == []
  {
    var defs := seq(|header|, i requires 0 <= i < |header| => ColumnDef(header[i]));
    assert header != [] ==> |Join(defs, ", ")| >= |defs[0]|;
    Join(defs, ", ")
  }

  /** The value list of the INSERT statement: one '?' per header field. */
  function Placeholders(header: seq<string>): (s: string)
  {
    Join(seq(|header|, _ => "?"), ", ")
  }

  function DropStatement(table: string): string
  {
    "DROP TABLE IF EXISTS " + table
  }

  function CreateStatement(table: string, header: seq<string>): string
  {
    "CREATE TABLE " + table + " (" + ColumnList(header) + ")"
  }

  function InsertStatement(table: string, header: seq<string>): string
  {
    "INSERT INTO " + table + " VALUES (" + Placeholders(header) + ")"
  }

  /**
   * Reads a column list back: `"name" TEXT` definitions separated by ", ".
   * It stands for the way the database reads the statement.
   */
  function ParseColumnList(s: string): (r: Option<seq<string>>)
  {
    if s == [] then Some([]) else ParseColumnDefs(s)
  }

  function ParseColumnDefs(s: string): (r: Option<seq<string>>)
    ensures r.Some? ==> r.value != []
    decreases |s|
  {
    if s == [] || s[0] != '"' then None
    else
      var close := Find(s[1..], '"');
      if close < 0 then None
      else
        var name, rest := s[1..close + 1], s[close + 2..];
        if !StartsWith(rest, " TEXT") then None
        else
          var after := rest[5..];
          if after == [] then Some([name])
          else if !StartsWith(after, ", ") then None
          else
            match ParseColumnDefs(after[2..])
            case None => None
            case Some(names) => Some([name] + names)
  }

  predicate StartsWith(s: string, prefix: string)
  {
    |prefix| <= |s| && s[..|prefix|] == prefix
  }

  predicate NoQuotes(header: seq<string>)
  {
    forall i :: 0 <= i < |header| ==> '"' !in header[i]
  }

  /**
   * The CREATE statement declares exactly the header's columns, in order,
   * when no column name holds a double quote.
   */
  lemma {:induction false} ColumnListRoundTrip(header: seq<string>)
    requires NoQuotes(header)
    ensures ParseColumnList(ColumnList(header)) == Some(header)
    decreases |header|
  {
    if header != [] {
      var col, more := header[0], header[1..];
      assert '"' !in col;
      ColumnListSplit(header);
      if more == [] {
        ParseLastDef(col);
        assert header == [col];
      } else {
        assert NoQuotes(more);
        ColumnListRoundTrip(more);
        ParseDefThenMore(col, ColumnList(more), more);
        assert [col] + more == header;
      }
    }
  }

  /** The column list is the first definition, then ", " and the rest when there is more. */
  lemma ColumnListSplit(header: seq<string>)
    requires header != []
    ensures |header| == 1 ==> ColumnList(header) == ColumnDef(header[0])
    ensures |header| > 1 ==> ColumnList(header) == ColumnDef(header[0]) + ", " + ColumnList(header[1..])
  {
    var defs := seq(|header|, i requires 0 <= i < |header| => ColumnDef(header[i]));
    if |header| > 1 {
      assert defs[1..] == seq(|header[1..]|, i requires 0 <= i < |header[1..]| => ColumnDef(header[1..][i]));
    }
  }

  /** A lone definition reads back as its one name. */
  lemma ParseLastDef(col: string)
    requires '"' !in col
    ensures ParseColumnDefs(ColumnDef(col)) == Some([col])
  {
    DefinitionParts(col, "");
    assert ColumnDef(col) + "" == ColumnDef(col);
    FindIsFirst(ColumnDef(col)[1..], '"', |col|);
  }

  /** A definition followed by ", " and more definitions reads back as its name, then theirs. */
  lemma ParseDefThenMore(col: string, rest: string, names: seq<string>)
    requires '"' !in col
    requires rest != [] && ParseColumnDefs(rest) == Some(names)
    ensures ParseColumnDefs(ColumnDef(col) + ", " + rest) == Some([col] + names)
  {
    var tail := ", " + rest;
    assert ColumnDef(col) + ", " + rest == ColumnDef(col) + tail;
    DefinitionParts(col, tail);
    FindIsFirst((ColumnDef(col) + tail)[1..], '"', |col|);
    assert StartsWith(tail, ", ") && tail[2..] == rest;
  }

  /** Where the pieces of a definition sit in the statement text. */
  lemma DefinitionParts(col: string, tail: string)
    requires '"' !in col
    ensures var s := ColumnDef(col) + tail;
      && s != [] && s[0] == '"'
      && |col| < |s[1..]| && s[1..][|col|] == '"'
      && (forall j :: 0 <= j < |col| ==> s[1..][j] != '"')
      && s[1..|col| + 1] == col
      && StartsWith(s[|col| + 2..], " TEXT")
      && s[|col| + 2..][5..] == tail
  {
    var s := ColumnDef(col) + tail;
    assert s == ['"'] + col + ['"'] + " TEXT" + tail;
    assert s[1..] == col + ['"'] + " TEXT" + tail;
    assert s[|col| + 2..] == " TEXT" + tail;
  }

  /** `k` is where `c` first occurs in `s` (or -1 when it never does). */
  lemma FindIsFirst(s: string, c: char, k: int)
    requires -1 <= k < |s|
    requires k >= 0 ==> s[k] == c
    requires forall j :: 0 <= j < |s| && (k < 0 || j < k) ==> s[j] != c
    ensures Find(s, c) == k
  {
  }

  /** The number of times `c` occurs in `s`. */
  function Count(s: string, c: char): nat
  {
    if s == [] then 0 else (if s[0] == c then 1 else 0) + Count(s[1..], c)
  }

  lemma {:induction false} CountAppend(a: string, b: string, c: char)
    ensures Count(a + b, c) == Count(a, c) + Count(b, c)
    decreases |a|
  {
    if a != [] {
      CountAppend(a[1..], b, c);
      var ab := a + b;
      assert ab != [] && ab[0] == a[0] && ab[1..] == a[1..] + b;
      assert Count(ab, c) == (if a[0] == c then 1 else 0) + Count(a[1..] + b, c);
    } else {
      assert a + b == b;
    }
  }

  /** The INSERT statement binds exactly as many values as the header has fields. */
  lemma {:induction false} PlaceholdersCount(header: seq<string>)
    ensures Count(Placeholders(header), '?') == |header|
    ensures |Placeholders(header)| == if header == [] then 0 else 3 * |header| - 2
    decreases |header|
  {
    if |header| > 1 {
      PlaceholdersCount(header[1..]);
      assert seq(|header|, _ => "?")[1..] == seq(|header[1..]|, _ => "?");
      CountAppend("?, ", Placeholders(header[1..]), '?');
      assert Placeholders(header) == "?, " + Placeholders(header[1..]);
    }
  }

  // ---------------------------------------------------------------------
  // The database
  // ---------------------------------------------------------------------

  /** A table: its column names and its rows, in insertion order. */
  datatype Table = Table(columns: seq<string>, rows: seq<seq<string>>)

  /** A SQLite database, as the tables it holds by name. */
  class Database {
    var tables: map<string, Table>

    constructor ()
      ensures tables == map[]
    {
      tables := map[];
    }

    /** DROP TABLE IF EXISTS. */
    method DropTableIfExists(name: string)
      modifies this
      ensures tables == old(tables) - {name}
    {
      tables := tables - {name};
    }

    /** CREATE TABLE: fails, changing nothing, when the name is taken. */
    method CreateTable(name: string, columns: seq<string>) returns (created: bool)
      modifies this
      ensures created <==> name !in old(tables)
      ensures tables == if created then old(tables)[name := Table(columns, [])] else old(tables)
    {
      created := name !in tables;
      if created {
        tables := tables[name := Table(columns, [])];
      }
    }

    /** INSERT of one row with a value for every column. */
    method Insert(name: string, record: seq<string>)
      requires name in tables && |record| == |tables[name].columns|
      modifies this
      ensures tables == old(tables)[name := Table(old(tables)[name].columns, old(tables)[name].rows + [record])]
    {
      var t := tables[name];
      tables := tables[name := Table(t.columns, t.rows + [record])];
    }

    /** `executemany` of the INSERT statement: every record, in order. */
    method InsertMany(name: string, records: seq<seq<string>>)
      requires name in tables
      requires forall i :: 0 <= i < |records| ==> |records[i]| == |tables[name].columns|
      modifies this
      ensures tables == old(tables)[name := Table(old(tables)[name].columns, old(tables)[name].rows + records)]
    {
      ghost var before := tables;
      var columns := tables[name].columns;
      ghost var rows := tables[name].rows;
      var i := 0;
      assert rows + records[..0] == rows;
      assert tables == before[name := Table(columns, rows + records[..0])];
      while i < |records|
        invariant 0 <= i <= |records|
        invariant tables == before[name := Table(columns, rows + records[..i])]
      {
        Insert(name, records[i]);
        assert rows + records[..i + 1] == (rows + records[..i]) + [records[i]];
        i := i + 1;
      }
      assert records[..i] == records;
    }
  }

  datatype LoadOutcome =
    | EmptyCsv(message: string)
    | Loaded(drop: string, create: string, insert: string)

  /**
   * `convert_csv_to_sqlite`: `csv` is the file's rows as the CSV reader
   * yields them. An empty file stops the loader before the database is
   * touched; otherwise the first row is the header and every later row a
   * record, and the table named after the file is replaced. The columns
   * the table gets are the ones its CREATE statement declares, read back
   * from the statement's text.
   */
  method ConvertCsvToSqlite(db: Database, csvPath: string, csv: seq<seq<string>>) returns (outcome: LoadOutcome)
    requires csv != [] ==> NoQuotes(csv[0])
    requires forall i :: 1 <= i < |csv| ==> |csv[i]| == |csv[0]|
    modifies db
    ensures csv == [] ==> outcome == EmptyCsv(EmptyCsvMessage) && db.tables == old(db.tables)
    ensures csv != [] ==>
      var name := TableName(csvPath);
      && outcome == Loaded(DropStatement(name), CreateStatement(name, csv[0]), InsertStatement(name, csv[0]))
      && db.tables == old(db.tables)[name := Table(csv[0], csv[1..])]
  {
    var name := TableName(csvPath);
    if csv == [] {
      return EmptyCsv(EmptyCsvMessage);
    }
    var header := csv[0];
    var records := csv[1..];
    ghost var before := db.tables;
    db.DropTableIfExists(name);
    ColumnListRoundTrip(header);
    var declared := ParseColumnList(ColumnList(header)).value;
    var created := db.CreateTable(name, declared);
    assert created && db.tables == (before - {name})[name := Table(header, [])];
    assert forall i :: 0 <= i < |records| ==> records[i] == csv[i + 1];
    db.InsertMany(name, records);
    assert [] + records == records;
    assert db.tables == (before - {name})[name := Table(header, records)];
    assert db.tables == before[name := Table(header, records)];
    outcome := Loaded(DropStatement(name), CreateStatement(name, header), InsertStatement(name, header));
  }
}
