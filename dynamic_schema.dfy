/**
 * Dynamic schema evolution: new request fields become new nullable columns.
 *
 * The database is abstracted as a catalog from table names to their column
 * lists. Introspection raises for a table missing from the catalog and for
 * the tables in `uninspectable` (a lost connection or a denied permission on
 * a table that does exist). The database engine's refusal of a DDL statement
 * is an oracle: the set `refused` of column names whose `ALTER TABLE` fails.
 * An `ALTER` also fails when the table does not exist or already has the
 * column. Every attempted statement is appended to the `ddl` log, whether it
 * commits or rolls back.
 */
module DynamicSchema {
  import opened Common

  /** A runtime request value, tagged by its exact Python type. */
  datatype Value =
    | NoneValue
    | Str(s: string)
    | Int(i: int)
    | Float(f: real)
    | Bool(b: bool)
    | DateTimeValue(stamp: int)
    | DateValue(day: int)
    | Other(typeName: string)

  /** A request body: a Python dict, kept as its items in iteration order. */
  type Request = seq<(string, Value)>

  /** The keys of a request, in order. */
  function Keys(request: Request): (r: seq<string>)
    ensures |r| == |request| && forall i :: 0 <= i < |request| ==> r[i] == request[i].0
  {
    seq(|request|, i requires 0 <= i < |request| => request[i].0)
  }

  /** The key at position n differs from every key before it. */
  predicate FreshKey(request: Request, n: nat)
    requires n < |request|
  {
    forall j | 0 <= j < n :: request[j].0 != request[n].0
  }

  /** A dict never repeats a key. */
  predicate DistinctKeys(request: Request) {
    forall n | 0 <= n < |request| :: FreshKey(request, n)
  }

  datatype Column = Column(name: string, sqlType: SqlType, nullable: bool)

  function Names(cols: seq<Column>): (r: seq<string>)
    ensures |r| == |cols| && forall i :: 0 <= i < |cols| ==> r[i] == cols[i].name
  {
    seq(|cols|, i requires 0 <= i < |cols| => cols[i].name)
  }

  const DefaultProtected: seq<string> := ["id", "created_at", "updated_at", "hashed_password"]
  const StandardColumns: set<string> := {"id", "created_at", "updated_at", "is_active", "school_id", "user_id"}

  /** The column types the schema manager emits. */
  datatype SqlType = Text | Varchar255 | Integer | FloatType | TinyInt1 | DateTimeType | DateType

  /** The SQL spelling of a column type. */
  function SqlTypeName(t: SqlType): (name: string)
    ensures name in ["TEXT", "VARCHAR(255)", "INT", "FLOAT", "TINYINT(1)", "DATETIME", "DATE"]
  {
    match t
    case Text => "TEXT"
    case Varchar255 => "VARCHAR(255)"
    case Integer => "INT"
    case FloatType => "FLOAT"
    case TinyInt1 => "TINYINT(1)"
    case DateTimeType => "DATETIME"
    case DateType => "DATE"
  }

  /** Distinct types are spelled differently. */
  lemma SqlTypeNameInjective(t: SqlType, u: SqlType)
    requires SqlTypeName(t) == SqlTypeName(u)
    ensures t == u
  {
    match t
    case Text => assert SqlTypeName(u)[0] == 'T' && |SqlTypeName(u)| == 4;
    case Varchar255 => assert SqlTypeName(u)[0] == 'V';
    case Integer => assert SqlTypeName(u)[0] == 'I';
    case FloatType => assert SqlTypeName(u)[0] == 'F';
    case TinyInt1 => assert SqlTypeName(u)[0] == 'T' && |SqlTypeName(u)| == 10;
    case DateTimeType => assert SqlTypeName(u)[0] == 'D' && |SqlTypeName(u)| == 8;
    case DateType => assert SqlTypeName(u)[0] == 'D' && |SqlTypeName(u)| == 4;
  }

  /**
   * `get_sqlalchemy_type`: the column type chosen for a value. Dispatch is on
   * the exact type, so a bool is not an int and a datetime is not a date.
   */
  function SqlTypeOf(v: Value): (t: SqlType)
    ensures t == Text <==> v.NoneValue? || v.Other? || (v.Str? && |v.s| > 255)
    ensures t == Varchar255 <==> v.Str? && |v.s| <= 255
    ensures t == Integer <==> v.Int?
    ensures t == FloatType <==> v.Float?
    ensures t == TinyInt1 <==> v.Bool?
    ensures t == DateTimeType <==> v.DateTimeValue?
    ensures t == DateType <==> v.DateValue?
  {
    match v
    case NoneValue => Text
    case Str(s) => if |s| > 255 then Text else Varchar255
    case Int(_) => Integer
    case Float(_) => FloatType
    case Bool(_) => TinyInt1
    case DateTimeValue(_) => DateTimeType
    case DateValue(_) => DateType
    case Other(_) => Text
  }

  /** One `ALTER TABLE … ADD COLUMN` statement. */
  datatype Alter = Alter(table: string, column: string, sqlType: SqlType, nullable: bool)

  /** The text of the statement `add_column_to_table` executes. */
  function AlterSql(a: Alter): string
  {
    "ALTER TABLE " + a.table + " ADD COLUMN " + a.column + " " + SqlTypeName(a.sqlType) + " " + (if a.nullable then "NULL" else "NOT NULL")
  }

  /** The statement names the table, the column and its type, and ends in its null constraint. */
  lemma AlterSqlShape(a: Alter)
    ensures StartsWith(AlterSql(a), "ALTER TABLE " + a.table + " ADD COLUMN " + a.column + " " + SqlTypeName(a.sqlType) + " ")
    ensures EndsWith(AlterSql(a), if a.nullable then " NULL" else " NOT NULL")
  {
    var head := "ALTER TABLE " + a.table + " ADD COLUMN " + a.column + " " + SqlTypeName(a.sqlType) + " ";
    var tail := if a.nullable then "NULL" else "NOT NULL";
    assert AlterSql(a) == head + tail;
    assert (head + tail)[..|head|] == head;
  }

  // -----------------------------------------------------------------------
  // Specification of one synchronisation, as functions of the first n
  // request items and of the column list read at its start.

  /** The outcome recorded for one field: None when the field is skipped without an entry. */
  function Outcome(field: string, existing: seq<string>, protected: seq<string>, tableExists: bool, refused: set<string>): Option<bool>
  {
    if field in existing then None
    else if field in protected then Some(false)
    else Some(tableExists && field !in refused)
  }

  /** Enters one field's outcome into the report. */
  function Record(report: map<string, bool>, field: string, outcome: Option<bool>): map<string, bool>
  {
    if outcome.Some? then report[field := outcome.value] else report
  }

  /** The `{field: success}` report after the first n request items. */
  function Report(request: Request, n: nat, existing: seq<string>, protected: seq<string>, tableExists: bool, refused: set<string>): map<string, bool>
    requires n <= |request|
  {
    if n == 0 then map[]
    else
      var field := request[n - 1].0;
      Record(Report(request, n - 1, existing, protected, tableExists, refused), field, Outcome(field, existing, protected, tableExists, refused))
  }

  /** The items among the first n that get an `ALTER` attempt, in request order. */
  function Attempts(request: Request, n: nat, existing: seq<string>, protected: seq<string>): (r: Request)
    requires n <= |request|
    ensures |r| <= n
  {
    if n == 0 then []
    else
      var front := Attempts(request, n - 1, existing, protected);
      var e := request[n - 1];
      if e.0 in existing || e.0 in protected then front else front + [e]
  }

  /** The statements issued for a list of attempts. */
  function Statements(table: string, attempts: Request): (r: seq<Alter>)
    ensures |r| == |attempts|
  {
    seq(|attempts|, i requires 0 <= i < |attempts| => Alter(table, attempts[i].0, SqlTypeOf(attempts[i].1), true))
  }

  /** The columns an existing table gains: the attempts the engine accepts. */
  function NewColumns(attempts: Request, refused: set<string>): (r: seq<Column>)
    ensures |r| <= |attempts|
  {
    if attempts == [] then []
    else
      var front := NewColumns(attempts[..|attempts| - 1], refused);
      var last := attempts[|attempts| - 1];
      if last.0 in refused then front else front + [Column(last.0, SqlTypeOf(last.1), true)]
  }

  /** The statement one request item issues: none when it is skipped. */
  function StepAlters(table: string, e: (string, Value), existing: seq<string>, protected: seq<string>): seq<Alter>
  {
    if e.0 in existing || e.0 in protected then [] else [Alter(table, e.0, SqlTypeOf(e.1), true)]
  }

  /** The column one request item adds to an existing table. */
  function StepColumns(e: (string, Value), existing: seq<string>, protected: seq<string>, refused: set<string>): seq<Column>
  {
    if e.0 in existing || e.0 in protected || e.0 in refused then [] else [Column(e.0, SqlTypeOf(e.1), true)]
  }

  /** How the specification extends from the first i items to the first i + 1. */
  lemma SyncStep(table: string, request: Request, i: nat, existing: seq<string>, protected: seq<string>, tableExists: bool, refused: set<string>)
    requires i < |request|
    ensures var e := request[i];
      && Report(request, i + 1, existing, protected, tableExists, refused)
         == Record(Report(request, i, existing, protected, tableExists, refused), e.0, Outcome(e.0, existing, protected, tableExists, refused))
      && Statements(table, Attempts(request, i + 1, existing, protected))
         == Statements(table, Attempts(request, i, existing, protected)) + StepAlters(table, e, existing, protected)
      && NewColumns(Attempts(request, i + 1, existing, protected), refused)
         == NewColumns(Attempts(request, i, existing, protected), refused) + StepColumns(e, existing, protected, refused)
  {
    var e := request[i];
    var before := Attempts(request, i, existing, protected);
    if !(e.0 in existing || e.0 in protected) {
      AttemptsStep(table, before, e, refused);
    }
  }

  /** One turn of the synchronisation loop keeps report, statement log and column list on specification. */
  lemma SyncLoopStep(table: string, request: Request, i: nat, existing: seq<string>, protected: seq<string>, tableExists: bool,
                     refused: set<string>, oldDdl: seq<Alter>, oldColumns: seq<Column>,
                     results0: map<string, bool>, ddl0: seq<Alter>, columns0: seq<Column>,
                     entry: Option<bool>, ddl1: seq<Alter>, columns1: seq<Column>)
    requires i < |request|
    requires results0 == Report(request, i, existing, protected, tableExists, refused)
    requires ddl0 == oldDdl + Statements(table, Attempts(request, i, existing, protected))
    requires columns0 == oldColumns + (if tableExists then NewColumns(Attempts(request, i, existing, protected), refused) else [])
    requires entry == Outcome(request[i].0, existing, protected, tableExists, refused)
    requires ddl1 == ddl0 + StepAlters(table, request[i], existing, protected)
    requires columns1 == columns0 + (if tableExists then StepColumns(request[i], existing, protected, refused) else [])
    ensures Record(results0, request[i].0, entry) == Report(request, i + 1, existing, protected, tableExists, refused)
    ensures ddl1 == oldDdl + Statements(table, Attempts(request, i + 1, existing, protected))
    ensures columns1 == oldColumns + (if tableExists then NewColumns(Attempts(request, i + 1, existing, protected), refused) else [])
  {
    SyncStep(table, request, i, existing, protected, tableExists, refused);
    AppendAssoc(oldDdl, Statements(table, Attempts(request, i, existing, protected)), StepAlters(table, request[i], existing, protected));
    AppendAssoc(oldColumns, NewColumns(Attempts(request, i, existing, protected), refused), StepColumns(request[i], existing, protected, refused));
  }

  /** An item among the first n is attempted iff it is not a column yet and not protected. */
  lemma {:induction false} AttemptsMembers(request: Request, n: nat, existing: seq<string>, protected: seq<string>)
    requires n <= |request|
    ensures forall e :: e in Attempts(request, n, existing, protected) <==> e in request[..n] && e.0 !in existing && e.0 !in protected
  {
    if n > 0 {
      AttemptsMembers(request, n - 1, existing, protected);
      assert request[..n] == request[..n - 1] + [request[n - 1]];
    }
  }

  /** A column is added iff some attempt for it is not refused; it is nullable and typed from the value. */
  lemma {:induction false} NewColumnsMembers(attempts: Request, refused: set<string>)
    ensures forall c :: c in NewColumns(attempts, refused) <==> exists e :: e in attempts && e.0 !in refused && c == Column(e.0, SqlTypeOf(e.1), true)
  {
    if attempts != [] {
      var front := attempts[..|attempts| - 1];
      NewColumnsMembers(front, refused);
      assert attempts == front + [attempts[|attempts| - 1]];
    }
  }

  // -----------------------------------------------------------------------
  // The manager

  /** A table of the database, whose column list DDL extends in place. */
  class Table {
    var columns: seq<Column>

    constructor (columns0: seq<Column>)
      ensures columns == columns0
    {
      columns := columns0;
    }
  }

  class SchemaManager {
    /** The tables whose introspection succeeds. */
    const catalog: map<string, Table>
    /** Column names whose `ALTER TABLE` the engine refuses. */
    const refused: set<string>
    /** Tables whose introspection raises although they may exist. */
    const uninspectable: set<string>
    /** Every `ALTER TABLE` statement executed, committed or rolled back. */
    var ddl: seq<Alter>

    constructor (catalog0: map<string, Table>, refused0: set<string>, uninspectable0: set<string>)
      ensures catalog == catalog0 && refused == refused0 && uninspectable == uninspectable0 && ddl == []
    {
      catalog := catalog0;
      refused := refused0;
      uninspectable := uninspectable0;
      ddl := [];
    }

    /** The table's actual column list; [] when the table does not exist. */
    function TableColumns(table: string): seq<Column>
      reads this, catalog.Values
    {
      if table in catalog then catalog[table].columns else []
    }

    /** `get_table_columns`: names of the table's columns in catalog order; [] when introspection fails. */
    function Columns(table: string): (r: seq<string>)
      reads this, catalog.Values
      ensures table !in catalog || table in uninspectable ==> r == []
      ensures table in catalog && table !in uninspectable ==> r == Names(catalog[table].columns)
    {
      if table in uninspectable then [] else Names(TableColumns(table))
    }

    /** The column names whose `ALTER` fails on this table: those the engine refuses and those already present. */
    function Failing(table: string): set<string>
      reads this, catalog.Values
    {
      refused + set c | c in Names(TableColumns(table))
    }

    /** Runs one `ALTER TABLE … ADD COLUMN`; True iff it committed. */
    method AddColumnToTable(table: string, column: string, sqlType: SqlType, nullable: bool) returns (ok: bool)
      modifies this, if table in catalog then {catalog[table]} else {}
      ensures ddl == old(ddl) + [Alter(table, column, sqlType, nullable)]
      ensures ok <==> table in catalog && column !in old(Names(TableColumns(table))) && column !in refused
      ensures table in catalog ==> catalog[table].columns == old(catalog[table].columns) + if ok then [Column(column, sqlType, nullable)] else []
    {
      ddl := ddl + [Alter(table, column, sqlType, nullable)];
      if table in catalog && column !in Names(catalog[table].columns) && column !in refused {
        var t := catalog[table];
        t.columns := t.columns + [Column(column, sqlType, nullable)];
        ok := true;
      } else {
        ok := false;
      }
    }

    /**
     * One iteration of the synchronisation loop: skip a field that is already
     * a column, report a protected field as False, otherwise attempt its `ALTER`.
     */
    method SyncField(table: string, field: string, value: Value, existing: seq<string>, protected: seq<string>, ghost failing: set<string>)
      returns (entry: Option<bool>)
      requires table in catalog && field !in existing && field !in protected ==>
                 (field in failing <==> field in refused || field in Names(TableColumns(table)))
      modifies this, if table in catalog then {catalog[table]} else {}
      ensures entry == Outcome(field, existing, protected, table in catalog, failing)
      ensures ddl == old(ddl) + StepAlters(table, (field, value), existing, protected)
      ensures TableColumns(table) == old(TableColumns(table)) + if table in catalog then StepColumns((field, value), existing, protected, failing) else []
    {
      if field in existing {
        entry := None;
      } else if field in protected {
        entry := Some(false);
      } else {
        var ok := AddColumnToTable(table, field, SqlTypeOf(value), true);
        entry := Some(ok);
      }
    }

    /**
     * Adds a nullable column for every request field the table lacks, except
     * protected ones, and reports per field whether it was added. The column
     * list is read once, before the first field; when that read fails every
     * unprotected field is attempted, and those already present fail as
     * duplicates.
     */
    method SyncModelWithRequest(table: string, request: Request, protectedFields: Option<seq<string>>) returns (results: map<string, bool>)
      requires DistinctKeys(request)
      modifies this, if table in catalog then {catalog[table]} else {}
      ensures var protected := if protectedFields.Some? then protectedFields.value else DefaultProtected;
        && results == Report(request, |request|, old(Columns(table)), protected, table in catalog, old(Failing(table)))
        && ddl == old(ddl) + Statements(table, Attempts(request, |request|, old(Columns(table)), protected))
        && (table in catalog ==>
              catalog[table].columns == old(catalog[table].columns) + NewColumns(Attempts(request, |request|, old(Columns(table)), protected), old(Failing(table))))
    {
      var protected := if protectedFields.Some? then protectedFields.value else DefaultProtected;
      var existing := Columns(table);
      results := SyncFields(table, request, existing, protected);
    }

    /** The loop of `sync_model_with_request` over the request items, against the column list read before it. */
    method SyncFields(table: string, request: Request, existing: seq<string>, protected: seq<string>) returns (results: map<string, bool>)
      requires DistinctKeys(request)
      requires existing == Columns(table)
      modifies this, if table in catalog then {catalog[table]} else {}
      ensures results == Report(request, |request|, existing, protected, table in catalog, old(Failing(table)))
      ensures ddl == old(ddl) + Statements(table, Attempts(request, |request|, existing, protected))
      ensures table in catalog ==> catalog[table].columns == old(catalog[table].columns) + NewColumns(Attempts(request, |request|, existing, protected), old(Failing(table)))
    {
      ghost var oldColumns := TableColumns(table);
      ghost var oldDdl := ddl;
      ghost var failing := Failing(table);
      results := map[];
      var i := 0;
      while i < |request|
        invariant 0 <= i <= |request|
        invariant results == Report(request, i, existing, protected, table in catalog, failing)
        invariant ddl == oldDdl + Statements(table, Attempts(request, i, existing, protected))
        invariant TableColumns(table) == oldColumns + if table in catalog then NewColumns(Attempts(request, i, existing, protected), failing) else []
      {
        results := SyncNext(table, request, i, existing, protected, results, oldDdl, oldColumns, failing);
        i := i + 1;
      }
    }

    /** One turn of that loop: the report, the statement log and the table move on to the first i + 1 items. */
    method SyncNext(table: string, request: Request, i: nat, existing: seq<string>, protected: seq<string>,
                    results0: map<string, bool>, ghost oldDdl: seq<Alter>, ghost oldColumns: seq<Column>, ghost failing: set<string>)
      returns (results: map<string, bool>)
      requires DistinctKeys(request) && i < |request|
      requires failing == refused + set c | c in Names(oldColumns)
      requires results0 == Report(request, i, existing, protected, table in catalog, failing)
      requires ddl == oldDdl + Statements(table, Attempts(request, i, existing, protected))
      requires TableColumns(table) == oldColumns + if table in catalog then NewColumns(Attempts(request, i, existing, protected), failing) else []
      modifies this, if table in catalog then {catalog[table]} else {}
      ensures results == Report(request, i + 1, existing, protected, table in catalog, failing)
      ensures ddl == oldDdl + Statements(table, Attempts(request, i + 1, existing, protected))
      ensures TableColumns(table) == oldColumns + if table in catalog then NewColumns(Attempts(request, i + 1, existing, protected), failing) else []
    {
      var field := request[i].0;
      ghost var ddl0 := ddl;
      ghost var columns0 := TableColumns(table);
      FieldNotYetAdded(request, i, existing, protected, failing, oldColumns);
      var entry := SyncField(table, field, request[i].1, existing, protected, failing);
      results := Record(results0, field, entry);
      SyncLoopStep(table, request, i, existing, protected, table in catalog, failing, oldDdl, oldColumns,
                   results0, ddl0, columns0, entry, ddl, TableColumns(table));
    }

    /** The entry point used by the routers: a fresh manager with the default protected list. */
    method AutoEvolveSchema(table: string, data: Request) returns (results: map<string, bool>)
      requires DistinctKeys(data)
      modifies this, if table in catalog then {catalog[table]} else {}
      ensures results == Report(data, |data|, old(Columns(table)), DefaultProtected, table in catalog, old(Failing(table)))
      ensures ddl == old(ddl) + Statements(table, Attempts(data, |data|, old(Columns(table)), DefaultProtected))
      ensures table in catalog ==>
                catalog[table].columns == old(catalog[table].columns) + NewColumns(Attempts(data, |data|, old(Columns(table)), DefaultProtected), old(Failing(table)))
    {
      results := SyncModelWithRequest(table, data, None);
    }

    /** The table's columns, without the standard ones when `excludeStandard` is set. */
    function GetDynamicColumns(table: string, excludeStandard: bool): (r: seq<string>)
      reads this, catalog.Values
      ensures forall c :: c in r <==> c in Columns(table) && !(excludeStandard && c in StandardColumns)
      ensures excludeStandard ==> forall c :: c in r ==> c !in StandardColumns
      ensures !excludeStandard ==> r == Columns(table)
    {
      if excludeStandard then Without(Columns(table), StandardColumns) else Columns(table)
    }
  }

  /** The list with the members of `drop` removed, order kept. */
  function Without(xs: seq<string>, drop: set<string>): (r: seq<string>)
    ensures forall x :: x in r <==> x in xs && x !in drop
    ensures |r| <= |xs|
  {
    if xs == [] then []
    else if xs[0] in drop then Without(xs[1..], drop)
    else [xs[0]] + Without(xs[1..], drop)
  }

  /**
   * No column added while processing the first i items bears the name of
   * item i: the names added so far are earlier keys of the dict.
   */
  lemma NewColumnsFromPrefix(request: Request, i: nat, existing: seq<string>, protected: seq<string>, refused: set<string>)
    requires DistinctKeys(request) && i < |request|
    requires request[i].0 !in existing
    ensures request[i].0 !in existing + Names(NewColumns(Attempts(request, i, existing, protected), refused))
  {
    var added := NewColumns(Attempts(request, i, existing, protected), refused);
    AttemptsMembers(request, i, existing, protected);
    NewColumnsMembers(Attempts(request, i, existing, protected), refused);
    assert FreshKey(request, i);
    forall k | 0 <= k < |added|
      ensures added[k].name != request[i].0
    {
      assert added[k] in added;
      var e :| e in Attempts(request, i, existing, protected) && e.0 !in refused && added[k] == Column(e.0, SqlTypeOf(e.1), true);
      var j :| 0 <= j < i && request[..i][j] == e;
      assert request[j] == e;
    }
  }

  /**
   * The column list grown over the first i items holds item i only if it
   * was already there before the loop, so its `ALTER` fails as a duplicate
   * exactly when the field was a column at the start.
   */
  lemma FieldNotYetAdded(request: Request, i: nat, existing: seq<string>, protected: seq<string>, refused: set<string>, oldColumns: seq<Column>)
    requires DistinctKeys(request) && i < |request|
    ensures request[i].0 !in existing ==>
              (request[i].0 in Names(oldColumns + NewColumns(Attempts(request, i, existing, protected), refused)) <==> request[i].0 in Names(oldColumns))
  {
    if request[i].0 !in existing {
      NewColumnsFromPrefix(request, i, existing, protected, refused);
      NamesAppend(oldColumns, NewColumns(Attempts(request, i, existing, protected), refused));
    }
  }

  lemma AppendAssoc<T>(a: seq<T>, b: seq<T>, c: seq<T>)
    ensures a + b + c == a + (b + c)
  {
  }

  lemma NamesAppend(a: seq<Column>, b: seq<Column>)
    ensures Names(a + b) == Names(a) + Names(b)
  {
  }

  lemma AttemptsStep(table: string, attempts: Request, e: (string, Value), refused: set<string>)
    ensures Statements(table, attempts + [e]) == Statements(table, attempts) + [Alter(table, e.0, SqlTypeOf(e.1), true)]
    ensures NewColumns(attempts + [e], refused)
            == if e.0 in refused then NewColumns(attempts, refused) else NewColumns(attempts, refused) + [Column(e.0, SqlTypeOf(e.1), true)]
  {
    assert (attempts + [e])[..|attempts|] == attempts;
  }

  // -----------------------------------------------------------------------
  // Properties of a synchronisation

  /** A field has a report entry iff it is one of the first n keys and not already a column. */
  lemma {:induction false} ReportKeys(request: Request, n: nat, existing: seq<string>, protected: seq<string>, tableExists: bool, refused: set<string>)
    requires n <= |request|
    ensures forall f :: f in Report(request, n, existing, protected, tableExists, refused) <==> f in Keys(request)[..n] && f !in existing
  {
    if n > 0 {
      ReportKeys(request, n - 1, existing, protected, tableExists, refused);
      assert Keys(request)[..n] == Keys(request)[..n - 1] + [request[n - 1].0];
    }
  }

  /**
   * Each entry depends on its own field only: a protected field is False, any
   * other is True exactly when its own `ALTER` can commit, whatever happened
   * to the other fields.
   */
  lemma {:induction false} ReportEntry(request: Request, n: nat, existing: seq<string>, protected: seq<string>, tableExists: bool, refused: set<string>, f: string)
    requires n <= |request|
    requires f in Report(request, n, existing, protected, tableExists, refused)
    ensures f !in existing
    ensures Report(request, n, existing, protected, tableExists, refused)[f] == (f !in protected && tableExists && f !in refused)
  {
    var last := request[n - 1].0;
    if last != f || last in existing {
      ReportEntry(request, n - 1, existing, protected, tableExists, refused, f);
    }
  }

  /** Protected fields are never the subject of an `ALTER`, and columns already there are never re-added. */
  lemma AttemptsAvoidProtectedAndExisting(request: Request, existing: seq<string>, protected: seq<string>, refused: set<string>)
    ensures forall e :: e in Attempts(request, |request|, existing, protected) ==> e.0 !in protected && e.0 !in existing
    ensures forall c :: c in NewColumns(Attempts(request, |request|, existing, protected), refused) ==> c.name !in protected && c.name !in existing && c.nullable
  {
    AttemptsMembers(request, |request|, existing, protected);
    NewColumnsMembers(Attempts(request, |request|, existing, protected), refused);
  }

  /** Every added column is nullable, typed from its request value, and not refused. */
  lemma NewColumnsTyped(request: Request, existing: seq<string>, protected: seq<string>, refused: set<string>, c: Column)
    requires c in NewColumns(Attempts(request, |request|, existing, protected), refused)
    ensures exists e :: e in request && e.0 == c.name && c.sqlType == SqlTypeOf(e.1)
    ensures c.nullable && c.name !in refused
  {
    AttemptsMembers(request, |request|, existing, protected);
    NewColumnsMembers(Attempts(request, |request|, existing, protected), refused);
    assert request[..|request|] == request;
  }

  /** With distinct keys, the number of statements is the number of unseen, unprotected fields. */
  lemma {:induction false} AttemptCount(request: Request, n: nat, existing: seq<string>, protected: seq<string>)
    requires DistinctKeys(request) && n <= |request|
    ensures |Attempts(request, n, existing, protected)| == |set k | k in Keys(request)[..n] && k !in existing && k !in protected|
  {
    if n > 0 {
      AttemptCount(request, n - 1, existing, protected);
      var key := request[n - 1].0;
      var s := set k | k in Keys(request)[..n] && k !in existing && k !in protected;
      var sf := set k | k in Keys(request)[..n - 1] && k !in existing && k !in protected;
      assert Keys(request)[..n] == Keys(request)[..n - 1] + [key];
      if key in existing || key in protected {
        assert s == sf;
      } else {
        assert FreshKey(request, n - 1);
        assert key !in Keys(request)[..n - 1];
        assert s == sf + {key};
      }
    }
  }

  /**
   * A second synchronisation of the same request against the grown column
   * list adds no column: every field either now exists or is refused again.
   */
  lemma SyncIdempotent(request: Request, existing: seq<string>, protected: seq<string>, refused: set<string>)
    ensures var grown := existing + Names(NewColumns(Attempts(request, |request|, existing, protected), refused));
      NewColumns(Attempts(request, |request|, grown, protected), refused) == []
  {
    var n := |request|;
    var added := NewColumns(Attempts(request, n, existing, protected), refused);
    var grown := existing + Names(added);
    AttemptsMembers(request, n, existing, protected);
    AttemptsMembers(request, n, grown, protected);
    NewColumnsMembers(Attempts(request, n, existing, protected), refused);
    forall e | e in Attempts(request, n, existing, protected) && e.0 !in refused
      ensures e.0 in grown
    {
      assert Column(e.0, SqlTypeOf(e.1), true) in added;
      var k :| 0 <= k < |added| && added[k] == Column(e.0, SqlTypeOf(e.1), true);
      assert Names(added)[k] == e.0;
    }
    forall e | e in Attempts(request, n, grown, protected)
      ensures e.0 in refused
    {
      assert e in Attempts(request, n, existing, protected);
    }
    NewColumnsAllRefused(Attempts(request, n, grown, protected), refused);
  }

  lemma {:induction false} NewColumnsAllRefused(attempts: Request, refused: set<string>)
    requires forall e :: e in attempts ==> e.0 in refused
    ensures NewColumns(attempts, refused) == []
  {
    if attempts != [] {
      var front := attempts[..|attempts| - 1];
      assert forall e :: e in front ==> e in attempts;
      NewColumnsAllRefused(front, refused);
      assert attempts[|attempts| - 1] in attempts;
    }
  }

  /**
   * A column already present is never added again, even when the column
   * list could not be read and its field was attempted: that `ALTER` fails
   * as a duplicate.
   */
  lemma ExistingNeverReAdded(attempts: Request, refused: set<string>, present: seq<Column>)
    ensures forall c :: c in NewColumns(attempts, refused + (set p | p in Names(present))) ==> c.name !in Names(present)
  {
    NewColumnsMembers(attempts, refused + (set p | p in Names(present)));
  }

  /** Schema growth is monotone: the old columns stay, in order, at the front. */
  lemma ColumnsOnlyGrow(old_cols: seq<Column>, attempts: Request, refused: set<string>)
    ensures Names(old_cols) <= Names(old_cols + NewColumns(attempts, refused))
  {
    var n := Names(old_cols + NewColumns(attempts, refused));
    assert n[..|old_cols|] == Names(old_cols);
  }
}
