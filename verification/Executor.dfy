/** Query execution over a scan (internal/query/executor.go). */
module Executor {
  import opened Bytes
  import opened Types
  import opened QueryAst
  import opened Evaluator
  import opened Scan
  import Planner

  // ---- columns ----------------------------------------------------------------------------------

  datatype Value = Number(n: uint64) | Text(s: string) | Fields(m: map<string, string>)

  const TOP_LEVEL := ["doc_id", "ts", "tenant_id", "source", "message", "fields"]

  datatype ExecError = NestedColumn | UnknownColumn | Evaluation(err: EvalError) | ScanFailed | ContextDone

  function ColumnName(c: Column): Result<string, ExecError> {
    if c.key != "" then if c.name != "fields" then Err(NestedColumn) else Ok("fields." + c.key)
    else if c.name in TOP_LEVEL then Ok(c.name)
    else Err(UnknownColumn)
  }

  /** The output columns in SELECT order, or the error of the first bad one. */
  function ColumnNames(cs: seq<Column>): Result<seq<string>, ExecError> {
    if cs == [] then Ok([])
    else
      match ColumnNames(cs[..|cs| - 1])
      case Err(e) => Err(e)
      case Ok(names) =>
        match ColumnName(cs[|cs| - 1])
        case Err(e) => Err(e)
        case Ok(name) => Ok(names + [name])
  }

  function Resolved(sel: SelectClause): Result<seq<string>, ExecError> {
    if sel.star then Ok(TOP_LEVEL) else ColumnNames(sel.columns)
  }

  lemma {:induction false} ErrorSticks(cs: seq<Column>, i: nat)
    requires i <= |cs| && ColumnNames(cs[..i]).Err?
    ensures ColumnNames(cs) == ColumnNames(cs[..i])
    decreases |cs|
  {
    if i < |cs| {
      assert cs[..|cs| - 1][..i] == cs[..i];
      ErrorSticks(cs[..|cs| - 1], i);
    } else {
      assert cs[..i] == cs;
    }
  }

  predicate Selectable(c: Column) {
    if c.key != "" then c.name == "fields"
    else c.name in {"doc_id", "ts", "tenant_id", "source", "message", "fields"}
  }

  /** Column i is the first that cannot be selected. */
  predicate FirstBad(cs: seq<Column>, i: nat) {
    i < |cs| && !Selectable(cs[i]) && forall j :: 0 <= j < i ==> Selectable(cs[j])
  }

  function SqlName(c: Column): string {
    if c.key != "" then "fields." + c.key else c.name
  }

  function BadColumnError(c: Column): ExecError {
    if c.key != "" then NestedColumn else UnknownColumn
  }

  lemma OneName(c: Column)
    ensures ColumnName(c) == if Selectable(c) then Ok(SqlName(c)) else Err(BadColumnError(c))
  {
  }

  /** A list resolves exactly when each of its columns can be selected, and otherwise fails on the first that cannot. */
  lemma {:induction false} ColumnNamesAre(cs: seq<Column>)
    ensures ColumnNames(cs).Ok? ==> |ColumnNames(cs).value| == |cs| && forall i :: 0 <= i < |cs| ==>
      Selectable(cs[i]) && ColumnNames(cs).value[i] == SqlName(cs[i])
    ensures ColumnNames(cs).Err? ==> exists i: nat :: FirstBad(cs, i) && ColumnNames(cs).error == BadColumnError(cs[i])
    decreases |cs|
  {
    hide ColumnName, Selectable, SqlName, BadColumnError;
    if cs != [] {
      var n := |cs| - 1;
      ColumnNamesAre(cs[..n]);
      OneName(cs[n]);
      if ColumnNames(cs[..n]).Err? {
        var i: nat :| FirstBad(cs[..n], i) && ColumnNames(cs[..n]).error == BadColumnError(cs[..n][i]);
        assert FirstBad(cs, i);
      } else if ColumnNames(cs).Err? {
        assert FirstBad(cs, n);
      }
    }
  }

  method ResolveColumns(sel: SelectClause) returns (r: Result<seq<string>, ExecError>)
    ensures r == Resolved(sel)
    ensures sel.star ==> r == Ok(["doc_id", "ts", "tenant_id", "source", "message", "fields"])
    ensures !sel.star && r.Ok? ==> |r.value| == |sel.columns| && forall i :: 0 <= i < |r.value| ==>
      Selectable(sel.columns[i]) && r.value[i] == SqlName(sel.columns[i])
    ensures !sel.star && r.Err? ==>
      exists i: nat :: FirstBad(sel.columns, i) && r.error == BadColumnError(sel.columns[i])
  {
    hide Selectable, SqlName, BadColumnError;
    if sel.star { return Ok(TOP_LEVEL); }
    ColumnNamesAre(sel.columns);
    var out: seq<string>, i := [], 0;
    while i < |sel.columns|
      invariant i <= |sel.columns| && ColumnNames(sel.columns[..i]) == Ok(out)
    {
      var c := sel.columns[i];
      assert sel.columns[..i + 1][..i] == sel.columns[..i];
      if c.key != "" {
        if c.name != "fields" {
          ErrorSticks(sel.columns, i + 1);
          return Err(NestedColumn);
        }
        out := out + ["fields." + c.key];
      } else if c.name in TOP_LEVEL {
        out := out + [c.name];
      } else {
        ErrorSticks(sel.columns, i + 1);
        return Err(UnknownColumn);
      }
      i := i + 1;
    }
    assert sel.columns[..i] == sel.columns;
    r := Ok(out);
  }

  /** fields.<key> with a non-empty key. */
  predicate IsFieldColumn(c: string) {
    |c| > 7 && c[..7] == "fields."
  }

  /** A column's value in a row; None for a name no SELECT resolves to. */
  function ColumnValue(k: Clock, c: string, e: Entry): Option<Value> {
    if IsFieldColumn(c) then Some(Text(if c[7..] in e.rec.fields then e.rec.fields[c[7..]] else ""))
    else if c == "doc_id" then Some(Number(e.id))
    else if c == "ts" then Some(Text(k.format(e.rec.timestamp)))
    else if c == "tenant_id" then Some(Text(e.rec.tenantID))
    else if c == "source" then Some(Text(e.rec.source))
    else if c == "message" then Some(Text(e.rec.message))
    else if c == "fields" then Some(Fields(e.rec.fields))
    else None
  }

  type RowValues = map<string, Value>

  /** The row holds exactly the requested columns, each under its SQL name. */
  ghost predicate Projects(k: Clock, cols: seq<string>, e: Entry, out: RowValues) {
    && (forall c | c in out :: c in cols && ColumnValue(k, c, e) == Some(out[c]))
    && (forall c | c in cols && ColumnValue(k, c, e).Some? :: c in out)
  }

  /**
   projectRow: each top-level column under its own name, each fields.<key> with the field's value or the empty string,
   and nothing that was not asked for.
   */
  method Project(k: Clock, cols: seq<string>, e: Entry) returns (out: RowValues)
    ensures Projects(k, cols, e, out)
    ensures forall c | c in out :: c in cols
    ensures "doc_id" in cols ==> Lookup(out, "doc_id") == Some(Number(e.id))
    ensures "ts" in cols ==> Lookup(out, "ts") == Some(Text(k.format(e.rec.timestamp)))
    ensures "tenant_id" in cols ==> Lookup(out, "tenant_id") == Some(Text(e.rec.tenantID))
    ensures "source" in cols ==> Lookup(out, "source") == Some(Text(e.rec.source))
    ensures "message" in cols ==> Lookup(out, "message") == Some(Text(e.rec.message))
    ensures "fields" in cols ==> Lookup(out, "fields") == Some(Fields(e.rec.fields))
    ensures forall key | key != "" && "fields." + key in cols ::
      Lookup(out, "fields." + key) == Some(Text(if key in e.rec.fields then e.rec.fields[key] else ""))
  {
    hide ColumnValue;
    out := map[];
    var i := 0;
    assert cols[..0] == [];
    while i < |cols|
      invariant i <= |cols| && Projects(k, cols[..i], e, out)
    {
      var c := cols[i];
      assert cols[..i + 1] == cols[..i] + [c];
      var v := ProjectOne(k, c, e);
      if v.Some? { out := out[c := v.value]; }
      i := i + 1;
    }
    assert cols[..i] == cols;
    TopLevelValues(k, e);
    forall key | key != "" && "fields." + key in cols ensures
      Lookup(out, "fields." + key) == Some(Text(if key in e.rec.fields then e.rec.fields[key] else ""))
    {
      FieldValue(k, key, e);
    }
  }

  lemma TopLevelValues(k: Clock, e: Entry)
    ensures ColumnValue(k, "doc_id", e) == Some(Number(e.id))
    ensures ColumnValue(k, "ts", e) == Some(Text(k.format(e.rec.timestamp)))
    ensures ColumnValue(k, "tenant_id", e) == Some(Text(e.rec.tenantID))
    ensures ColumnValue(k, "source", e) == Some(Text(e.rec.source))
    ensures ColumnValue(k, "message", e) == Some(Text(e.rec.message))
    ensures ColumnValue(k, "fields", e) == Some(Fields(e.rec.fields))
  {
    assert "tenant_id"[0] != "fields."[0];
  }

  lemma FieldValue(k: Clock, key: string, e: Entry)
    requires key != ""
    ensures ColumnValue(k, "fields." + key, e) == Some(Text(if key in e.rec.fields then e.rec.fields[key] else ""))
  {
    var c := "fields." + key;
    assert c[..7] == "fields." && c[7..] == key;
  }

  method ProjectOne(k: Clock, c: string, e: Entry) returns (v: Option<Value>)
    ensures v == ColumnValue(k, c, e)
  {
    if |c| > 7 && c[..7] == "fields." {
      var key := c[7..];
      return Some(Text(if key in e.rec.fields then e.rec.fields[key] else ""));
    }
    match c {
      case "doc_id" => v := Some(Number(e.id));
      case "ts" => v := Some(Text(k.format(e.rec.timestamp)));
      case "tenant_id" => v := Some(Text(e.rec.tenantID));
      case "source" => v := Some(Text(e.rec.source));
      case "message" => v := Some(Text(e.rec.message));
      case "fields" => v := Some(Fields(e.rec.fields));
      case _ => v := None;
    }
  }

  /** Every column a SELECT resolves to has a value in every row. */
  lemma {:induction false} ResolvedHaveValues(k: Clock, cs: seq<Column>, e: Entry)
    requires ColumnNames(cs).Ok?
    ensures |ColumnNames(cs).value| == |cs|
    ensures forall c | c in ColumnNames(cs).value :: ColumnValue(k, c, e).Some?
  {
    if cs != [] {
      var n := |cs| - 1;
      ResolvedHaveValues(k, cs[..n], e);
      var c := cs[n];
      if c.key != "" {
        var name := "fields." + c.key;
        assert name[..7] == "fields.";
      }
    }
  }

  // ---- rows -------------------------------------------------------------------------------------

  datatype Row = Row(id: DocID, values: RowValues)

  datatype QueryResult = QueryResult(columns: seq<string>, rows: seq<Row>)

  predicate Match(k: Clock, where: Option<Expr>, e: Entry) {
    Eval(k, where, e.id, e.rec) == Ok(true)
  }

  /** The records the WHERE accepts, in order. */
  function Matches(k: Clock, where: Option<Expr>, es: seq<Entry>): (r: seq<Entry>)
    ensures |r| <= |es|
  {
    if es == [] then []
    else
      var rest := Matches(k, where, es[..|es| - 1]);
      if Match(k, where, es[|es| - 1]) then rest + [es[|es| - 1]] else rest
  }

  /** rows are the projections of es, one by one. */
  ghost predicate RowsOf(k: Clock, cols: seq<string>, es: seq<Entry>, rows: seq<Row>) {
    |rows| == |es| &&
    forall i :: 0 <= i < |es| ==> rows[i].id == es[i].id && Projects(k, cols, es[i], rows[i].values)
  }

  lemma MatchesSnoc(k: Clock, where: Option<Expr>, es: seq<Entry>, e: Entry)
    ensures Matches(k, where, es + [e]) ==
      if Match(k, where, e) then Matches(k, where, es) + [e] else Matches(k, where, es)
  {
    assert (es + [e])[..|es|] == es;
  }

  lemma RowsSnoc(k: Clock, cols: seq<string>, es: seq<Entry>, rows: seq<Row>, e: Entry)
    requires RowsOf(k, cols, es, rows)
    ensures forall v: RowValues | Projects(k, cols, e, v) :: RowsOf(k, cols, es + [e], rows + [Row(e.id, v)])
  {
    hide Projects;
  }

  lemma RowCount(k: Clock, cols: seq<string>, es: seq<Entry>, rows: seq<Row>)
    requires RowsOf(k, cols, es, rows)
    ensures |rows| == |es|
  {
  }

  datatype StopReason = EvalFailed(err: EvalError) | LimitReached

  /** What the visitor answers when es are the records it has been handed. */
  function VerdictOn(k: Clock, where: Option<Expr>, limit: int, es: seq<Entry>): Option<StopReason> {
    if es == [] then None
    else
      var e := es[|es| - 1];
      match Eval(k, where, e.id, e.rec)
      case Err(x) => Some(EvalFailed(x))
      case Ok(m) => if m && limit >= 0 && |Matches(k, where, es)| >= limit then Some(LimitReached) else None
  }

  /** The visitor Execute passes to the scan, with the rows it has appended. */
  class Collector {
    const k: Clock
    const where: Option<Expr>
    const cols: seq<string>
    const limit: int
    var rows: seq<Row>
    ghost var seen: seq<Entry>

    ghost predicate Valid()
      reads this
    {
      RowsOf(k, cols, Matches(k, where, seen), rows)
    }

    constructor (k: Clock, where: Option<Expr>, cols: seq<string>, limit: int)
      ensures this.k == k && this.where == where && this.cols == cols && this.limit == limit
      ensures Valid() && seen == []
    {
      this.k, this.where, this.cols, this.limit := k, where, cols, limit;
      rows, seen := [], [];
    }

    /** One call of the visitor: its answer is VerdictOn everything seen so far. */
    method Visit(e: Entry) returns (stop: Option<StopReason>)
      requires Valid()
      modifies this
      ensures Valid() && seen == old(seen) + [e] && stop == VerdictOn(k, where, limit, seen)
    {
      hide Eval, Projects, Matches, RowsOf;
      MatchesSnoc(k, where, seen, e);
      RowsSnoc(k, cols, Matches(k, where, seen), rows, e);
      RowCount(k, cols, Matches(k, where, seen), rows);
      seen := seen + [e];
      var v := Eval(k, where, e.id, e.rec);
      if v.Err? { return Some(EvalFailed(v.error)); }
      if !v.value { return None; }
      var values := Project(k, cols, e);
      rows := rows + [Row(e.id, values)];
      if limit >= 0 && |rows| >= limit { return Some(LimitReached); }
      stop := None;
    }
  }

  // ---- execution --------------------------------------------------------------------------------

  function LimitOf(stmt: Statement): int {
    if stmt.limit.Some? then stmt.limit.value else -1
  }

  function Visitor(k: Clock, where: Option<Expr>, limit: int): seq<Entry> -> Option<StopReason> {
    es => VerdictOn(k, where, limit, es)
  }

  /** The answer of a statement over a listing: which records become rows, or the error. */
  ghost function Answer(k: Clock, stmt: Statement, full: seq<Entry>, cancelled: nat -> bool, failed: bool)
    : Result<seq<Entry>, ExecError>
  {
    var run := RunOver<StopReason>(full, 0, Visitor(k, stmt.where, LimitOf(stmt)), cancelled, failed);
    match run.1
    case Cancelled => Err(ContextDone)
    case Failed => Err(ScanFailed)
    case Stopped(EvalFailed(e)) => Err(Evaluation(e))
    case Stopped(LimitReached) => Ok(Matches(k, stmt.where, run.0))
    case Done => Ok(Matches(k, stmt.where, run.0))
  }

  /** The first m records leave the query running: the context is not done, nothing errs, the limit is not reached. */
  ghost predicate RunsPast(k: Clock, stmt: Statement, full: seq<Entry>, cancelled: nat -> bool, m: nat) {
    && m <= |full| && (forall j | 0 <= j < m :: !cancelled(j))
    && (forall j | 0 <= j < m :: Eval(k, stmt.where, full[j].id, full[j].rec).Ok?)
    && (forall j | 0 < j <= m :: !AtLimit(k, stmt, full, j))
  }

  /** The j-th record is a match and brings the rows up to the limit. */
  predicate AtLimit(k: Clock, stmt: Statement, full: seq<Entry>, j: nat)
    requires 0 < j <= |full|
  {
    && stmt.limit.Some? && stmt.limit.value >= 0 && |Matches(k, stmt.where, full[..j])| >= stmt.limit.value
    && Eval(k, stmt.where, full[j - 1].id, full[j - 1].rec) == Ok(true)
  }

  lemma QuietVisitor(k: Clock, stmt: Statement, full: seq<Entry>, j: nat)
    requires j < |full|
    ensures var e := Eval(k, stmt.where, full[j].id, full[j].rec);
      Visitor(k, stmt.where, LimitOf(stmt))(full[..j + 1]) ==
        if e.Err? then Some(EvalFailed(e.error))
        else if AtLimit(k, stmt, full, j + 1) then Some(LimitReached)
        else None
    ensures AtLimit(k, stmt, full, j + 1) ==> Eval(k, stmt.where, full[j].id, full[j].rec).Ok?
  {
    hide Eval, Matches;
  }

  /**
   What ends a statement, with any context and any failing source: the context, an evaluation error or the limit at the
   first record where one of them strikes, in this order; and otherwise the end of the scan.
   */
  lemma AnswerIs(k: Clock, stmt: Statement, full: seq<Entry>, cancelled: nat -> bool, failed: bool, m: nat)
    requires RunsPast(k, stmt, full, cancelled, m)
    ensures var a := Answer(k, stmt, full, cancelled, failed);
      && (m == |full| ==> a == if failed then Err(ScanFailed) else Ok(Matches(k, stmt.where, full)))
      && (m < |full| && cancelled(m) ==> a == Err(ContextDone))
      && (m < |full| && !cancelled(m) && Eval(k, stmt.where, full[m].id, full[m].rec).Err? ==>
            a == Err(Evaluation(Eval(k, stmt.where, full[m].id, full[m].rec).error)))
      && (m < |full| && !cancelled(m) && AtLimit(k, stmt, full, m + 1) ==>
            a == Ok(Matches(k, stmt.where, full[..m + 1])))
  {
    hide Eval, Matches, Visitor, AtLimit;
    var visit := Visitor(k, stmt.where, LimitOf(stmt));
    forall j | 0 < j <= m ensures visit(full[..j]).None? {
      QuietVisitor(k, stmt, full, j - 1);
    }
    RunGoesOn(full, 0, m, visit, cancelled, failed);
    if m < |full| {
      QuietVisitor(k, stmt, full, m);
    }
  }

  lemma CancelledFirst(k: Clock, stmt: Statement, full: seq<Entry>, cancelled: nat -> bool, failed: bool)
    ensures forall m: nat | m < |full| && RunsPast(k, stmt, full, cancelled, m) && cancelled(m) ::
      Answer(k, stmt, full, cancelled, failed) == Err(ContextDone)
  {
    hide RunsPast, Answer;
    forall m: nat | m < |full| && RunsPast(k, stmt, full, cancelled, m) && cancelled(m)
      ensures Answer(k, stmt, full, cancelled, failed) == Err(ContextDone)
    {
      AnswerIs(k, stmt, full, cancelled, failed, m);
    }
  }

  /** What may end a statement at record m. */
  predicate Ends(k: Clock, stmt: Statement, full: seq<Entry>, cancelled: nat -> bool, m: nat)
    requires m < |full|
  {
    cancelled(m) || Eval(k, stmt.where, full[m].id, full[m].rec).Err? || AtLimit(k, stmt, full, m + 1)
  }

  /** Every statement gets to such a record or to the end, so that AnswerIs leaves no case out. */
  lemma {:induction false} SomethingEnds(k: Clock, stmt: Statement, full: seq<Entry>, cancelled: nat -> bool, n: nat)
    requires RunsPast(k, stmt, full, cancelled, n)
    ensures exists m: nat :: RunsPast(k, stmt, full, cancelled, m) && (m == |full| || Ends(k, stmt, full, cancelled, m))
    decreases |full| - n
  {
    hide Eval, AtLimit;
    if n < |full| && !Ends(k, stmt, full, cancelled, n) {
      SomethingEnds(k, stmt, full, cancelled, n + 1);
    }
  }

  /**
   Execute: the scan runs under the planned bounds, each record it hands out goes through the visitor, and the
   limit sentinel is turned back into a clean return.
   */
  method Execute(k: Clock, sources: seq<ScanSource>, stmt: Statement, cancelled: nat -> bool)
    returns (r: Result<QueryResult, ExecError>)
    requires SourcesAscend(sources)
    ensures Resolved(stmt.select).Err? ==> r == Err(Resolved(stmt.select).error)
    ensures var o := Planner.PlanOf(k, stmt.where);
      Resolved(stmt.select).Ok? ==>
        match Answer(k, stmt, Merged(sources, o), cancelled, Reported(sources, o))
        case Err(e) => r == Err(e)
        case Ok(es) => r.Ok? && r.value.columns == Resolved(stmt.select).value
                       && RowsOf(k, r.value.columns, es, r.value.rows)
    ensures var full := Merged(sources, Planner.PlanOf(k, stmt.where));
      Resolved(stmt.select).Ok? ==>
        forall m: nat | m < |full| && RunsPast(k, stmt, full, cancelled, m) && cancelled(m) :: r == Err(ContextDone)
  {
    hide Resolved, Merged, Reported, Eval, Planner.PlanOf, RunOver, RowsOf, RunsPast;
    ghost var o := Planner.PlanOf(k, stmt.where);
    CancelledFirst(k, stmt, Merged(sources, o), cancelled, Reported(sources, o));
    var cols := ResolveColumns(stmt.select);
    if cols.Err? { return Err(cols.error); }
    var limit := if stmt.limit.Some? then stmt.limit.value else -1;
    var opts := Planner.Plan(k, stmt.where);
    var visited, end, _ := ScanWithOptions<StopReason>(sources, opts, Visitor(k, stmt.where, limit), cancelled);
    var c := new Collector(k, stmt.where, cols.value, limit);
    var i := 0;
    while i < |visited|
      invariant i <= |visited| && c.Valid() && c.seen == visited[..i]
    {
      var _ := c.Visit(visited[i]);
      assert visited[..i + 1] == visited[..i] + [visited[i]];
      i := i + 1;
    }
    assert visited[..i] == visited;
    match end {
      case Cancelled => r := Err(ContextDone);
      case Failed => r := Err(ScanFailed);
      case Stopped(EvalFailed(e)) => r := Err(Evaluation(e));
      case Stopped(LimitReached) => r := Ok(QueryResult(cols.value, c.rows));
      case Done => r := Ok(QueryResult(cols.value, c.rows));
    }
  }
}
