/** The parsed query (internal/query/parser.go): the AST the planner, the evaluator and the executor share. */
module QueryAst {
  import opened Bytes
  import opened Types

  /** key is the part behind the dot of fields.<key>, empty for a plain column. */
  datatype FieldRef = FieldRef(name: string, key: string)

  datatype Literal = Literal(text: Option<string>, num: Option<int64>)

  datatype Compare = Compare(field: FieldRef, op: string, value: Literal)

  /** A parenthesized expression or a leaf. */
  datatype CmpExpr = Sub(sub: Expr) | Leaf(cmp: Compare)

  datatype AndExpr = AndExpr(cmp: CmpExpr, rest: seq<CmpExpr>)

  datatype OrExpr = OrExpr(conj: AndExpr, rest: seq<AndExpr>)

  datatype Expr = Expr(or: OrExpr)

  datatype Column = Column(name: string, key: string)

  datatype SelectClause = SelectClause(star: bool, columns: seq<Column>)

  datatype Statement = Statement(select: SelectClause, where: Option<Expr>, limit: Option<int>)

  /** RFC 3339 parsing and formatting of timestamps, which the source takes from Go's time package. */
  datatype Clock = Clock(parse: string -> Option<Timestamp>, format: Timestamp -> string)
}

/** Evaluation of a WHERE clause against one record (internal/query/evaluator.go). */
module Evaluator {
  import opened Bytes
  import opened Types
  import opened Decimal
  import opened QueryAst

  datatype EvalError =
    | NestedAccess | UnknownField
    | TsLiteral | NotRFC3339 | DocIDLiteral | StringLiteral
    | NotOrdered | LhsNotNumeric | RhsNotNumeric | UnknownOperator

  type Verdict = Result<bool, EvalError>

  function LoadField(f: FieldRef, id: DocID, rec: LogRecord): Result<string, EvalError> {
    if f.key != "" then
      if f.name != "fields" then Err(NestedAccess)
      else Ok(if f.key in rec.fields then rec.fields[f.key] else "")
    else if f.name == "ts" then Ok(Print(rec.timestamp))
    else if f.name == "tenant_id" then Ok(rec.tenantID)
    else if f.name == "source" then Ok(rec.source)
    else if f.name == "message" then Ok(rec.message)
    else if f.name == "doc_id" then Ok(Print(id))
    else Err(UnknownField)
  }

  function LoadLiteral(k: Clock, f: FieldRef, lit: Literal): Result<string, EvalError> {
    if f.name == "ts" then
      if lit.num.Some? then Ok(Print(lit.num.value))
      else if lit.text.None? then Err(TsLiteral)
      else
        match k.parse(lit.text.value)
        case None => Err(NotRFC3339)
        case Some(t) => Ok(Print(t))
    else if f.name == "doc_id" then
      if lit.num.None? then Err(DocIDLiteral) else Ok(Print(lit.num.value))
    else if lit.text.None? then Err(StringLiteral)
    else Ok(lit.text.value)
  }

  predicate OrderedField(f: FieldRef) {
    f.key == "" && (f.name == "ts" || f.name == "doc_id")
  }

  predicate OrderOp(op: string) {
    op == "<" || op == "<=" || op == ">" || op == ">="
  }

  function CompareStrings(f: FieldRef, op: string, got: string, want: string): Verdict {
    if op == "=" then Ok(got == want)
    else if op == "!=" then Ok(got != want)
    else if OrderOp(op) then
      if !OrderedField(f) then Err(NotOrdered)
      else if ParseInt(got).None? then Err(LhsNotNumeric)
      else if ParseInt(want).None? then Err(RhsNotNumeric)
      else
        var l, r := ParseInt(got).value, ParseInt(want).value;
        Ok(if op == "<" then l < r else if op == "<=" then l <= r else if op == ">" then l > r else l >= r)
    else Err(UnknownOperator)
  }

  function EvalCompare(k: Clock, c: Compare, id: DocID, rec: LogRecord): Verdict {
    match LoadField(c.field, id, rec)
    case Err(e) => Err(e)
    case Ok(got) =>
      match LoadLiteral(k, c.field, c.value)
      case Err(e) => Err(e)
      case Ok(want) => CompareStrings(c.field, c.op, got, want)
  }

  function EvalCmp(k: Clock, c: CmpExpr, id: DocID, rec: LogRecord): Verdict
    decreases c
  {
    match c
    case Sub(e) => EvalOr(k, e.or, id, rec)
    case Leaf(cmp) => EvalCompare(k, cmp, id, rec)
  }

  /** A conjunction from left to right: the first error or false ends it. */
  function EvalAll(k: Clock, cs: seq<CmpExpr>, id: DocID, rec: LogRecord): Verdict
    decreases cs
  {
    if cs == [] then Ok(true)
    else
      var v := EvalCmp(k, cs[0], id, rec);
      if v != Ok(true) then v else EvalAll(k, cs[1..], id, rec)
  }

  function EvalAnd(k: Clock, a: AndExpr, id: DocID, rec: LogRecord): Verdict
    decreases a
  {
    var v := EvalCmp(k, a.cmp, id, rec);
    if v != Ok(true) then v else EvalAll(k, a.rest, id, rec)
  }

  /** A disjunction from left to right: the first error or true ends it. */
  function EvalAny(k: Clock, cs: seq<AndExpr>, id: DocID, rec: LogRecord): Verdict
    decreases cs
  {
    if cs == [] then Ok(false)
    else
      var v := EvalAnd(k, cs[0], id, rec);
      if v != Ok(false) then v else EvalAny(k, cs[1..], id, rec)
  }

  function EvalOr(k: Clock, o: OrExpr, id: DocID, rec: LogRecord): Verdict
    decreases o
  {
    var v := EvalAnd(k, o.conj, id, rec);
    if v != Ok(false) then v else EvalAny(k, o.rest, id, rec)
  }

  /** A missing WHERE matches everything. */
  function Eval(k: Clock, e: Option<Expr>, id: DocID, rec: LogRecord): Verdict {
    match e
    case None => Ok(true)
    case Some(x) => EvalOr(k, x.or, id, rec)
  }

  // ---- what the connectives mean ----------------------------------------------------------------

  /** Branch i is the first that is not plainly false: it is true, or it errs. */
  predicate FirstNotFalse(k: Clock, branches: seq<AndExpr>, i: nat, id: DocID, rec: LogRecord) {
    && i < |branches| && EvalAnd(k, branches[i], id, rec) != Ok(false)
    && forall j :: 0 <= j < i ==> EvalAnd(k, branches[j], id, rec) == Ok(false)
  }

  /** Conjunct i is the first that is not plainly true: it is false, or it errs. */
  predicate FirstNotTrue(k: Clock, conjuncts: seq<CmpExpr>, i: nat, id: DocID, rec: LogRecord) {
    && i < |conjuncts| && EvalCmp(k, conjuncts[i], id, rec) != Ok(true)
    && forall j :: 0 <= j < i ==> EvalCmp(k, conjuncts[j], id, rec) == Ok(true)
  }

  lemma {:induction false} AnyDecided(k: Clock, cs: seq<AndExpr>, id: DocID, rec: LogRecord)
    ensures EvalAny(k, cs, id, rec) == Ok(false) <==>
      forall j :: 0 <= j < |cs| ==> EvalAnd(k, cs[j], id, rec) == Ok(false)
    ensures forall i: nat | FirstNotFalse(k, cs, i, id, rec) :: EvalAny(k, cs, id, rec) == EvalAnd(k, cs[i], id, rec)
    ensures EvalAny(k, cs, id, rec) != Ok(false) ==> exists i: nat :: FirstNotFalse(k, cs, i, id, rec)
    decreases |cs|
  {
    hide EvalAnd;
    if cs != [] {
      AnyDecided(k, cs[1..], id, rec);
      if EvalAnd(k, cs[0], id, rec) != Ok(false) {
        assert FirstNotFalse(k, cs, 0, id, rec);
      } else {
        forall i: nat | FirstNotFalse(k, cs, i, id, rec) ensures i > 0 && FirstNotFalse(k, cs[1..], i - 1, id, rec) {
        }
        if i: nat :| FirstNotFalse(k, cs[1..], i, id, rec) {
          assert FirstNotFalse(k, cs, i + 1, id, rec);
        }
      }
    }
  }

  lemma {:induction false} AllDecided(k: Clock, cs: seq<CmpExpr>, id: DocID, rec: LogRecord)
    ensures EvalAll(k, cs, id, rec) == Ok(true) <==>
      forall j :: 0 <= j < |cs| ==> EvalCmp(k, cs[j], id, rec) == Ok(true)
    ensures forall i: nat | FirstNotTrue(k, cs, i, id, rec) :: EvalAll(k, cs, id, rec) == EvalCmp(k, cs[i], id, rec)
    ensures EvalAll(k, cs, id, rec) != Ok(true) ==> exists i: nat :: FirstNotTrue(k, cs, i, id, rec)
    decreases |cs|
  {
    hide EvalCmp;
    if cs != [] {
      AllDecided(k, cs[1..], id, rec);
      if EvalCmp(k, cs[0], id, rec) != Ok(true) {
        assert FirstNotTrue(k, cs, 0, id, rec);
      } else {
        forall i: nat | FirstNotTrue(k, cs, i, id, rec) ensures i > 0 && FirstNotTrue(k, cs[1..], i - 1, id, rec) {
        }
        if i: nat :| FirstNotTrue(k, cs[1..], i, id, rec) {
          assert FirstNotTrue(k, cs, i + 1, id, rec);
        }
      }
    }
  }

  lemma OrIsAny(k: Clock, o: OrExpr, id: DocID, rec: LogRecord)
    ensures EvalOr(k, o, id, rec) == EvalAny(k, [o.conj] + o.rest, id, rec)
  {
    assert ([o.conj] + o.rest)[1..] == o.rest;
  }

  lemma AndIsAll(k: Clock, a: AndExpr, id: DocID, rec: LogRecord)
    ensures EvalAnd(k, a, id, rec) == EvalAll(k, [a.cmp] + a.rest, id, rec)
  {
    assert ([a.cmp] + a.rest)[1..] == a.rest;
  }

  /**
   A disjunction is true, or errs, exactly when its first branch that is not false does; it is false exactly when every
   branch is.
   */
  lemma OrMeans(k: Clock, o: OrExpr, id: DocID, rec: LogRecord)
    ensures var v, branches := EvalOr(k, o, id, rec), [o.conj] + o.rest;
      && (v == Ok(false) <==> forall j :: 0 <= j < |branches| ==> EvalAnd(k, branches[j], id, rec) == Ok(false))
      && (v == Ok(true) <==>
            exists i: nat :: FirstNotFalse(k, branches, i, id, rec) && EvalAnd(k, branches[i], id, rec) == Ok(true))
      && (forall e :: v == Err(e) <==>
            exists i: nat :: FirstNotFalse(k, branches, i, id, rec) && EvalAnd(k, branches[i], id, rec) == Err(e))
  {
    hide EvalAnd, EvalOr, EvalAny, FirstNotFalse;
    OrIsAny(k, o, id, rec);
    AnyDecided(k, [o.conj] + o.rest, id, rec);
  }

  /** The dual: a conjunction is false, or errs, exactly when its first conjunct that is not true does. */
  lemma AndMeans(k: Clock, a: AndExpr, id: DocID, rec: LogRecord)
    ensures var v, conjuncts := EvalAnd(k, a, id, rec), [a.cmp] + a.rest;
      && (v == Ok(true) <==> forall j :: 0 <= j < |conjuncts| ==> EvalCmp(k, conjuncts[j], id, rec) == Ok(true))
      && (v == Ok(false) <==>
            exists i: nat :: FirstNotTrue(k, conjuncts, i, id, rec) && EvalCmp(k, conjuncts[i], id, rec) == Ok(false))
      && (forall e :: v == Err(e) <==>
            exists i: nat :: FirstNotTrue(k, conjuncts, i, id, rec) && EvalCmp(k, conjuncts[i], id, rec) == Err(e))
  {
    hide EvalCmp, EvalAnd, EvalAll, FirstNotTrue;
    AndIsAll(k, a, id, rec);
    AllDecided(k, [a.cmp] + a.rest, id, rec);
  }

  // ---- the loops --------------------------------------------------------------------------------

  method RunOr(k: Clock, o: OrExpr, id: DocID, rec: LogRecord) returns (v: Verdict)
    ensures v == EvalOr(k, o, id, rec)
    decreases o
  {
    v := RunAnd(k, o.conj, id, rec);
    if v.Err? || v.value { return; }
    var i := 0;
    while i < |o.rest|
      invariant i <= |o.rest| && EvalOr(k, o, id, rec) == EvalAny(k, o.rest[i..], id, rec)
    {
      assert o.rest[i..][0] == o.rest[i] && o.rest[i..][1..] == o.rest[i + 1..];
      v := RunAnd(k, o.rest[i], id, rec);
      if v.Err? || v.value { return; }
      i := i + 1;
    }
    v := Ok(false);
  }

  method RunAnd(k: Clock, a: AndExpr, id: DocID, rec: LogRecord) returns (v: Verdict)
    ensures v == EvalAnd(k, a, id, rec)
    decreases a
  {
    v := RunCmp(k, a.cmp, id, rec);
    if v.Err? || !v.value { return; }
    var i := 0;
    while i < |a.rest|
      invariant i <= |a.rest| && EvalAnd(k, a, id, rec) == EvalAll(k, a.rest[i..], id, rec)
    {
      assert a.rest[i..][0] == a.rest[i] && a.rest[i..][1..] == a.rest[i + 1..];
      v := RunCmp(k, a.rest[i], id, rec);
      if v.Err? || !v.value { return; }
      i := i + 1;
    }
    v := Ok(true);
  }

  method RunCmp(k: Clock, c: CmpExpr, id: DocID, rec: LogRecord) returns (v: Verdict)
    ensures v == EvalCmp(k, c, id, rec)
    decreases c
  {
    match c {
      case Sub(e) => v := RunOr(k, e.or, id, rec);
      case Leaf(cmp) => v := EvalCompare(k, cmp, id, rec);
    }
  }

  // ---- what a clause means ----------------------------------------------------------------------

  /** What the literal denotes against a numeric column. */
  function LiteralInt(k: Clock, f: FieldRef, lit: Literal): Option<int> {
    if lit.num.Some? then Some(lit.num.value)
    else if f.name == "ts" && lit.text.Some? then
      match k.parse(lit.text.value)
      case None => None
      case Some(t) => Some(t)
    else None
  }

  predicate KnownOp(op: string) {
    op == "=" || op == "!=" || OrderOp(op)
  }

  /**
   On ts and doc_id all six operators are integer comparison with the number the literal gives (for ts also as text),
   although the values are compared as strings or re-parsed; the one exception is an ordered comparison with a DocID of
   2^63 or more, which is an error.
   */
  lemma NumericCompare(k: Clock, c: Compare, want: int64, id: DocID, rec: LogRecord)
    requires c.field == FieldRef("ts", "") || c.field == FieldRef("doc_id", "")
    requires c.value.num == Some(want) ||
      (c.field.name == "ts" && c.value.num.None? && c.value.text.Some? && k.parse(c.value.text.value) == Some(want))
    ensures var got := if c.field.name == "ts" then rec.timestamp else id;
      EvalCompare(k, c, id, rec) ==
        match c.op
        case "=" => Ok(got == want)
        case "!=" => Ok(got != want)
        case "<" => if got >= I63 then Err(LhsNotNumeric) else Ok(got < want)
        case "<=" => if got >= I63 then Err(LhsNotNumeric) else Ok(got <= want)
        case ">" => if got >= I63 then Err(LhsNotNumeric) else Ok(got > want)
        case ">=" => if got >= I63 then Err(LhsNotNumeric) else Ok(got >= want)
        case _ => Err(UnknownOperator)
  {
    hide Print, ParseInt;
    var got := if c.field.name == "ts" then rec.timestamp else id;
    PrintInjective(got, want);
    ParseAfterPrint(got);
    ParseAfterPrint(want);
  }

  /** The text columns compare as strings for = and != only; a missing field reads as the empty string. */
  lemma TextCompare(k: Clock, c: Compare, got: string, id: DocID, rec: LogRecord)
    requires
      || (c.field == FieldRef("source", "") && got == rec.source)
      || (c.field == FieldRef("message", "") && got == rec.message)
      || (c.field == FieldRef("tenant_id", "") && got == rec.tenantID)
      || (c.field.name == "fields" && c.field.key != "" && c.field.key in rec.fields && got == rec.fields[c.field.key])
      || (c.field.name == "fields" && c.field.key != "" && c.field.key !in rec.fields && got == "")
    ensures EvalCompare(k, c, id, rec) ==
      if c.value.text.None? then Err(StringLiteral)
      else
        match c.op
        case "=" => Ok(got == c.value.text.value)
        case "!=" => Ok(got != c.value.text.value)
        case _ => Err(if c.op in {"<", "<=", ">", ">="} then NotOrdered else UnknownOperator)
  {
  }

  /** A literal that gives a numeric column no number is an error under every operator. */
  lemma BadLiteral(k: Clock, c: Compare, id: DocID, rec: LogRecord)
    requires c.value.num.None?
    requires c.field == FieldRef("doc_id", "") || (c.field == FieldRef("ts", "") &&
      (c.value.text.Some? ==> k.parse(c.value.text.value).None?))
    ensures EvalCompare(k, c, id, rec) ==
      Err(if c.field.name == "doc_id" then DocIDLiteral else if c.value.text.None? then TsLiteral else NotRFC3339)
  {
  }

  /** Every other column is an error, whatever the literal. */
  lemma BadColumn(k: Clock, c: Compare, id: DocID, rec: LogRecord)
    requires c.field.key != "" ==> c.field.name != "fields"
    requires c.field.key == "" ==> c.field.name !in {"ts", "doc_id", "tenant_id", "source", "message"}
    ensures EvalCompare(k, c, id, rec) == Err(if c.field.key != "" then NestedAccess else UnknownField)
  {
  }

  /** The static type rules of a leaf. */
  predicate WellTypedLeaf(k: Clock, c: Compare) {
    && (if c.field.key != "" then c.field.name == "fields"
        else c.field.name in {"ts", "doc_id", "tenant_id", "source", "message"})
    && (if OrderedField(c.field) then LiteralInt(k, c.field, c.value).Some? && KnownOp(c.op)
        else c.value.text.Some? && (c.op == "=" || c.op == "!="))
  }

  /** A leaf errs on no record below 2^63 if it is well typed, and on every record if it is not. */
  lemma WellTypedNeverErrs(k: Clock, c: Compare, id: DocID, rec: LogRecord)
    requires id < I63
    ensures EvalCompare(k, c, id, rec).Ok? <==> WellTypedLeaf(k, c)
  {
    hide Print, ParseInt;
    if OrderedField(c.field) && KnownOp(c.op) && LiteralInt(k, c.field, c.value).Some? {
      NumericCompare(k, c, LiteralInt(k, c.field, c.value).value, id, rec);
    }
  }

  predicate WellTyped(k: Clock, o: OrExpr)
    decreases o
  {
    WellTypedAnd(k, o.conj) && forall i :: 0 <= i < |o.rest| ==> WellTypedAnd(k, o.rest[i])
  }

  predicate WellTypedAnd(k: Clock, a: AndExpr)
    decreases a
  {
    WellTypedCmp(k, a.cmp) && forall i :: 0 <= i < |a.rest| ==> WellTypedCmp(k, a.rest[i])
  }

  predicate WellTypedCmp(k: Clock, c: CmpExpr)
    decreases c
  {
    match c
    case Sub(e) => WellTyped(k, e.or)
    case Leaf(cmp) => WellTypedLeaf(k, cmp)
  }

  /** A well-typed WHERE errs on no record, however deeply it nests. */
  lemma {:induction false} WellTypedOr(k: Clock, o: OrExpr, id: DocID, rec: LogRecord)
    requires WellTyped(k, o) && id < I63
    ensures EvalOr(k, o, id, rec).Ok?
    decreases o
  {
    WellTypedConj(k, o.conj, id, rec);
    WellTypedAny(k, o.rest, id, rec);
  }

  lemma {:induction false} WellTypedAny(k: Clock, cs: seq<AndExpr>, id: DocID, rec: LogRecord)
    requires (forall i :: 0 <= i < |cs| ==> WellTypedAnd(k, cs[i])) && id < I63
    ensures EvalAny(k, cs, id, rec).Ok?
    decreases cs
  {
    if cs != [] {
      WellTypedConj(k, cs[0], id, rec);
      WellTypedAny(k, cs[1..], id, rec);
    }
  }

  lemma {:induction false} WellTypedConj(k: Clock, a: AndExpr, id: DocID, rec: LogRecord)
    requires WellTypedAnd(k, a) && id < I63
    ensures EvalAnd(k, a, id, rec).Ok?
    decreases a
  {
    WellTypedItem(k, a.cmp, id, rec);
    WellTypedAll(k, a.rest, id, rec);
  }

  lemma {:induction false} WellTypedAll(k: Clock, cs: seq<CmpExpr>, id: DocID, rec: LogRecord)
    requires (forall i :: 0 <= i < |cs| ==> WellTypedCmp(k, cs[i])) && id < I63
    ensures EvalAll(k, cs, id, rec).Ok?
    decreases cs
  {
    if cs != [] {
      WellTypedItem(k, cs[0], id, rec);
      WellTypedAll(k, cs[1..], id, rec);
    }
  }

  lemma {:induction false} WellTypedItem(k: Clock, c: CmpExpr, id: DocID, rec: LogRecord)
    requires WellTypedCmp(k, c) && id < I63
    ensures EvalCmp(k, c, id, rec).Ok?
    decreases c
  {
    match c {
      case Sub(e) => WellTypedOr(k, e.or, id, rec);
      case Leaf(cmp) => WellTypedNeverErrs(k, cmp, id, rec);
    }
  }
}

/** Tenant scoping as an AST rewrite (internal/query/scope.go). */
module Scope {
  import opened Types
  import opened QueryAst
  import opened Evaluator

  function TenantCmp(tenant: string): CmpExpr {
    Leaf(Compare(FieldRef("tenant_id", ""), "=", Literal(Some(tenant), None)))
  }

  function AndTenantFilter(orig: Option<Expr>, tenant: string): Expr {
    match orig
    case None => Expr(OrExpr(AndExpr(TenantCmp(tenant), []), []))
    case Some(e) => Expr(OrExpr(AndExpr(Sub(e), [TenantCmp(tenant)]), []))
  }

  /**
   The rewritten clause is the caller's clause AND the tenant test, for every nesting: its errors come first and
   unchanged, its false hides the test, and its true leaves the answer to the test alone.
   */
  lemma TenantFilterMeans(k: Clock, orig: Option<Expr>, tenant: string, id: DocID, rec: LogRecord)
    ensures Eval(k, Some(AndTenantFilter(orig, tenant)), id, rec) ==
      if Eval(k, orig, id, rec) == Ok(true) then Ok(rec.tenantID == tenant) else Eval(k, orig, id, rec)
  {
    var t := TenantCmp(tenant);
    assert EvalCmp(k, t, id, rec) == Ok(rec.tenantID == tenant);
    assert [t][1..] == [];
    assert EvalAll(k, [], id, rec) == Ok(true);
    assert EvalAll(k, [t], id, rec) == EvalCmp(k, t, id, rec);
    var o := AndTenantFilter(orig, tenant).or;
    assert EvalAny(k, o.rest, id, rec) == Ok(false);
    if orig.Some? {
      assert EvalCmp(k, Sub(orig.value), id, rec) == Eval(k, orig, id, rec);
    }
    assert EvalAnd(k, o.conj, id, rec) ==
      if Eval(k, orig, id, rec) == Ok(true) then Ok(rec.tenantID == tenant) else Eval(k, orig, id, rec);
  }

  /** A well-typed clause stays well typed. */
  lemma TenantFilterIsWellTyped(k: Clock, orig: Option<Expr>, tenant: string)
    ensures WellTyped(k, AndTenantFilter(orig, tenant).or) <==> (orig.Some? ==> WellTyped(k, orig.value.or))
  {
    var a := AndTenantFilter(orig, tenant).or.conj;
    assert WellTypedCmp(k, TenantCmp(tenant));
    if orig.Some? {
      assert WellTypedCmp(k, a.cmp) <==> WellTyped(k, orig.value.or);
      assert a.rest[0] == TenantCmp(tenant);
    }
    assert WellTypedAnd(k, a) <==> WellTypedCmp(k, a.cmp);
  }
}
